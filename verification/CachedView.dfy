/** The state of a cached file as a value: what it stands for, and what background work does to it. */
module CachedView {
  import opened Common
  import opened SplitFile
  import opened CachedSlots
  import opened Dispatch

  // ---------------------------------------------------------------- invariant

  function Places(slots: seq<Slot>): (r: seq<Place>)
    ensures |r| == |slots|
  {
    seq(|slots|, k requires 0 <= k < |slots| => slots[k].place)
  }

  lemma PlacesPrefix(slots: seq<Slot>, n: nat)
    requires n <= |slots|
    ensures Places(slots[..n]) == Places(slots)[..n]
  {
  }

  /** On each device the windows follow one another from its beginning, and the cursor is after the last. */
  ghost predicate Placed(slots: seq<Slot>, next: Place -> nat) {
    && (forall k :: 0 <= k < |slots| ==> slots[k].offset == N * CountOn(Places(slots)[..k], slots[k].place))
    && (forall p :: next(p) == N * CountOn(Places(slots), p))
  }

  /** So windows are aligned, disjoint, and below the cursors. */
  lemma PlacedApart(slots: seq<Slot>, next: Place -> nat, j: nat, k: nat)
    requires Placed(slots, next) && j < |slots| && k < |slots|
    ensures slots[j].offset % N == 0 && slots[j].offset + N <= next(slots[j].place)
    ensures j != k && slots[j].place == slots[k].place ==>
      slots[j].offset + N <= slots[k].offset || slots[k].offset + N <= slots[j].offset
  {
    var places := Places(slots);
    assert places[..|slots|] == places;
    CountBefore(places, j, |slots|);
    if j < k {
      CountBefore(places, j, k);
    } else if k < j {
      CountBefore(places, k, j);
    }
  }

  ghost predicate Stored(dev: Devices, slots: seq<Slot>, c: seq<Byte>) {
    && |slots| == NodesFor(|c|)
    && forall k :: 0 <= k < |slots| ==>
         slots[k].start == k * N < |c| && Keeps(dev.At(slots[k].place), slots[k], Part(c, k))
  }

  /** Exactly the slots with a buffer are linked, each once. */
  ghost predicate Tracked(slots: seq<Slot>, linked: multiset<nat>) {
    forall k: nat :: linked[k] == if k < |slots| && slots[k].present then 1 else 0
  }

  /** The devices, the nodes, the cursors, the cold list and the queues, of which there are Pow2(bits). */
  datatype View = View(dev: Devices, slots: seq<Slot>, next: Place -> nat, cold: seq<nat>, queues: seq<seq<nat>>,
                       bits: nat)

  /** How often each slot is linked. */
  ghost function Linked(v: View): multiset<nat> {
    multiset(v.cold) + All(v.queues)
  }

  /** Windows and links are in order, whatever the slots hold. */
  ghost predicate Kempt(v: View) {
    Placed(v.slots, v.next) && |v.queues| == Pow2(v.bits) && Tracked(v.slots, Linked(v))
  }

  /** A cache in this state stands for the plain file `c`. */
  ghost predicate Sane(v: View, c: seq<Byte>) {
    Stored(v.dev, v.slots, c) && Kempt(v)
  }

  lemma SaneKempt(v: View, c: seq<Byte>)
    requires Sane(v, c)
    ensures Kempt(v)
  {
  }

  lemma SlotCount(v: View, c: seq<Byte>)
    requires Sane(v, c)
    ensures |v.slots| == NodesFor(|c|)
  {
  }

  lemma SaneSlot(v: View, c: seq<Byte>, k: nat)
    requires Sane(v, c) && k < |v.slots|
    ensures v.slots[k].start == k * N < |c| && Keeps(v.dev.At(v.slots[k].place), v.slots[k], Part(c, k))
    ensures v.slots[k].size == |Part(c, k)| == Min(N, |c| - k * N)
  {
  }

  /** The device and the position on it where byte `i` of the file belongs. */
  function HomeOf(v: View, i: nat): (Place, int)
    requires i / N < |v.slots|
  {
    (v.slots[i / N].place, v.slots[i / N].offset + i % N)
  }

  /** Different bytes of the file belong at different places, below the cursors, and a clean slot has its bytes
      there. */
  lemma OneByteOnePlace(v: View, c: seq<Byte>, i: nat, j: nat)
    requires Sane(v, c) && i < |c| && j < |c|
    ensures i / N < |v.slots| && j / N < |v.slots| && (i != j ==> HomeOf(v, i) != HomeOf(v, j))
    ensures var (place, pos) := HomeOf(v, i);
      && pos < v.next(place)
      && (!v.slots[i / N].dirty ==> pos < |v.dev.At(place)| && v.dev.At(place)[pos] == c[i])
  {
    hide Sane, NodesFor, Keeps;
    SlotCount(v, c);
    NodesEnough(|c|);
    NodeOf(|c|, i);
    NodeOf(|c|, j);
    HomesApart(v, c, i / N, j / N);
    HomesDiffer(v.slots[i / N].offset, v.slots[j / N].offset, i, j);
    if !v.slots[i / N].dirty {
      CleanByte(v, c, i);
    }
  }

  /** Positions in one window or in two that are apart. */
  lemma HomesDiffer(o: int, p: int, i: nat, j: nat)
    requires if i / N == j / N then o == p else true
    ensures i != j && (i / N == j / N || o + N <= p || p + N <= o) ==> o + i % N != p + j % N
  {
  }

  lemma CleanByte(v: View, c: seq<Byte>, i: nat)
    requires Sane(v, c) && i < |c| && i / N < |v.slots| && i / N < NodesFor(|c|) && !v.slots[i / N].dirty
    ensures var s := v.slots[i / N];
      0 <= s.offset + i % N < |v.dev.At(s.place)| && v.dev.At(s.place)[s.offset + i % N] == c[i]
  {
    hide Sane, NodesFor, Keeps;
    SaneSlot(v, c, i / N);
    var s := v.slots[i / N];
    assert Part(c, i / N)[i % N] == c[i];
    assert v.dev.At(s.place)[s.offset..s.offset + s.size][i % N] == c[i];
  }

  lemma HomesApart(v: View, c: seq<Byte>, j: nat, k: nat)
    requires Sane(v, c) && j < |v.slots| && k < |v.slots|
    ensures v.slots[j].offset + N <= v.next(v.slots[j].place)
    ensures j != k && v.slots[j].place == v.slots[k].place ==>
      v.slots[j].offset + N <= v.slots[k].offset || v.slots[k].offset + N <= v.slots[j].offset
  {
    hide Placed;
    PlacedApart(v.slots, v.next, j, k);
  }

  /** A cache stands for at most one file. */
  lemma SaneUnique(v: View, a: seq<Byte>, b: seq<Byte>)
    requires Sane(v, a) && Sane(v, b)
    ensures a == b
  {
    hide Sane, NodesFor, Part, Keeps;
    SlotCount(v, a);
    SlotCount(v, b);
    NodesEnough(|a|);
    NodesEnough(|b|);
    if v.slots != [] {
      SaneSlot(v, a, |v.slots| - 1);
      SaneSlot(v, b, |v.slots| - 1);
    }
    forall i | 0 <= i < |a| ensures i < |b| && a[i] == b[i] {
      NodeOf(|a|, i);
      SaneSlot(v, a, i / N);
      SaneSlot(v, b, i / N);
      SamePart(v.dev.At(v.slots[i / N].place), v.slots[i / N], Part(a, i / N), Part(b, i / N));
      PartAt(a, i);
      PartAt(b, i);
    }
  }

  lemma SamePart(d: seq<Byte>, s: Slot, a: seq<Byte>, b: seq<Byte>)
    requires Keeps(d, s, a) && Keeps(d, s, b)
    ensures a == b
  {
  }

  lemma PartAt(c: seq<Byte>, i: nat)
    requires i < |c|
    ensures i / N * N <= |c| && i % N < |Part(c, i / N)| && Part(c, i / N)[i % N] == c[i]
  {
  }

  // --------------------------------------------------------- steps on one slot

  /** Slot `k` is replaced by one that keeps what it kept. */
  lemma Replace(dev: Devices, slots: seq<Slot>, c: seq<Byte>, k: nat, s: Slot)
    requires Stored(dev, slots, c) && k < |slots| && s.place == slots[k].place && s.start == slots[k].start
    requires Keeps(dev.At(s.place), s, Part(c, k))
    ensures Stored(dev, slots[k := s], c)
  {
  }

  /** Slot `k` is replaced by one that keeps what a write makes of its part. */
  lemma ReplacePut(dev: Devices, slots: seq<Slot>, c: seq<Byte>, k: nat, s: Slot, b: seq<Byte>, rel: nat,
                   gap: seq<Byte>)
    requires Stored(dev, slots, c) && k < |slots| && s.place == slots[k].place && s.start == slots[k].start
    requires b != [] && rel + |b| <= N && |gap| == Max(0, k * N + rel - |c|)
    requires Keeps(dev.At(s.place), s, Pwrite(Part(c, k) + gap, b, rel))
    ensures Stored(dev, slots[k := s], Pwrite(c + gap, b, k * N + rel))
  {
    hide Keeps, Part, Pwrite;
    PartGap(c, gap, k);
    PartPut(c + gap, k, b, rel);
  }

  /** The devices after writing a slot back, if it has a buffer. */
  function Back(dev: Devices, s: Slot, beyond: nat -> Byte): Devices {
    if s.buf.Some? then dev.With(s.place, Flushed(dev.At(s.place), s, beyond)) else dev
  }

  /** Slot `k` is written back. */
  lemma WriteBack(dev: Devices, slots: seq<Slot>, next: Place -> nat, c: seq<Byte>, k: nat, beyond: nat -> Byte)
    requires Stored(dev, slots, c) && Placed(slots, next) && k < |slots| && slots[k].present
    ensures Stored(Back(dev, slots[k], beyond), slots[k := slots[k].(dirty := false)], c)
  {
    hide Placed;
    var s := slots[k];
    var dev' := Back(dev, s, beyond);
    forall j | 0 <= j < |slots|
      ensures Keeps(dev'.At(slots[j].place), if j == k then s.(dirty := false) else slots[j], Part(c, j))
    {
      if j == k {
        FlushKeeps(dev.At(s.place), s, Part(c, k), beyond);
      } else if slots[j].place == s.place {
        PlacedApart(slots, next, j, k);
        FlushBeside(dev.At(s.place), slots[j], Part(c, j), s.buf.value[..s.size], s.offset);
      }
    }
  }

  /** A new slot whose buffer holds `b`, at the cursor of its device. */
  lemma AddSlot(dev: Devices, slots: seq<Slot>, c: seq<Byte>, s: Slot, b: seq<Byte>)
    requires Stored(dev, slots, c) && |c| == s.start == |slots| * N && 0 < |b| <= N
    requires s.dirty && s.present && s.buf.Some? && |s.buf.value| == N && s.size == |b| && s.buf.value[..|b|] == b
    requires BlankFrom(s.buf.value, |b|)
    ensures Stored(dev, slots + [s], Pwrite(c, b, |c|))
  {
    hide Part, Pwrite;
    PartNew(c, b, |slots|);
  }

  lemma SlotKeeps(dev: Devices, slots: seq<Slot>, c: seq<Byte>, k: nat)
    requires Stored(dev, slots, c) && k < |slots|
    ensures |slots| == NodesFor(|c|) && slots[k].start == k * N < |c|
    ensures Keeps(dev.At(slots[k].place), slots[k], Part(c, k))
    ensures slots[k].size == |Part(c, k)| == Min(N, |c| - k * N)
  {
  }

  /** Eviction: a dirty slot is written back, and the buffer dropped. */
  lemma WriteBackOrNot(dev: Devices, slots: seq<Slot>, next: Place -> nat, c: seq<Byte>, k: nat, beyond: nat -> Byte)
    requires Stored(dev, slots, c) && Placed(slots, next) && k < |slots| && slots[k].present
    ensures var dev' := if slots[k].dirty then Back(dev, slots[k], beyond) else dev;
      var slots' := slots[k := Dropped(slots[k])];
      Stored(dev', slots', c) && Placed(slots', next)
  {
    hide Part, Pwrite, Stored, Placed, Flushed;
    SlotKeeps(dev, slots, c, k);
    var s := slots[k];
    var dev', slots1 := dev, slots;
    if s.dirty {
      WriteBack(dev, slots, next, c, k, beyond);
      dev', slots1 := Back(dev, s, beyond), slots[k := s.(dirty := false)];
    }
    SlotKeeps(dev', slots1, c, k);
    DropKeeps(dev'.At(s.place), slots1[k], Part(c, k));
    assert Dropped(slots1[k]) == Dropped(s);
    Replace(dev', slots1, c, k, Dropped(s));
    assert slots1[k := Dropped(s)] == slots[k := Dropped(s)];
    PlacedReplace(slots, next, k, Dropped(s));
  }

  lemma PlacedReplace(slots: seq<Slot>, next: Place -> nat, k: nat, s: Slot)
    requires Placed(slots, next) && k < |slots| && s.place == slots[k].place && s.offset == slots[k].offset
    ensures Placed(slots[k := s], next) && Places(slots[k := s]) == Places(slots)
  {
    assert Places(slots[k := s]) == Places(slots);
  }

  function Advance(next: Place -> nat, p: Place): (r: Place -> nat)
    ensures forall x :: r(x) == next(x) + if x == p then N else 0
  {
    x => if x == p then next(x) + N else next(x)
  }

  lemma PlacedAdd(slots: seq<Slot>, next: Place -> nat, s: Slot)
    requires Placed(slots, next) && s.offset == next(s.place)
    ensures Placed(slots + [s], Advance(next, s.place)) && Places(slots + [s]) == Places(slots) + [s.place]
  {
    var places := Places(slots);
    assert Places(slots + [s]) == places + [s.place];
    assert (places + [s.place])[..|places|] == places;
    forall k | 0 <= k < |slots| ensures (places + [s.place])[..k] == places[..k] {
    }
    forall p ensures Advance(next, s.place)(p) == N * CountOn(places + [s.place], p) {
      CountOne(places, s.place, p);
    }
  }

  lemma TrackedReplace(slots: seq<Slot>, linked: multiset<nat>, k: nat, s: Slot)
    requires Tracked(slots, linked) && k < |slots|
    ensures s.present == slots[k].present ==> Tracked(slots[k := s], linked)
    ensures s.present && !slots[k].present ==> Tracked(slots[k := s], linked + multiset{k})
  {
  }

  lemma TrackedAdd(slots: seq<Slot>, linked: multiset<nat>, s: Slot)
    requires Tracked(slots, linked) && s.present
    ensures Tracked(slots + [s], linked + multiset{|slots|})
  {
  }

  /** Only slots with a buffer are linked. */
  lemma TrackedIn(slots: seq<Slot>, linked: multiset<nat>, k: nat)
    requires Tracked(slots, linked) && k in linked
    ensures k < |slots| && slots[k].present
    ensures forall m, s: Slot :: !s.present && linked == m + multiset{k} ==> Tracked(slots[k := s], m)
  {
  }

  lemma TrackedDrop(slots: seq<Slot>, linked: multiset<nat>, k: nat)
    requires Tracked(slots, linked) && k < |slots|
    ensures forall s: Slot :: !s.present ==> Tracked(slots[k := s], linked[k := 0])
  {
  }

  // ---------------------------------------------------------- background work

  /** What happens in the background: a worker evicts the first entry of queue `q`, a sync writes back slot `k` that
      it saw dirty before, or entries are dispatched to the queues. `beyond` is what follows the buffer in memory. */
  datatype Act =
    | Evict(q: nat, beyond: nat -> Byte)
    | Sync(k: nat, beyond: nat -> Byte)
    | Move(total: nat, low: nat, high: nat)

  /** The first entry of queue `q` is unlinked, written back if dirty, and loses its buffer. */
  ghost predicate Evicted(v: View, q: nat, beyond: nat -> Byte, v': View) {
    && q < |v.queues| && v.queues[q] != [] && v.queues[q][0] < |v.slots|
    && var k := v.queues[q][0];
       v' == v.(dev := if v.slots[k].dirty then Back(v.dev, v.slots[k], beyond) else v.dev,
                slots := v.slots[k := Dropped(v.slots[k])],
                queues := v.queues[q := v.queues[q][1..]])
  }

  /** Slot `k` is written back, if it has a buffer, and is clean. */
  ghost predicate Synced(v: View, k: nat, beyond: nat -> Byte, v': View) {
    && k < |v.slots|
    && v' == v.(dev := Back(v.dev, v.slots[k], beyond), slots := v.slots[k := v.slots[k].(dirty := false)])
  }

  function WholeNode(k: nat): nat {
    N
  }

  /** Cold entries move to the queues. */
  ghost predicate Moved(v: View, total: nat, low: nat, v': View) {
    && v' == v.(cold := v'.cold, queues := v'.queues)
    && exists left, seen, moved ::
         Dispatched(v.cold, v.queues, v'.cold, v'.queues, {}, WholeNode, total, low, left, seen, moved)
  }

  /** What an action does, or nothing when there is nothing to do. */
  ghost predicate Done(v: View, act: Act, v': View) {
    match act
    case Evict(q, beyond) => if q < |v.queues| && v.queues[q] != [] then Evicted(v, q, beyond, v') else v' == v
    case Sync(k, beyond) => if k < |v.slots| then Synced(v, k, beyond, v') else v' == v
    case Move(total, low, high) => if N <= low <= high < total then Moved(v, total, low, v') else v' == v
  }

  /** Slot `k` has a buffer, in memory that held `garbage` if it had none before. */
  ghost predicate Loaded(v: View, k: nat, garbage: seq<Byte>, v': View) {
    && k < |v.slots| && v.slots[k].size <= N == |garbage|
    && v' == v.(slots := v.slots[k := Admit(v.dev.At(v.slots[k].place), v.slots[k], garbage)],
                cold := if v.slots[k].present then v.cold else v.cold + [k])
  }

  ghost predicate StayClean(slots: seq<Slot>, slots': seq<Slot>) {
    |slots| == |slots'| && forall k :: 0 <= k < |slots| && !slots[k].dirty ==> !slots'[k].dirty
  }

  /** The slots are those of the same nodes, on the same devices, with as many bytes in use. */
  ghost predicate SameShape(slots: seq<Slot>, slots': seq<Slot>) {
    && |slots| == |slots'|
    && Places(slots') == Places(slots)
    && forall k :: 0 <= k < |slots| ==> slots'[k].start == slots[k].start && slots'[k].size == slots[k].size
  }

  lemma DoneShape(v: View, act: Act, v': View)
    requires Done(v, act, v')
    ensures SameShape(v.slots, v'.slots)
  {
    assert Places(v'.slots) == Places(v.slots);
  }

  /** The states that a cache goes through while `acts` are done, all standing for `c` if the first does. */
  ghost predicate Trace(trace: seq<View>, acts: seq<Act>, c: seq<Byte>) {
    && |trace| == |acts| + 1
    && (forall i :: 0 <= i < |trace| ==> Kempt(trace[i]) && (Sane(trace[0], c) ==> Sane(trace[i], c)))
    && (forall i :: 0 <= i < |acts| ==> Done(trace[i], acts[i], trace[i + 1]))
  }

  lemma TraceNone(v: View, c: seq<Byte>)
    requires Kempt(v)
    ensures Trace([v], [], c)
  {
  }

  lemma TraceNext(trace: seq<View>, acts: seq<Act>, i: nat, c: seq<Byte>, v: View)
    requires i < |acts| && Trace(trace, acts[..i], c) && Kempt(v) && Done(trace[i], acts[i], v)
    requires Sane(trace[i], c) ==> Sane(v, c)
    ensures Trace(trace + [v], acts[..i + 1], c)
  {
    hide Sane, Done, Kempt;
  }

  lemma TraceFirst(v: View, act: Act, trace: seq<View>, acts: seq<Act>, c: seq<Byte>)
    requires Kempt(v) && Trace(trace, acts, c) && Done(v, act, trace[0]) && (Sane(v, c) ==> Sane(trace[0], c))
    ensures Trace([v] + trace, [act] + acts, c)
  {
    hide Sane, Done, Kempt;
    var trace', acts' := [v] + trace, [act] + acts;
    forall i | 0 <= i < |trace'| ensures Kempt(trace'[i]) && (Sane(trace'[0], c) ==> Sane(trace'[i], c)) {
      assert i > 0 ==> trace'[i] == trace[i - 1];
    }
    forall i | 0 <= i < |acts'| ensures Done(trace'[i], acts'[i], trace'[i + 1]) {
      assert i > 0 ==> trace'[i] == trace[i - 1] && acts'[i] == acts[i - 1];
    }
  }

  lemma {:induction false} TraceShape(trace: seq<View>, acts: seq<Act>, c: seq<Byte>, n: nat)
    requires Trace(trace, acts, c) && n < |trace|
    ensures SameShape(trace[0].slots, trace[n].slots)
  {
    hide Sane, Done, Kempt;
    if n > 0 {
      TraceShape(trace, acts, c, n - 1);
      assert Done(trace[n - 1], acts[n - 1], trace[n - 1 + 1]);
      DoneShape(trace[n - 1], acts[n - 1], trace[n]);
    }
  }
}
