/** Any slot can lose its buffer: from every state, background actions lead to one in which it has none, and so to
    one in which a write that leaves a gap in it shows what memory held. */
module CachedStale {
  import opened Common
  import opened SplitFile
  import opened CachedSlots
  import opened CachedView
  import opened CachedWrites
  import opened Dispatch

  // --------------------------------------------------------- dispatching all

  /** The queues after dealing `moved` to them in turn. */
  ghost function DealAll(queues: seq<seq<nat>>, moved: seq<nat>): (r: seq<seq<nat>>)
    requires queues != []
    ensures |r| == |queues|
  {
    if moved == [] then queues else
      var last := |moved| - 1;
      var r, q := DealAll(queues, moved[..last]), last % |queues|;
      r[q := r[q] + [moved[last]]]
  }

  lemma {:induction false} DealtAll(queues: seq<seq<nat>>, moved: seq<nat>)
    requires queues != []
    ensures Dealt(queues, DealAll(queues, moved), moved)
    ensures All(DealAll(queues, moved)) == All(queues) + multiset(moved)
  {
    hide Dealt, All;
    if moved == [] {
      DealtNone(queues);
    } else {
      var last := |moved| - 1;
      var before, x := moved[..last], moved[last];
      DealtAll(queues, before);
      DealtStep(queues, DealAll(queues, before), before, x, last % |queues|);
      AllPush(DealAll(queues, before), last % |queues|, x);
      assert before + [x] == moved;
    }
  }

  lemma {:induction false} SumNodes(s: seq<nat>)
    ensures Sum(s, WholeNode) == |s| * N
  {
    if s != [] {
      SumNodes(s[..|s| - 1]);
    }
  }

  /** A dispatch with a large enough total empties the cold list. */
  lemma MoveAll(v: View, c: seq<Byte>) returns (act: Act, v': View)
    requires Sane(v, c)
    ensures Done(v, act, v') && Sane(v', c) && v'.cold == [] && v'.slots == v.slots
  {
    hide Stored, Placed, Tracked, Dealt, All, Live, Sum, Pow2;
    Pow2Some(v.bits);
    var total := (|v.cold| + 2) * N;
    act := Move(total, N, N);
    v' := v.(cold := [], queues := DealAll(v.queues, v.cold));
    DealtAll(v.queues, v.cold);
    NoneDead(v.cold);
    SumNodes(v.cold);
    assert v.cold[..|v.cold|] == v.cold && v.cold[|v.cold|..] == [];
    assert Dispatched(v.cold, v.queues, [], v'.queues, {}, WholeNode, total, N, 2 * N, |v.cold|, v.cold);
    assert Linked(v') == Linked(v);
  }

  lemma Pow2Some(n: nat)
    ensures Pow2(n) > 0
  {
  }

  // ------------------------------------------------------------ evicting one

  lemma EvictOne(v: View, c: seq<Byte>, q: nat, beyond: nat -> Byte) returns (v': View)
    requires Sane(v, c) && q < |v.queues| && v.queues[q] != []
    ensures Evicted(v, q, beyond, v') && Sane(v', c)
  {
    hide Part, Stored, Placed, Tracked, Flushed, All;
    var k := v.queues[q][0];
    AllPop(v.queues, q);
    assert k in Linked(v);
    TrackedIn(v.slots, Linked(v), k);
    WriteBackOrNot(v.dev, v.slots, v.next, c, k, beyond);
    v' := v.(dev := if v.slots[k].dirty then Back(v.dev, v.slots[k], beyond) else v.dev,
             slots := v.slots[k := Dropped(v.slots[k])],
             queues := v.queues[q := v.queues[q][1..]]);
    assert Linked(v) == Linked(v') + multiset{k};
  }

  /** Evicting up to position `p` of queue `q`. */
  lemma {:induction false} EvictUpTo(v: View, c: seq<Byte>, q: nat, p: nat, beyond: nat -> Byte)
    returns (acts: seq<Act>, trace: seq<View>)
    requires Sane(v, c) && q < |v.queues| && p < |v.queues[q]|
    ensures Trace(trace, acts, c) && trace[0] == v
    ensures v.queues[q][p] < |trace[|acts|].slots| && !trace[|acts|].slots[v.queues[q][p]].present
    decreases p
  {
    hide Stored, Placed, Tracked, All, Linked, Back;
    var v1 := EvictOne(v, c, q, beyond);
    if p == 0 {
      TraceNone(v1, c);
      acts, trace := [], [v1];
    } else {
      acts, trace := EvictUpTo(v1, c, q, p - 1, beyond);
    }
    TraceFirst(v, Evict(q, beyond), trace, acts, c);
    acts, trace := [Evict(q, beyond)] + acts, [v] + trace;
  }

  lemma {:induction false} InAll(queues: seq<seq<nat>>, k: nat) returns (q: nat, p: nat)
    requires k in All(queues)
    ensures q < |queues| && p < |queues[q]| && queues[q][p] == k
  {
    if k in queues[0] {
      q := 0;
      p :| p < |queues[0]| && queues[0][p] == k;
    } else {
      q, p := InAll(queues[1..], k);
      q := q + 1;
    }
  }

  /** Any slot can lose its buffer. */
  lemma Evictable(v: View, c: seq<Byte>, k: nat, beyond: nat -> Byte) returns (acts: seq<Act>, trace: seq<View>)
    requires Sane(v, c) && k < |v.slots|
    ensures Trace(trace, acts, c) && trace[0] == v
    ensures k < |trace[|acts|].slots| && !trace[|acts|].slots[k].present
  {
    hide Stored, Placed, Tracked, All, Linked, Back;
    if !v.slots[k].present {
      TraceNone(v, c);
      return [], [v];
    }
    var act, v1 := MoveAll(v, c);
    Followed(v1, c, k);
    var q, p := InAll(v1.queues, k);
    acts, trace := EvictUpTo(v1, c, q, p, beyond);
    TraceFirst(v, act, trace, acts, c);
    acts, trace := [act] + acts, [v] + trace;
  }

  /** With nothing cold, a slot with a buffer is in a queue. */
  lemma Followed(v: View, c: seq<Byte>, k: nat)
    requires Sane(v, c) && v.cold == [] && k < |v.slots| && v.slots[k].present
    ensures k in All(v.queues)
  {
    assert Linked(v)[k] == 1;
  }

  // ----------------------------------------------------------------- the gap

  /** From any state, after some background actions, a write that leaves a gap in slot `k` exposes what memory held:
      at once, or after the slot has been given a buffer again for some read. */
  lemma StaleReached(v: View, c: seq<Byte>, k: nat, rel: nat, beyond: nat -> Byte)
    returns (acts: seq<Act>, trace: seq<View>, garbage: seq<Byte>, v': View)
    requires Sane(v, c) && k < |v.slots| && v.slots[k].size < rel <= N
    ensures Trace(trace, acts, c) && trace[0] == v && |garbage| == N
    ensures Loaded(trace[|acts|], k, garbage, v') && Sane(v', c) && v'.slots[k].present
    ensures !Zeros(GapOf(trace[|acts|].slots[k], garbage, rel))
    ensures forall other :: |other| == N ==> !Zeros(GapOf(v'.slots[k], other, rel))
  {
    hide Sane, Kempt, Done;
    acts, trace := Evictable(v, c, k, beyond);
    var w := trace[|acts|];
    TraceShape(trace, acts, c, |acts|);
    garbage := seq(N, i => 1);
    v' := Reload(w, c, k, garbage);
    ShowsOnes(w, c, k, garbage, rel, v');
  }

  lemma Reload(v: View, c: seq<Byte>, k: nat, garbage: seq<Byte>) returns (v': View)
    requires Sane(v, c) && k < |v.slots| && |garbage| == N
    ensures Loaded(v, k, garbage, v') && Sane(v', c) && v'.slots[k].present
  {
    hide Part, Keeps, Stored, Placed, Tracked, All;
    SaneSlot(v, c, k);
    var s := v.slots[k];
    AdmitKeeps(v.dev.At(s.place), s, Part(c, k), garbage);
    var s' := Admit(v.dev.At(s.place), s, garbage);
    Replace(v.dev, v.slots, c, k, s');
    PlacedReplace(v.slots, v.next, k, s');
    TrackedReplace(v.slots, Linked(v), k, s');
    v' := v.(slots := v.slots[k := s'], cold := if s.present then v.cold else v.cold + [k]);
    assert !s.present ==> Linked(v') == Linked(v) + multiset{k};
  }

  lemma ShowsOnes(v: View, c: seq<Byte>, k: nat, garbage: seq<Byte>, rel: nat, v': View)
    requires Sane(v, c) && Loaded(v, k, garbage, v') && !v.slots[k].present && v.slots[k].size < rel <= N
    requires forall i :: 0 <= i < N ==> garbage[i] == 1
    ensures !Zeros(GapOf(v.slots[k], garbage, rel))
    ensures forall other :: |other| == N ==> !Zeros(GapOf(v'.slots[k], other, rel))
  {
    hide Sane, Part;
    SaneSlot(v, c, k);
    var s, s' := v.slots[k], v'.slots[k];
    assert GapOf(s, garbage, rel)[0] == 1;
    AdmitGap(v.dev.At(s.place), s, Part(c, k), garbage, rel);
    assert GapOf(s', garbage, rel)[0] == 1;
    forall other: seq<Byte> | |other| == N ensures !Zeros(GapOf(s', other, rel)) {
      assert GapOf(s', other, rel) == GapOf(s', garbage, rel);
    }
  }
}
