/** Reads and writes of a split file through a write-back cache, with eviction and syncing
    in the background. */
module CachedIo {
  import opened Common
  import opened SplitFile
  import opened CachedSlots
  import opened CachedView
  import opened CachedStrays
  import opened CachedReadBack
  import opened CachedWrites
  import opened CachedRuns
  import opened Dispatch

  /** Where a read of the cached file goes wrong: it begins inside a last node of `s < N` bytes, at `b` from its
      start, asks for more than the `s - b` bytes there, and for fewer than `s`. */
  predicate OverReads(size: nat, start: nat, count: nat) {
    var last := (NodesFor(size) - 1) * N;
    var s, b := size - last, start - last;
    s < N && 0 <= b < s && s - b < count < s
  }

  /** Three bytes from position four of a file of six: one too many. */
  lemma OverReadExample()
    ensures OverReads(6, 4, 3) && !OverReads(6, 4, 2) && !OverReads(6, 4, 6)
  {
  }

  /** What the memory of one new buffer for each of `n` nodes holds. */
  ghost predicate Blocks(garbage: seq<seq<Byte>>, n: nat) {
    |garbage| == n && forall k :: 0 <= k < n ==> |garbage[k]| == N
  }

  /** No background actions. */
  ghost predicate Quiet(env: seq<seq<Act>>) {
    forall j :: 0 <= j < |env| ==> env[j] == []
  }

  /** What a read of `count` bytes at `start` returns. */
  ghost predicate Got(c: seq<Byte>, start: nat, count: nat, buf: seq<Byte>) {
    if OverReads(|c|, start, count) then |buf| == count && Pread(c, count, start) < buf
    else buf == Pread(c, count, start)
  }

  class Cache {
    var dev: Devices
    var slots: seq<Slot>
    var next: Place -> nat
    var size: nat
    var off: nat
    const lists: Lists

    ghost function Now(): View
      reads this`dev, this`slots, this`next, lists
    {
      View(dev, slots, next, lists.cold, lists.queues, lists.bits)
    }

    constructor (bits: nat)
      ensures Sane(Now(), []) && size == 0 && off == 0 && fresh(lists)
    {
      dev, slots, next, size, off := Devices([], []), [], (p => 0), 0, 0;
      lists := new Lists(bits);
    }

    /** Gives slot `k` a buffer if it has none; `garbage` is what the memory held. */
    method Load(k: nat, garbage: seq<Byte>, ghost c: seq<Byte>)
      requires Sane(Now(), c) && k < |slots| && |garbage| == N
      modifies this`slots, lists
      ensures Sane(Now(), c) && slots[k].present && Loaded(old(Now()), k, garbage, Now())
      ensures Places(slots) == Places(old(slots))
    {
      hide Keeps, Part, Stored, Placed, Tracked;
      var s := slots[k];
      SlotKeeps(dev, slots, c, k);
      AdmitKeeps(dev.At(s.place), s, Part(c, k), garbage);
      var s' := Admit(dev.At(s.place), s, garbage);
      Replace(dev, slots, c, k, s');
      PlacedReplace(slots, next, k, s');
      TrackedReplace(slots, lists.Linked(), k, s');
      slots := slots[k := s'];
      if !s.present {
        lists.AddCold(k);
      }
    }

    /** Reads `count` bytes at `rel` of slot `k`. */
    method Get(k: nat, rel: nat, count: nat, garbage: seq<Byte>, ghost c: seq<Byte>) returns (r: seq<Byte>)
      requires Sane(Now(), c) && k < |slots| && |garbage| == N && rel + count <= N
      modifies this`slots, lists
      ensures Sane(Now(), c) && Places(slots) == Places(old(slots))
      ensures |r| == count && Pread(c, count, k * N + rel) <= r
    {
      hide Part, Stored, Placed, Tracked, Pread, Admit;
      Load(k, garbage, c);
      SlotKeeps(dev, slots, c, k);
      r := slots[k].buf.value[rel..rel + count];
      BufferGet(slots[k].buf.value, Part(c, k), rel, count);
      PartGet(c, k, rel, count);
    }

    /** Writes `b` at `rel` of slot `k`. If that is after the end, `gap` is what then stands in between: the bytes
        there of the buffer, or of the memory that it gets. */
    method Set(k: nat, rel: nat, b: seq<Byte>, garbage: seq<Byte>, ghost c: seq<Byte>) returns (ghost gap: seq<Byte>)
      requires Sane(Now(), c) && k < |slots| && |garbage| == N && b != [] && rel + |b| <= N
      modifies this`slots, lists
      ensures Sane(Now(), Pwrite(c + gap, b, k * N + rel)) && Places(slots) == Places(old(slots))
      ensures |gap| == Max(0, k * N + rel - |c|) && gap == GapOf(old(slots)[k], garbage, rel)
    {
      hide Part, Pwrite, Stored, Placed, Tracked, Admit, GapOf;
      SlotKeeps(dev, slots, c, k);
      AdmitGap(dev.At(slots[k].place), slots[k], Part(c, k), garbage, rel);
      Load(k, garbage, c);
      SlotKeeps(dev, slots, c, k);
      var s := slots[k];
      gap := GapOf(s, garbage, rel);
      SameGap(s, garbage, rel);
      PutKeeps(dev.At(s.place), s, Part(c, k), b, rel);
      var s' := Put(s, b, rel);
      ReplacePut(dev, slots, c, k, s', b, rel, gap);
      PlacedReplace(slots, next, k, s');
      TrackedReplace(slots, lists.Linked(), k, s');
      slots := slots[k := s'];
    }

    /** A new node for `b` at `start`, at the cursor of its device. If that is where the file ends and its nodes are
        full, the file grows by `b`. */
    method Add(start: nat, place: Place, b: seq<Byte>, ghost c: seq<Byte>)
      requires Kempt(Now()) && 0 < |b| <= N
      modifies this`slots, this`next, lists
      ensures Kempt(Now()) && slots == old(slots) + [Stray(start, place, old(next)(place), b)]
      ensures Places(slots) == Places(old(slots)) + [place]
      ensures forall p :: next(p) == old(next)(p) + if p == place then N else 0
      ensures old(Sane(Now(), c)) && |c| == start == |old(slots)| * N ==> Sane(Now(), Pwrite(c, b, |c|))
    {
      hide Part, Pwrite, Stored, Placed, Tracked;
      var s := Stray(start, place, next(place), b);
      if Sane(Now(), c) && |c| == start == |slots| * N {
        assert s.buf.value[..|b|] == b;
        AddSlot(dev, slots, c, s, b);
      }
      PlacedAdd(slots, next, s);
      TrackedAdd(slots, lists.Linked(), s);
      lists.AddCold(|slots|);
      next := Advance(next, place);
      slots := slots + [s];
    }

    /** A worker writes back and drops the buffer of the first entry of queue `q`. */
    method EvictFirst(q: nat, beyond: nat -> Byte, ghost c: seq<Byte>)
      requires Kempt(Now()) && q < |lists.queues| && lists.queues[q] != []
      modifies this`dev, this`slots, lists
      ensures Kempt(Now()) && Evicted(old(Now()), q, beyond, Now()) && StayClean(old(slots), slots)
      ensures old(Sane(Now(), c)) ==> Sane(Now(), c)
    {
      hide Part, Pwrite, Stored, Placed, Tracked, Flushed;
      ghost var linked := lists.Linked();
      var k := lists.Pop(q);
      TrackedIn(slots, linked, k);
      var s := slots[k];
      PlacedReplace(slots, next, k, Dropped(s));
      if old(Sane(Now(), c)) {
        WriteBackOrNot(dev, slots, next, c, k, beyond);
      }
      if s.dirty {
        dev := Back(dev, s, beyond);
      }
      slots := slots[k := Dropped(s)];
    }

    /** A sync that saw slot `k` dirty writes its buffer to the device; if the buffer has been dropped since,
        the write fails. */
    method SyncSlot(k: nat, beyond: nat -> Byte, ghost c: seq<Byte>)
      requires Kempt(Now()) && k < |slots|
      modifies this`dev, this`slots
      ensures Kempt(Now()) && Synced(old(Now()), k, beyond, Now()) && StayClean(old(slots), slots)
      ensures old(Sane(Now(), c)) ==> Sane(Now(), c)
    {
      hide Part, Pwrite, Stored, Placed, Tracked, Flushed;
      var s := slots[k];
      PlacedReplace(slots, next, k, s.(dirty := false));
      TrackedReplace(slots, lists.Linked(), k, s.(dirty := false));
      if Sane(Now(), c) {
        SlotKeeps(dev, slots, c, k);
        if s.present {
          WriteBack(dev, slots, next, c, k, beyond);
        } else {
          assert s == s.(dirty := false);
          assert slots[k := s] == slots;
        }
      }
      dev := Back(dev, s, beyond);
      slots := slots[k := s.(dirty := false)];
    }

    /** Cold entries are dispatched to the queues. */
    method MoveCold(total: nat, low: nat, ghost high: nat, ghost c: seq<Byte>)
      requires Kempt(Now()) && N <= low <= high < total
      modifies lists
      ensures Kempt(Now()) && Moved(old(Now()), total, low, Now()) && (old(Sane(Now(), c)) ==> Sane(Now(), c))
    {
      hide Stored, Placed, Tracked, Dealt, Live, Dead, Sum, All;
      var left;
      ghost var seen, moved;
      left, seen, moved := lists.Dispatch({}, WholeNode, total, low, high);
      NoneDead(old(lists.cold)[..seen]);
      assert lists.Linked() == old(lists.Linked());
    }

    /** One action in the background, if there is anything to do. */
    method Perform(act: Act, ghost c: seq<Byte>)
      requires Kempt(Now())
      modifies this`dev, this`slots, lists
      ensures Kempt(Now()) && Done(old(Now()), act, Now()) && (old(Sane(Now(), c)) ==> Sane(Now(), c))
      ensures |slots| == |old(slots)| && StayClean(old(slots), slots) && Places(slots) == Places(old(slots))
    {
      hide Sane, Kempt, Moved;
      match act
      case Evict(q, beyond) =>
        if q < |lists.queues| && lists.queues[q] != [] {
          EvictFirst(q, beyond, c);
        }
      case Sync(k, beyond) =>
        if k < |slots| {
          SyncSlot(k, beyond, c);
        }
      case Move(total, low, high) =>
        if N <= low <= high < total {
          MoveCold(total, low, high, c);
        }
      DoneShape(old(Now()), act, Now());
    }

    /** Background work does what the actions say and changes nothing that a reader could see. */
    method Background(acts: seq<Act>, ghost c: seq<Byte>) returns (ghost trace: seq<View>)
      requires Kempt(Now())
      modifies this`dev, this`slots, lists
      ensures Trace(trace, acts, c) && trace[0] == old(Now()) && trace[|acts|] == Now()
      ensures Kempt(Now()) && (old(Sane(Now(), c)) ==> Sane(Now(), c))
      ensures |slots| == |old(slots)| && StayClean(old(slots), slots) && Places(slots) == Places(old(slots))
    {
      hide Sane, Done, Kempt;
      trace := [Now()];
      for i := 0 to |acts|
        invariant |slots| == |old(slots)| && StayClean(old(slots), slots) && Places(slots) == Places(old(slots))
        invariant Trace(trace, acts[..i], c) && trace[0] == old(Now()) && trace[i] == Now()
      {
        ghost var before := trace;
        Perform(acts[i], c);
        trace := trace + [Now()];
        TraceNext(before, acts, i, c, Now());
      }
      assert acts[..|acts|] == acts;
    }

    /** How many bytes of slot `k` are in use. */
    method InUse(k: nat, ghost c: seq<Byte>) returns (size: nat)
      requires Sane(Now(), c) && k < |slots|
      ensures size == Min(N, |c| - k * N)
    {
      SlotKeeps(dev, slots, c, k);
      size := slots[k].size;
    }

    /** Takes bytes from slot `k`, from `b` on, for a read that still wants `left`. */
    method Fetch(k: nat, b: nat, left: nat, garbage: seq<Byte>, beyond: nat -> Byte, ghost c: seq<Byte>)
      returns (r: seq<Byte>)
      requires Sane(Now(), c) && k < |slots| && |garbage| == N && b < Min(N, |c| - k * N)
      modifies this`slots, lists
      ensures Sane(Now(), c) && |slots| == |old(slots)|
      ensures |r| == Chunk(Min(N, |c| - k * N), b, left) && Pread(c, Min(|r|, N - b), k * N + b) <= r
    {
      hide Sane, Pread;
      var size := InUse(k, c);
      var n := Chunk(size, b, left);
      r := Get(k, b, Min(n, N - b), garbage, c);
      if b + n > N {
        r := r + seq(b + n - N, j requires 0 <= j => beyond(j));
      }
    }

    /** Something may happen in the background, then bytes are taken from slot `k` unless `b` is past its end. */
    method Visit(k: nat, b: nat, left: nat, garbage: seq<Byte>, beyond: nat -> Byte, acts: seq<Act>, ghost at: nat,
                 ghost c: seq<Byte>)
      returns (past: bool, r: seq<Byte>)
      requires Sane(Now(), c) && k < |slots| && |garbage| == N && at == k * N
      modifies this`dev, this`slots, lists
      ensures Sane(Now(), c) && |slots| == |old(slots)| && at <= |c| && (past <==> b >= Min(N, |c| - at))
      ensures !past ==> |r| == Chunk(Min(N, |c| - at), b, left) && Pread(c, Min(|r|, N - b), at + b) <= r
    {
      hide Sane, Kempt, Trace, Pread, Chunk;
      SaneKempt(Now(), c);
      ghost var _ := Background(acts, c);
      var size := InUse(k, c);
      if b >= size {
        return true, [];
      }
      past := false;
      r := Fetch(k, b, left, garbage, beyond, c);
    }

    /** Reads up to `count` bytes at `start`. Before it comes to node `k`, the actions `env[k]` happen in the
        background; `garbage[k]` is what the memory of a new buffer for it held, and `beyond` what follows a buffer
        in memory. */
    method ReadAt(start0: nat, count: nat, garbage: seq<seq<Byte>>, beyond: nat -> Byte, env: seq<seq<Act>>,
                  ghost c: seq<Byte>)
      returns (buf: seq<Byte>)
      requires Sane(Now(), c) && |env| == |slots| && Blocks(garbage, |slots|)
      modifies this`dev, this`slots, lists
      ensures Sane(Now(), c) && Got(c, start0, count, buf)
    {
      hide Sane, Pread, Progress, Got, Chunk, NodesFor;
      SlotCount(Now(), c);
      ReadBegins(c, start0, count);
      buf := [];
      if count == 0 {
        return;
      }
      var start: nat, end: nat := start0, start0 + count - 1;
      var k: nat := start / N;
      var at: nat := k * N;
      while k < |slots| && at <= end
        invariant Sane(Now(), c) && |slots| == |garbage| == NodesFor(|c|)
        invariant at == k * N && Progress(c, start0, count, k, start, buf)
        decreases |slots| - k
      {
        Underway(c, start0, count, k, start, buf, at);
        var b: nat, left: nat := start - at, end - start + 1;
        var past, r := Visit(k, b, left, garbage[k], beyond, env[k], at, c);
        if past {
          ReadPast(c, start0, count, k, start, buf);
          return;
        }
        ReadOn(c, start0, count, k, start, buf, r, b, left, at);
        buf := buf + r;
        start := if at + N - 1 < end then at + N else end + 1;
        k, at := k + 1, at + N;
      }
      ReadEnds(c, start0, count, k, start, buf);
    }

    method Read(count: nat, offset: int, garbage: seq<seq<Byte>>, beyond: nat -> Byte, env: seq<seq<Act>>,
                ghost c: seq<Byte>)
      returns (buf: seq<Byte>)
      requires Sane(Now(), c) && |env| == |slots| && Blocks(garbage, |slots|)
      modifies this`dev, this`slots, this`off, lists
      ensures Sane(Now(), c) && Got(c, if offset < 0 then old(off) else offset, count, buf)
      ensures off == if offset < 0 then old(off) + |buf| else old(off)
    {
      hide Sane;
      buf := ReadAt(if offset < 0 then off else offset, count, garbage, beyond, env, c);
      if offset < 0 {
        off := off + |buf|;
      }
    }

    /** Something may happen in the background, then `b` is written at `rel` of slot `k`. */
    method Store(k: nat, rel: nat, b: seq<Byte>, garbage: seq<Byte>, acts: seq<Act>, ghost pos: nat, ghost c: seq<Byte>)
      returns (ghost gap: seq<Byte>)
      requires Sane(Now(), c) && k < |slots| && |garbage| == N && pos == k * N + rel
      requires b != [] && rel + |b| <= N
      modifies this`dev, this`slots, lists
      ensures Sane(Now(), Pwrite(c + gap, b, pos)) && Places(slots) == Places(old(slots))
      ensures |gap| == Max(0, pos - |c|) && GapAfter(old(Now()), acts, c, k, garbage, rel, gap)
    {
      hide Sane, Kempt, Pwrite, GapOf, Trace;
      SaneKempt(Now(), c);
      ghost var trace := Background(acts, c);
      gap := Set(k, rel, b, garbage, c);
      assert GapFrom(trace, old(Now()), acts, c, k, garbage, rel, gap);
    }

    /** The part of a write that falls in existing nodes, if any. `gap` is what then stands between the end and the
        write. */
    method Overwrite(start0: nat, buf: seq<Byte>, garbage: seq<seq<Byte>>, env: seq<seq<Act>>, ghost c: seq<Byte>)
      returns (copied: nat, ghost gap: seq<Byte>)
      requires Sane(Now(), c) && buf != []
      requires |env| == |slots| && Blocks(garbage, |slots|)
      modifies this`dev, this`slots, lists
      ensures |slots| == |old(slots)| && copied <= |buf| && Places(slots) == Places(old(slots))
      ensures Near(|c|, start0) ==> copied == Min(|buf|, |slots| * N - start0)
      ensures Near(|c|, start0) ==> |gap| == Max(0, start0 - |c|) && Sane(Now(), Pwrite(c + gap, buf[..copied], start0))
      ensures !Near(|c|, start0) ==> copied == 0 && gap == [] && Now() == old(Now())
      ensures LeavesGap(|c|, start0) ==> start0 / N < |slots|
      ensures LeavesGap(|c|, start0) ==>
        GapAfter(old(Now()), env[start0 / N], c, start0 / N, garbage[start0 / N], start0 % N, gap)
    {
      hide Sane, Pwrite, NodesFor, Writing, GapOf, Near, GapAfter;
      SlotCount(Now(), c);
      WhereToWrite(|c|, start0);
      if Near(|c|, start0) {
        WriteBegins(|slots|, start0, |buf|);
      }
      PieceNone(c, buf, start0);
      copied, gap := 0, [];
      var k: nat := start0 / N;
      var at: nat := k * N;
      while k < |slots| && copied < |buf|
        invariant |slots| == |garbage| == |old(slots)| && copied <= |buf| && Places(slots) == Places(old(slots))
        invariant Near(|c|, start0) ==> Writing(|slots|, start0, |buf|, k, at, copied)
        invariant !Near(|c|, start0) ==> k >= |slots| && copied == 0
        invariant Sane(Now(), Pwrite(c + gap, buf[..copied], start0))
        invariant copied == 0 ==> gap == [] && k == start0 / N && Now() == old(Now())
        invariant copied > 0 ==> |gap| == Max(0, start0 - |c|)
        invariant copied > 0 ==> start0 / N < |slots|
        invariant copied > 0 ==>
          GapAfter(old(Now()), env[start0 / N], c, start0 / N, garbage[start0 / N], start0 % N, gap)
        decreases |slots| - k
      {
        WriteGoes(|slots|, start0, |buf|, k, at, copied);
        var start: nat := start0 + copied;
        var n: nat, rel: nat := Min(at + N - start, |buf| - copied), start - at;
        ghost var now := Pwrite(c + gap, buf[..copied], start0);
        ghost var more := Store(k, rel, buf[copied..copied + n], garbage[k], env[k], start, now);
        NextPiece(c, gap, more, buf, start0, copied, n);
        gap := gap + more;
        copied := copied + n;
        k, at := k + 1, at + N;
      }
      if Near(|c|, start0) {
        WriteEnds(|slots|, start0, |buf|, k, at, copied);
      }
    }

    /** A new node after some background actions, which lead to state `mid`. */
    method AddAfter(start: nat, place: Place, b: seq<Byte>, acts: seq<Act>, ghost c: seq<Byte>)
      returns (ghost mid: View)
      requires Kempt(Now()) && 0 < |b| <= N
      modifies this`dev, this`slots, this`next, lists
      ensures Kempt(Now()) && SameShape(old(slots), mid.slots) && (old(Sane(Now(), c)) ==> Sane(mid, c))
      ensures slots == mid.slots + [Stray(start, place, mid.next(place), b)] && dev == mid.dev
      ensures |slots| == |old(slots)| + 1 && Places(slots) == Places(old(slots)) + [place]
      ensures old(Sane(Now(), c)) && |c| == start == |old(slots)| * N ==> Sane(Now(), Pwrite(c, b, |c|))
      ensures acts == [] ==> mid == old(Now())
    {
      hide Sane, Kempt, Pwrite, Stray, Done;
      ghost var trace := Background(acts, c);
      mid := Now();
      TraceShape(trace, acts, c, |acts|);
      Add(start, place, b, c);
    }

    /** The part of a write beyond the last node: new nodes, each filled from its beginning, while more than one
        byte is left, with background actions before each. */
    method Grow(start0: nat, rest: seq<Byte>, place: seq<Place>, env: seq<seq<Act>>, ghost c: seq<Byte>)
      returns (copied: nat)
      requires Sane(Now(), c) && rest != [] && |env| == |place| == NodesFor(|rest|)
      modifies this`dev, this`slots, this`next, lists
      ensures copied == |rest| - if Lone(|rest|) then 1 else 0
      ensures |c| == start0 == |old(slots)| * N ==> Sane(Now(), Pwrite(c, rest[..copied], |c|))
      ensures Kempt(Now()) && NewOn(old(slots), slots, place)
      ensures Strayed(old(Now()), Now(), c, start0, rest, place)
      ensures Quiet(env) ==> AllStrays(old(Now()), Now(), start0, rest, NodesFor(copied))
    {
      hide Sane, Kempt, Pwrite, NodesFor, Stray, Straying, Strayed, AllStrays, SameShape, NewOn, Places;
      copied := 0;
      NewOnNone(slots, slots, place);
      GrowBegins(Now(), c, start0, rest, place);
      ghost var inLine, mid := |c| == start0 == |slots| * N, Now();
      var start: nat, end: nat, j := start0, start0 + |rest| - 1, 0;
      while start < end
        invariant start == start0 + copied && copied == Min(j * N, |rest|) && (j > 0 ==> (j - 1) * N + 2 <= |rest|)
        invariant |slots| == |old(slots)| + j && Kempt(Now()) && NewOn(old(slots), slots, place)
        invariant inLine ==> Sane(Now(), Pwrite(c, rest[..copied], |c|))
        invariant j == 0 ==> Now() == old(Now())
        invariant Straying(old(Now()), mid, Now(), c, start0, rest, place, j)
        invariant Quiet(env) ==> AllStrays(old(Now()), Now(), start0, rest, j)
        decreases end - start
      {
        var n := if end - start + 1 > N then N else end - start + 1;
        ghost var before, c1 := Now(), Pwrite(c, rest[..copied], |c|);
        NodesEnough(|rest|);
        ghost var mid1 := AddAfter(start, place[j], rest[copied..copied + n], env[j], c1);
        GrowsOn(old(Now()), mid, before, mid1, Now(), c, start0, rest, place, j, n, env[j] == []);
        if j == 0 {
          mid := mid1;
        }
        NewOnNext(old(slots), before.slots, slots, place);
        PwritePiece(c, rest, |c|, copied, n);
        copied := copied + n;
        start := start + n;
        j := j + 1;
      }
      Leftover(|rest|, j);
      StrayingEnds(old(Now()), mid, Now(), c, start0, rest, place, j);
    }

    /** Writes `buf`. If it begins inside the last node but after the end, `gap` is what then stands in between. The
        write does what it would do to a plain file exactly when it is Right. */
    method Write(buf: seq<Byte>, offset: int, garbage: seq<seq<Byte>>, place: seq<Place>, env: seq<seq<Act>>,
                 env': seq<seq<Act>>, ghost c: seq<Byte>) returns (copied: nat, ghost gap: seq<Byte>)
      requires Sane(Now(), c) && size >= |c|
      requires |env| == |slots| && Blocks(garbage, |slots|)
      requires var start := if offset < 0 then off else offset;
        |env'| == |place| == NodesFor(Min(|buf|, Max(0, start + |buf| - |slots| * N)))
      modifies this, lists
      ensures size == if buf == [] then old(size) else Max(old(size), (if offset < 0 then old(off) else offset) + |buf|)
      ensures off == if offset < 0 then old(off) + copied else old(off)
      ensures Kempt(Now()) && NewOn(old(slots), slots, place)
      ensures var start := if offset < 0 then old(off) else offset;
        && Wrote(old(Now()), Now(), c, start, buf, copied, gap, place)
        && (buf != [] && LeavesGap(|c|, start) ==> start / N < |old(slots)|)
        && (buf != [] && LeavesGap(|c|, start) ==>
              GapAfter(old(Now()), env[start / N], c, start / N, garbage[start / N], start % N, gap))
        && (buf != [] && (Near(|c|, start) || Quiet(env')) ==>
              (ReadsUpTo(Now(), Pwrite(c, buf, start)) <==> ReadsRight(c, start, buf, gap)))
    {
      hide Sane, Pwrite, NodesFor, Taken, Blocks, Wrote, GapAfter, LeavesGap, Near, ReadsUpTo, ReadsRight, Quiet;
      var start: nat := if offset < 0 then off else offset;
      copied, gap := 0, [];
      if buf == [] {
        WroteNothing(Now(), c, start, place);
        NewOnNone(slots, slots, place);
        SaneKempt(Now(), c);
        return;
      }
      copied, gap := WriteAll(start, buf, garbage, place, env, env', c);
      size := Max(size, start + |buf|);
      if offset < 0 {
        off := off + copied;
      }
    }

    /** Both parts of a write. */
    method WriteAll(start: nat, buf: seq<Byte>, garbage: seq<seq<Byte>>, place: seq<Place>, env: seq<seq<Act>>,
                    env': seq<seq<Act>>, ghost c: seq<Byte>) returns (copied: nat, ghost gap: seq<Byte>)
      requires Sane(Now(), c) && buf != []
      requires |env| == |slots| && Blocks(garbage, |slots|)
      requires |env'| == |place| == NodesFor(Min(|buf|, Max(0, start + |buf| - |slots| * N)))
      modifies this`dev, this`slots, this`next, lists
      ensures Wrote(old(Now()), Now(), c, start, buf, copied, gap, place)
      ensures Kempt(Now()) && NewOn(old(slots), slots, place)
      ensures LeavesGap(|c|, start) ==> start / N < |old(slots)|
      ensures LeavesGap(|c|, start) ==>
        GapAfter(old(Now()), env[start / N], c, start / N, garbage[start / N], start % N, gap)
      ensures Near(|c|, start) || Quiet(env') ==>
        (ReadsUpTo(Now(), Pwrite(c, buf, start)) <==> ReadsRight(c, start, buf, gap))
    {
      hide Sane, Pwrite, NodesFor, Kept, Lone, Blocks, GapAfter, Right, Strayed, Quiet, AllStrays, ReadsUpTo, ReadsBack,
           NewOn, Kempt;
      SlotCount(Now(), c);
      WhereToWrite(|c|, start);
      PieceNone(c, buf, start);
      assert buf[0..] == buf;
      SaneKempt(Now(), c);
      copied, gap := Overwrite(start, buf, garbage, env, c);
      ghost var mid := slots;
      NewOnNone(old(slots), slots, place);
      if Near(|c|, start) {
        SaneKempt(Now(), Pwrite(c + gap, buf[..copied], start));
        KeptOutcome(|c|, start, |buf|, copied);
      }
      if copied < |buf| {
        if Near(|c|, start) {
          NearTail(c, gap, start, buf, copied);
        }
        copied := Tail(start, buf, copied, place, env', c + gap);
        NewOnAfter(old(slots), mid, slots, place);
      }
      if Near(|c|, start) {
        NearRight(Now(), c, start, buf, gap, copied);
        NearReads(Now(), c, start, buf, gap, copied);
      } else {
        FarTaken(|c|, start, |buf|);
        FarRight(old(Now()), Now(), c, start, buf, place);
        FarWrote(c, start, buf, gap);
        if Quiet(env') {
          FarReads(old(Now()), Now(), c, start, buf);
        }
      }
    }

    /** What is left of a write after `done` bytes. */
    method Tail(start: nat, buf: seq<Byte>, done: nat, place: seq<Place>, env: seq<seq<Act>>, ghost c: seq<Byte>)
      returns (copied: nat)
      requires done < |buf| && Sane(Now(), Pwrite(c, buf[..done], start))
      requires |env| == |place| == NodesFor(|buf| - done)
      modifies this`dev, this`slots, this`next, lists
      ensures copied == |buf| - (if Lone(|buf| - done) then 1 else 0)
      ensures |Pwrite(c, buf[..done], start)| == start + done == |old(slots)| * N ==>
        Sane(Now(), Pwrite(c, buf[..copied], start))
      ensures Kempt(Now()) && NewOn(old(slots), slots, place)
      ensures Strayed(old(Now()), Now(), Pwrite(c, buf[..done], start), start + done, buf[done..], place)
      ensures Quiet(env) ==> AllStrays(old(Now()), Now(), start + done, buf[done..], NodesFor(copied - done))
    {
      hide Sane, Pwrite, NodesFor, Lone, Quiet, Strayed, AllStrays;
      var rest := buf[done..];
      assert |rest| == |buf| - done;
      var more := Grow(start + done, rest, place, env, Pwrite(c, buf[..done], start));
      assert rest[..more] == buf[done..done + more];
      PwritePiece(c, buf, start, done, more);
      copied := done + more;
    }

    /** A read of the one byte at `p`, in any state with whole buffers and windows. */
    method ReadByte(p: nat, garbage: seq<Byte>) returns (r: seq<Byte>)
      requires |garbage| == N && Kempt(Now()) && forall k :: 0 <= k < |slots| ==> Readable(dev, slots[k])
      modifies this`slots, lists
      ensures r == match ByteAt(old(Now()), p) case None => [] case Some(x) => [x]
    {
      hide Kempt;
      var k := FindSlot(slots, p);
      if k == |slots| || p - slots[k].start >= slots[k].size {
        return [];
      }
      var s := slots[k];
      assert Readable(dev, s);
      var s' := Admit(dev.At(s.place), s, garbage);
      slots := slots[k := s'];
      if !s.present {
        assert s'.buf.value[..s.size] == Pread(dev.At(s.place), s.size, s.offset);
        lists.cold := lists.cold + [k];
      }
      r := [s'.buf.value[p - s.start]];
    }

    /** Writes every slot seen dirty back to its device, while anything may happen in the background. */
    method Fsync(env: seq<seq<Act>>, beyond: nat -> Byte, ghost c: seq<Byte>)
      requires Sane(Now(), c) && |env| == |slots|
      modifies this`dev, this`slots, lists
      ensures Sane(Now(), c) && Rebuild(dev, slots) == c
    {
      hide Sane, Rebuild;
      for k := 0 to |env|
        invariant Sane(Now(), c) && |slots| == |env| && AllClean(slots, k)
      {
        if slots[k].dirty {
          SaneKempt(Now(), c);
          ghost var _ := Background(env[k], c);
          SyncSlot(k, beyond, c);
        }
      }
      RebuildSane(Now(), c);
    }

    /** Writes back and drops all buffers. */
    method Free(beyond: nat -> Byte, ghost c: seq<Byte>)
      requires Sane(Now(), c)
      modifies this`dev, this`slots, lists
      ensures Sane(Now(), c) && Rebuild(dev, slots) == c && lists.Linked() == multiset{}
      ensures forall k :: 0 <= k < |slots| ==> slots[k].buf.None?
    {
      hide Sane, Rebuild;
      for k := 0 to |slots|
        invariant Sane(Now(), c) && |slots| == |old(slots)| && AllGone(slots, k)
      {
        FreeSlot(k, beyond, c);
      }
      RebuildSane(Now(), c);
      NoneLinked(Now(), c);
    }

    method FreeSlot(k: nat, beyond: nat -> Byte, ghost c: seq<Byte>)
      requires Sane(Now(), c) && k < |slots|
      modifies this`dev, this`slots, lists
      ensures Sane(Now(), c) && |slots| == |old(slots)|
      ensures slots == old(slots)[k := slots[k]] && slots[k].buf.None? && !slots[k].dirty
    {
      hide Part, Pwrite, Stored, Placed, Tracked;
      var s := slots[k];
      SlotKeeps(dev, slots, c, k);
      if s.present {
        WriteBackOrNot(dev, slots, next, c, k, beyond);
        TrackedDrop(slots, lists.Linked(), k);
      } else {
        assert s == Dropped(s);
        assert slots[k := s] == slots;
      }
      if s.dirty {
        dev := Back(dev, s, beyond);
      }
      slots := slots[k := Dropped(s)];
      if s.buf.Some? {
        lists.Unlink(k);
      }
    }

    /** A new node at the end of a file that fills its nodes. */
    method Extend(place: Place, b: seq<Byte>, ghost c: seq<Byte>)
      requires Sane(Now(), c) && |c| == |slots| * N && 0 < |b| <= N
      modifies this`slots, this`next, lists
      ensures Sane(Now(), Pwrite(c, b, |c|)) && Places(slots) == Places(old(slots)) + [place]
    {
      hide Stored, Placed, Tracked, Pwrite;
      Add(|slots| * N, place, b, c);
    }

    /** One step of some thread, at the grain of the locks on entries. */
    method Step(step: Step, ghost c: seq<Byte>) returns (out: seq<Byte>)
      requires Sane(Now(), c) && Enabled(c, step)
      modifies this`dev, this`slots, this`next, lists
      ensures Sane(Now(), After(c, step)) && out == Output(c, step)
      ensures step.ActStep? ==> Done(old(Now()), step.act, Now())
      ensures Places(slots) == Places(old(slots)) + Adds(step)
    {
      hide Sane, Pwrite, Pread, Done;
      SlotCount(Now(), c);
      out := [];
      match step
      case GetStep(k, rel, count, garbage) =>
        out := Get(k, rel, count, garbage, c);
        ReadInside(c, count, k * N + rel);
      case SetStep(k, rel, b, garbage) =>
        ghost var gap := Set(k, rel, b, garbage, c);
        assert c + gap == c;
      case AddStep(place, b) =>
        Extend(place, b, c);
      case ActStep(act) =>
        SaneKempt(Now(), c);
        Perform(act, c);
    }

    /** Whatever the interleaving of the steps of readers, writers, workers and syncs, every state stands for the
        plain file after the same writes, and every read returns bytes of that file. */
    method Run(steps: seq<Step>, ghost c: seq<Byte>) returns (outs: seq<seq<Byte>>, ghost trace: seq<View>)
      requires Sane(Now(), c) && forall i :: 0 <= i < |steps| ==> EnabledAt(c, steps, i)
      modifies this`dev, this`slots, this`next, lists
      ensures Ran(trace, c, steps, outs, |steps|) && trace[0] == old(Now()) && trace[|steps|] == Now()
      ensures Sane(Now(), AfterAll(c, steps))
    {
      hide Sane, Enabled, After, Output, Done, Ran;
      outs, trace := [], [Now()];
      RanNone(Now(), c, steps);
      assert steps[..|steps|] == steps;
      for n := 0 to |steps|
        invariant Sane(Now(), AfterAll(c, steps[..n]))
        invariant Ran(trace, c, steps, outs, n) && |trace| == n + 1 && trace[0] == old(Now()) && trace[n] == Now()
      {
        ghost var before, outs0 := trace, outs;
        assert EnabledAt(c, steps, n);
        var out := Step(steps[n], AfterAll(c, steps[..n]));
        outs, trace := outs + [out], trace + [Now()];
        RanNext(before, c, steps, outs0, n, Now(), out);
      }
    }
  }

  // ----------------------------------------------------------- devices alone

  ghost predicate AllClean(slots: seq<Slot>, n: nat) {
    n <= |slots| && forall k :: 0 <= k < n ==> !slots[k].dirty
  }

  ghost predicate AllGone(slots: seq<Slot>, n: nat) {
    AllClean(slots, n) && forall k :: 0 <= k < n ==> slots[k].buf.None?
  }

  /** The file as read from the devices, slot by slot. */
  ghost function Rebuild(dev: Devices, slots: seq<Slot>): seq<Byte> {
    if slots == [] then [] else
      var s := slots[|slots| - 1];
      Rebuild(dev, slots[..|slots| - 1]) + Pread(dev.At(s.place), s.size, s.offset)
  }

  /** When no slot is dirty, the devices alone hold the whole file. */
  lemma RebuildSane(v: View, c: seq<Byte>)
    requires Sane(v, c) && AllClean(v.slots, |v.slots|)
    ensures Rebuild(v.dev, v.slots) == c
  {
    assert v.slots[..|v.slots|] == v.slots;
    NodesEnough(|c|);
    RebuildFirst(v, c, |v.slots|);
  }

  lemma {:induction false} RebuildFirst(v: View, c: seq<Byte>, n: nat)
    requires Sane(v, c) && AllClean(v.slots, |v.slots|) && n <= |v.slots|
    ensures Rebuild(v.dev, v.slots[..n]) == c[..Min(n * N, |c|)]
  {
    hide Sane, Part, Keeps, Pread;
    if n > 0 {
      RebuildFirst(v, c, n - 1);
      SaneSlot(v, c, n - 1);
      assert v.slots[..n][..n - 1] == v.slots[..n - 1];
      RebuildPart(v.dev, v.slots[n - 1], c, n - 1);
    }
  }

  lemma RebuildPart(dev: Devices, s: Slot, c: seq<Byte>, k: nat)
    requires k * N < |c| && Keeps(dev.At(s.place), s, Part(c, k)) && !s.dirty
    ensures c[..k * N] + Pread(dev.At(s.place), s.size, s.offset) == c[..Min((k + 1) * N, |c|)]
  {
    assert Pread(dev.At(s.place), s.size, s.offset) == Part(c, k);
  }

  lemma NoneLinked(v: View, c: seq<Byte>)
    requires Sane(v, c) && AllGone(v.slots, |v.slots|)
    ensures Linked(v) == multiset{}
  {
    forall k | k in Linked(v) ensures false {
      if k < |v.slots| {
        SlotKeeps(v.dev, v.slots, c, k);
      }
    }
  }

  /** How many bytes are taken from a node with `size` bytes in use, from `b` on, when `left` are wanted. */
  function Chunk(size: nat, b: nat, left: nat): int {
    if size < N then (if left < size then left else size - b) else Min(N - b, left)
  }

  /** A read has come to node `k`. */
  ghost predicate Reading(c: seq<Byte>, start0: nat, count: nat, k: nat, start: nat, buf: seq<Byte>) {
    && k < NodesFor(|c|) && k * N <= start < start0 + count && start < (k + 1) * N
    && (start == start0 || (start0 < start == k * N))
    && start0 <= start && buf == Pread(c, start - start0, start0)
  }

  /** A read has come to node `k`, or is over. */
  ghost predicate Progress(c: seq<Byte>, start0: nat, count: nat, k: nat, start: nat, buf: seq<Byte>) {
    if k < NodesFor(|c|) && k * N < start0 + count
    then Reading(c, start0, count, k, start, buf) else Got(c, start0, count, buf)
  }

  lemma ReadBegins(c: seq<Byte>, start: nat, count: nat)
    ensures count == 0 ==> Got(c, start, count, [])
    ensures count > 0 ==> Progress(c, start, count, start / N, start, [])
  {
  }

  lemma Underway(c: seq<Byte>, start0: nat, count: nat, k: nat, start: nat, buf: seq<Byte>, at: nat)
    requires Progress(c, start0, count, k, start, buf) && k < NodesFor(|c|) && at == k * N < start0 + count
    ensures at <= start < start0 + count && start < at + N
  {
  }

  lemma ReadEnds(c: seq<Byte>, start0: nat, count: nat, k: nat, start: nat, buf: seq<Byte>)
    requires Progress(c, start0, count, k, start, buf) && !(k < NodesFor(|c|) && k * N < start0 + count)
    ensures Got(c, start0, count, buf)
  {
  }

  /** Beginning at or after the end. */
  lemma ReadPast(c: seq<Byte>, start0: nat, count: nat, k: nat, start: nat, buf: seq<Byte>)
    requires Progress(c, start0, count, k, start, buf) && |c| <= start && k < NodesFor(|c|) && k * N < start0 + count
    ensures Got(c, start0, count, buf)
  {
  }

  /** The bytes taken from node `k` are the right ones, except that a read that begins in the last node may get too
      many. */
  lemma ReadOn(c: seq<Byte>, start0: nat, count: nat, k: nat, start: nat, buf: seq<Byte>, r: seq<Byte>,
               b: nat, left: nat, at: nat)
    requires Progress(c, start0, count, k, start, buf) && k < NodesFor(|c|) && at == k * N < start0 + count
    requires start == at + b && start0 + count == start + left && at <= |c| && b < Min(N, |c| - at)
    requires |r| == Chunk(Min(N, |c| - at), b, left) && Pread(c, Min(|r|, N - b), at + b) <= r
    ensures Progress(c, start0, count, k + 1, Min(at + N, start0 + count), buf + r)
  {
    NodesEnough(|c|);
    hide NodesFor, Pread, Chunk;
    if k + 1 < NodesFor(|c|) {
      assert (k + 1) * N <= (NodesFor(|c|) - 1) * N < |c|;
      ReadMid(c, start0, count, start, buf, r, b, left, at);
      if at + N >= start0 + count {
        NoOverRead(|c|, start0, count, at + N);
      }
    } else {
      ReadLast(c, start0, count, start, buf, r, b, left);
    }
  }

  /** A node that is full gives exactly what it should. */
  lemma ReadMid(c: seq<Byte>, start0: nat, count: nat, start: nat, buf: seq<Byte>, r: seq<Byte>, b: nat, left: nat,
                at: nat)
    requires at + N <= |c| && start0 <= start == at + b && b < N && start0 + count == start + left
    requires buf == Pread(c, start - start0, start0)
    requires |r| == Chunk(N, b, left) && Pread(c, Min(|r|, N - b), at + b) <= r
    ensures buf + r == Pread(c, Min(at + N, start0 + count) - start0, start0)
  {
    PreadSplit(c, start - start0, |r|, start0);
  }

  lemma NoOverRead(size: nat, start: nat, count: nat, end: nat)
    requires start + count <= end <= size
    ensures !OverReads(size, start, count)
  {
  }

  lemma ReadLast(c: seq<Byte>, start0: nat, count: nat, start: nat, buf: seq<Byte>, r: seq<Byte>, b: nat, left: nat)
    requires c != []
    requires var last := (NodesFor(|c|) - 1) * N;
      && Reading(c, start0, count, NodesFor(|c|) - 1, start, buf) && start == last + b && start0 + count == start + left
      && b < Min(N, |c| - last)
      && |r| == Chunk(|c| - last, b, left) && Pread(c, Min(|r|, N - b), start) <= r
    ensures Got(c, start0, count, buf + r)
  {
  }
}
