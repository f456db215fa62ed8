/** When a write to a cached file does what it would do to a plain file. */
module CachedWrites {
  import opened Common
  import opened SplitFile
  import opened CachedSlots
  import opened CachedView
  import opened CachedStrays
  import opened CachedReadBack

  // ------------------------------------------------------------ which are right

  /** A write that does not begin after the last node is kept entirely, unless it ends one byte into a new node. */
  predicate Kept(size: nat, start: nat, count: nat) {
    start + count <= NodesFor(size) * N || !Lone(start + count)
  }

  /** All of a write is taken: beyond the last node, new nodes are filled from wherever it begins. */
  predicate Taken(size: nat, start: nat, count: nat) {
    if start <= NodesFor(size) * N then Kept(size, start, count) else !Lone(count)
  }

  /** The write begins inside the last node, after the bytes in use. */
  predicate LeavesGap(size: nat, start: nat) {
    size < start < NodesFor(size) * N
  }

  /** The write begins within or right after the contents, or inside the last node. */
  predicate Near(size: nat, start: nat) {
    start <= size || LeavesGap(size, start)
  }

  /** The writes that do what they would do to a plain file. `gap` is what a write inside the last node exposes. */
  predicate Right(c: seq<Byte>, start: nat, buf: seq<Byte>, gap: seq<Byte>) {
    || buf == []
    || if start <= |c| then Kept(|c|, start, |buf|)
       else if LeavesGap(|c|, start) then Kept(|c|, start, |buf|) && Zeros(gap)
       else ZerosAfter(c, start, buf)
  }

  // -------------------------------------------------------- up to the last node

  lemma KeptSize(size: nat, start: nat, count: nat)
    requires !Kept(size, start, count)
    ensures size < start + count
  {
  }

  /** The contents reached tell whether the write was right. */
  lemma NearRight(v: View, c: seq<Byte>, start: nat, buf: seq<Byte>, gap: seq<Byte>, copied: nat)
    requires buf != [] && Near(|c|, start) && |gap| == Max(0, start - |c|)
    requires copied == |buf| - if Kept(|c|, start, |buf|) then 0 else 1
    requires Sane(v, Pwrite(c + gap, buf[..copied], start))
    ensures Sane(v, Pwrite(c, buf, start)) <==> Right(c, start, buf, gap)
  {
    hide Sane, Pwrite, Kept, LeavesGap;
    var x, y := Pwrite(c + gap, buf[..copied], start), Pwrite(c, buf, start);
    if copied < |buf| {
      KeptSize(|c|, start, |buf|);
      assert |x| < |y|;
    } else {
      assert buf[..copied] == buf;
      GapShows(c, gap, buf, start);
    }
    if Sane(v, y) {
      SaneUnique(v, x, y);
    }
  }

  /** And so do reads: they return what they would from a plain file exactly after a right write. */
  lemma NearReads(v: View, c: seq<Byte>, start: nat, buf: seq<Byte>, gap: seq<Byte>, copied: nat)
    requires buf != [] && Near(|c|, start) && |gap| == Max(0, start - |c|)
    requires copied == |buf| - if Kept(|c|, start, |buf|) then 0 else 1
    requires Sane(v, Pwrite(c + gap, buf[..copied], start))
    ensures ReadsUpTo(v, Pwrite(c, buf, start)) <==> Right(c, start, buf, gap)
  {
    hide Sane, Pwrite, Kept, LeavesGap, ByteAt, Right;
    var x, y := Pwrite(c + gap, buf[..copied], start), Pwrite(c, buf, start);
    NearRight(v, c, start, buf, gap, copied);
    SaneReads(v, x);
    if Sane(v, y) {
      SaneReads(v, y);
    }
    if ReadsUpTo(v, y) {
      KeptLength(c, gap, buf, start, copied);
      SameReads(v, x, y);
    }
  }

  lemma SameReads(v: View, x: seq<Byte>, y: seq<Byte>)
    requires ReadsAs(v, x) && ReadsUpTo(v, y) && |x| <= |y|
    ensures x == y
  {
    hide ByteAt;
    var past := ByteAt(v, |x|);
    assert |x| == |y|;
    forall p | 0 <= p < |x| ensures x[p] == y[p] {
      assert ByteAt(v, p) == Some(x[p]) && ByteAt(v, p) == Some(y[p]);
    }
  }

  lemma KeptLength(c: seq<Byte>, gap: seq<Byte>, buf: seq<Byte>, start: nat, copied: nat)
    requires buf != [] && |gap| == Max(0, start - |c|) && copied <= |buf|
    ensures |Pwrite(c + gap, buf[..copied], start)| <= |Pwrite(c, buf, start)|
  {
  }

  lemma GapShows(c: seq<Byte>, gap: seq<Byte>, buf: seq<Byte>, start: nat)
    requires buf != [] && |gap| == Max(0, start - |c|)
    ensures Pwrite(c + gap, buf, start) == Pwrite(c, buf, start) <==> Zeros(gap)
  {
    hide Pwrite;
    var x, y := Pwrite(c + gap, buf, start), Pwrite(c, buf, start);
    forall i | 0 <= i < |x|
      ensures i < |y| && (x[i] == y[i] <==> !(|c| <= i < start) || gap[i - |c|] == 0)
    {
      PwriteAt(c + gap, buf, start, i);
      PwriteAt(c, buf, start, i);
    }
    if Zeros(gap) {
      assert x == y;
    } else {
      var j :| 0 <= j < |gap| && gap[j] != 0;
      assert x[|c| + j] != y[|c| + j];
    }
  }

  /** What a write at `rel` of slot `k` exposes after `acts` in the background. */
  ghost predicate GapAfter(v: View, acts: seq<Act>, c: seq<Byte>, k: nat, garbage: seq<Byte>, rel: nat,
                           gap: seq<Byte>) {
    exists trace :: GapFrom(trace, v, acts, c, k, garbage, rel, gap)
  }

  ghost predicate GapFrom(trace: seq<View>, v: View, acts: seq<Act>, c: seq<Byte>, k: nat, garbage: seq<Byte>, rel: nat,
                          gap: seq<Byte>) {
    && Trace(trace, acts, c) && trace[0] == v
    && k < |trace[|acts|].slots| && gap == GapOf(trace[|acts|].slots[k], garbage, rel)
  }

  /** Without any, what the slot holds. */
  lemma GapAtOnce(v: View, c: seq<Byte>, k: nat, garbage: seq<Byte>, rel: nat, gap: seq<Byte>)
    requires GapAfter(v, [], c, k, garbage, rel, gap)
    ensures k < |v.slots| && gap == GapOf(v.slots[k], garbage, rel)
  {
  }

  /** A pristine slot exposes zeros, whatever memory holds. */
  lemma PristineGap(v: View, c: seq<Byte>, k: nat, garbage: seq<Byte>, rel: nat)
    requires Sane(v, c) && k < |v.slots| && |garbage| == N && rel <= N && v.slots[k].pristine
    ensures Zeros(GapOf(v.slots[k], garbage, rel))
  {
    hide Sane, Part;
    SaneSlot(v, c, k);
    AdmitGap(v.dev.At(v.slots[k].place), v.slots[k], Part(c, k), garbage, rel);
  }

  /** A slot that has once lost its buffer may expose something else: some contents of memory, with which the cache
      stands for the same file, make any write wrong that leaves a gap in it. */
  lemma StaleGap(v: View, c: seq<Byte>, k: nat, rel: nat) returns (v': View, garbage: seq<Byte>)
    requires Sane(v, c) && k < |v.slots| && !v.slots[k].pristine && v.slots[k].size < rel <= N
    ensures Sane(v', c) && |garbage| == N && v' == v.(slots := v.slots[k := v.slots[k].(buf := v'.slots[k].buf)])
    ensures !Zeros(GapOf(v'.slots[k], garbage, rel))
  {
    hide Placed, Tracked, Part;
    var s := v.slots[k];
    garbage := seq(N, i => 1);
    SaneSlot(v, c, k);
    var s' := if s.present then s.(buf := Some(s.buf.value[..s.size] + garbage[s.size..])) else s;
    assert s.present ==> s'.buf.value[..s.size] == s.buf.value[..s.size];
    Replace(v.dev, v.slots, c, k, s');
    PlacedReplace(v.slots, v.next, k, s');
    TrackedReplace(v.slots, Linked(v), k, s');
    v' := v.(slots := v.slots[k := s']);
    assert s.present ==> s'.buf.value[s.size] == garbage[s.size];
    assert GapOf(s', garbage, rel)[0] == 1;
  }

  // ------------------------------------------------------- beyond the last node

  lemma FarTaken(size: nat, start: nat, count: nat)
    requires size < start && NodesFor(size) * N <= start
    ensures (Taken(size, start, count) <==> !Lone(count)) && !Near(size, start)
  {
  }

  lemma FarWrote(c: seq<Byte>, start: nat, buf: seq<Byte>, gap: seq<Byte>)
    requires buf != [] && !Near(|c|, start)
    ensures Right(c, start, buf, gap) <==> ZerosAfter(c, start, buf)
    ensures ReadsRight(c, start, buf, gap) <==> ReadsBack(c, start, buf)
  {
  }

  // ------------------------------------------------------------------- growing

  /** The slots are on the devices they were on, and the new ones on those in `place`, in order. */
  ghost predicate NewOn(slots: seq<Slot>, slots': seq<Slot>, place: seq<Place>) {
    && |slots| <= |slots'| <= |slots| + |place|
    && Places(slots') == Places(slots) + place[..|slots'| - |slots|]
  }

  lemma NewOnNone(slots: seq<Slot>, slots': seq<Slot>, place: seq<Place>)
    requires Places(slots') == Places(slots)
    ensures NewOn(slots, slots', place)
  {
  }

  lemma NewOnNext(slots: seq<Slot>, before: seq<Slot>, after: seq<Slot>, place: seq<Place>)
    requires NewOn(slots, before, place) && |before| - |slots| < |place|
    requires Places(after) == Places(before) + [place[|before| - |slots|]]
    ensures NewOn(slots, after, place)
  {
    assert |after| == |Places(after)| == |before| + 1;
    var j := |before| - |slots|;
    assert place[..j + 1] == place[..j] + [place[j]];
  }

  lemma NewOnAfter(slots: seq<Slot>, before: seq<Slot>, after: seq<Slot>, place: seq<Place>)
    requires NewOn(before, after, place) && Places(before) == Places(slots)
    ensures NewOn(slots, after, place)
  {
    assert |Places(before)| == |before| && |Places(slots)| == |slots|;
  }

  lemma GrowBegins(v: View, c: seq<Byte>, start: nat, buf: seq<Byte>, place: seq<Place>)
    requires Sane(v, c)
    ensures Kempt(v) && Pwrite(c, buf[..0], |c|) == c
    ensures Straying(v, v, v, c, start, buf, place, 0) && AllStrays(v, v, start, buf, 0)
  {
    hide Placed, Tracked, Stored;
  }

  /** One more node: `w` became `w1` in the background, and the node was made. */
  lemma GrowsOn(v: View, v1: View, w: View, w1: View, v': View, c: seq<Byte>, start: nat, buf: seq<Byte>,
                place: seq<Place>, j: nat, n: nat, still: bool)
    requires Straying(v, v1, w, c, start, buf, place, j) && SameShape(w.slots, w1.slots) && Kempt(v')
    requires j * N < |buf| && n == Min(N, |buf| - j * N) && j < |place|
    requires v'.slots == w1.slots + [Stray(start + j * N, place[j], w1.next(place[j]), buf[j * N..j * N + n])]
    requires v'.dev == w1.dev && (j == 0 ==> Sane(w1, c)) && (still ==> w1 == w)
    ensures Straying(v, if j == 0 then w1 else v1, v', c, start, buf, place, j + 1)
    ensures still && AllStrays(v, w, start, buf, j) ==> AllStrays(v, v', start, buf, j + 1)
  {
    hide Sane, Kempt, Stray, AllStrays, StrayedFrom;
    var s := Stray(start + j * N, place[j], w1.next(place[j]), buf[j * N..j * N + n]);
    if j == 0 {
      assert buf[0..n] == buf[..n];
      StrayingFirst(v, w1, v', c, start, buf, place);
    } else {
      assert v'.slots[..|w1.slots|] == w1.slots;
      StrayingNext(v, v1, w, w1, v', c, start, buf, place, j);
    }
    if still && AllStrays(v, w, start, buf, j) {
      StrayMade(start, buf, j, place[j], w1.next(place[j]), n);
      StraysNext(v, w, v', start, buf, j, s);
    }
  }

  // ----------------------------------------------------------------- the whole

  /** The writes after which every byte is read as from a plain file. */
  predicate ReadsRight(c: seq<Byte>, start: nat, buf: seq<Byte>, gap: seq<Byte>) {
    if Near(|c|, start) then Right(c, start, buf, gap) else ReadsBack(c, start, buf)
  }

  /** A write takes the cache from `v`, which stood for `c`, to `v'`. */
  ghost predicate Wrote(v: View, v': View, c: seq<Byte>, start: nat, buf: seq<Byte>, copied: nat, gap: seq<Byte>,
                        place: seq<Place>) {
    && copied == |buf| - (if buf == [] || Taken(|c|, start, |buf|) then 0 else 1)
    && (buf == [] ==> v' == v)
    && (buf != [] && Near(|c|, start) ==>
          |gap| == Max(0, start - |c|) && Sane(v', Pwrite(c + gap, buf[..copied], start)))
    && (buf != [] && !Near(|c|, start) ==> Strayed(v, v', c, start, buf, place))
    && (Sane(v', Pwrite(c, buf, start)) <==> Right(c, start, buf, gap))
  }

  lemma WroteNothing(v: View, c: seq<Byte>, start: nat, place: seq<Place>)
    requires Sane(v, c)
    ensures Wrote(v, v, c, start, [], 0, [], place)
  {
    hide Sane;
    WriteNone(c, [], start);
  }

  // ----------------------------------------------------------------- progress

  lemma WhereToWrite(size: nat, start: nat)
    ensures size <= NodesFor(size) * N
    ensures LeavesGap(size, start) ==> start / N == NodesFor(size) - 1
    ensures Near(size, start) ==> start <= NodesFor(size) * N && (start == NodesFor(size) * N ==> start == size)
    ensures !Near(size, start) ==> size < start && NodesFor(size) * N <= start && start / N >= NodesFor(size)
  {
  }

  /** What is left of a write that came to the end of the last node begins there. */
  lemma NearTail(c: seq<Byte>, gap: seq<Byte>, start: nat, buf: seq<Byte>, copied: nat)
    requires Near(|c|, start) && |gap| == Max(0, start - |c|) && copied == NodesFor(|c|) * N - start < |buf|
    ensures |Pwrite(c + gap, buf[..copied], start)| == start + copied == NodesFor(|c|) * N
  {
    hide Pwrite;
    WhereToWrite(|c|, start);
  }

  lemma PieceNone(c: seq<Byte>, buf: seq<Byte>, start: nat)
    ensures Pwrite(c + [], buf[..0], start) == c
  {
  }

  /** The next piece of a write; only the first one can leave a gap. */
  lemma NextPiece(c: seq<Byte>, gap: seq<Byte>, more: seq<Byte>, buf: seq<Byte>, start: nat, copied: nat, n: nat)
    requires copied + n <= |buf| && (copied == 0 ==> gap == [])
    requires copied > 0 ==> |gap| == Max(0, start - |c|)
    requires |more| == Max(0, start + copied - |Pwrite(c + gap, buf[..copied], start)|)
    ensures |gap + more| == Max(0, start - |c|) && gap + more == if copied > 0 then gap else more
    ensures Pwrite(Pwrite(c + gap, buf[..copied], start) + more, buf[copied..copied + n], start + copied)
            == Pwrite(c + (gap + more), buf[..copied + n], start)
  {
    hide Pwrite;
    var x := Pwrite(c + gap, buf[..copied], start);
    if copied == 0 {
      PieceNone(c, buf, start);
      assert c + more == c + (gap + more);
      assert buf[0..n] == buf[..n];
    } else {
      assert x + more == x && gap + more == gap;
      PwritePiece(c + gap, buf, start, copied, n);
    }
  }

  /** A write of `len` bytes at `start0` to `m` nodes has placed `copied` bytes and comes to node `k`, which begins
      at `at`. */
  ghost predicate Writing(m: nat, start0: nat, len: nat, k: nat, at: nat, copied: nat) {
    && at == k * N && copied <= len && start0 + copied <= m * N
    && (k < m && copied < len ==> at <= start0 + copied < at + N)
    && (k >= m ==> copied == len || start0 + copied == m * N)
  }

  lemma WriteBegins(m: nat, start0: nat, len: nat)
    requires start0 <= m * N
    ensures Writing(m, start0, len, start0 / N, start0 / N * N, 0)
  {
  }

  lemma WriteGoes(m: nat, start0: nat, len: nat, k: nat, at: nat, copied: nat)
    requires Writing(m, start0, len, k, at, copied) && k < m && copied < len
    ensures at == k * N <= start0 + copied < at + N
    ensures Writing(m, start0, len, k + 1, at + N, copied + Min(at + N - (start0 + copied), len - copied))
  {
  }

  lemma WriteEnds(m: nat, start0: nat, len: nat, k: nat, at: nat, copied: nat)
    requires Writing(m, start0, len, k, at, copied) && (k >= m || copied >= len)
    ensures copied == Min(len, m * N - start0)
  {
  }

  lemma KeptOutcome(size: nat, start: nat, count: nat, done: nat)
    requires start <= NodesFor(size) * N && count > 0 && done == Min(count, NodesFor(size) * N - start)
    ensures done == count ==> Kept(size, start, count)
    ensures done < count ==> (Kept(size, start, count) <==> !Lone(count - done))
  {
  }
}
