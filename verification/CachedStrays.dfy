/** Writes to a cached file that begin beyond its last node: the nodes they make, and what is then read. */
module CachedStrays {
  import opened Common
  import opened SplitFile
  import opened CachedSlots
  import opened CachedView

  // -------------------------------------------------------------- what is made

  /** Of `n` bytes, one is left after filling whole nodes. */
  predicate Lone(n: nat) {
    n % N == 1
  }

  /** A write of zeros, at least two, into the node after a full last one, but not at its beginning. */
  predicate ZerosAfter(c: seq<Byte>, start: nat, buf: seq<Byte>) {
    && |c| == NodesFor(|c|) * N && |c| < start && start + |buf| <= |c| + N
    && |buf| >= 2 && Zeros(buf)
  }

  /** The node made for `b` at `start`: its bytes are at the beginning, wherever in the node the write begins. */
  function Stray(start: nat, place: Place, offset: nat, b: seq<Byte>): Slot
    requires |b| <= N
  {
    Slot(start - start % N, place, offset, start % N + |b|, Some(b + ZeroTo([], N)[|b|..]), true, true, true)
  }

  /** The first new slot of a write, made in state `v1`. */
  function FirstStray(v1: View, start: nat, buf: seq<Byte>, place: seq<Place>): Slot
    requires place != []
  {
    Stray(start, place[0], v1.next(place[0]), buf[..Min(|buf|, N)])
  }

  /** The write began in `v`, the first new slot was made in `v1`, and `v'` has at least one new slot. */
  ghost predicate StrayedFrom(v: View, v1: View, v': View, c: seq<Byte>, start: nat, buf: seq<Byte>,
                              place: seq<Place>) {
    && |v'.slots| > |v.slots| && Kempt(v') && place != []
    && Sane(v1, c) && SameShape(v.slots, v1.slots) && SameShape(v.slots, v'.slots[..|v.slots|])
    && v'.slots[|v.slots|].start == FirstStray(v1, start, buf, place).start
    && v'.slots[|v.slots|].size == FirstStray(v1, start, buf, place).size
    && (|v'.slots| == |v.slots| + 1 ==>
          v'.slots == v1.slots + [FirstStray(v1, start, buf, place)] && v'.dev == v1.dev)
  }

  /** After a write that begins beyond the last node of the file `c`, with anything happening in the background: no
      new slot for fewer than two bytes, one for up to a node, and the first as said. */
  ghost predicate Strayed(v: View, v': View, c: seq<Byte>, start: nat, buf: seq<Byte>, place: seq<Place>) {
    if |buf| < 2 then v' == v else
      && (|buf| <= N ==> |v'.slots| == |v.slots| + 1)
      && exists v1 :: StrayedFrom(v, v1, v', c, start, buf, place)
  }

  /** The same with `j` new slots so far. */
  ghost predicate Straying(v: View, v1: View, v': View, c: seq<Byte>, start: nat, buf: seq<Byte>, place: seq<Place>,
                           j: nat) {
    |v'.slots| == |v.slots| + j && if j == 0 then v' == v else StrayedFrom(v, v1, v', c, start, buf, place)
  }

  lemma StrayingFirst(v: View, v1: View, v': View, c: seq<Byte>, start: nat, buf: seq<Byte>, place: seq<Place>)
    requires place != [] && Sane(v1, c) && SameShape(v.slots, v1.slots)
    requires v'.slots == v1.slots + [FirstStray(v1, start, buf, place)] && v'.dev == v1.dev && Kempt(v')
    ensures Straying(v, v1, v', c, start, buf, place, 1)
  {
    hide Sane, Kempt, Stray;
    assert v'.slots[..|v.slots|] == v1.slots;
  }

  lemma StrayingNext(v: View, v1: View, w: View, w1: View, v': View, c: seq<Byte>, start: nat, buf: seq<Byte>,
                     place: seq<Place>, j: nat)
    requires Straying(v, v1, w, c, start, buf, place, j) && j > 0 && SameShape(w.slots, w1.slots) && Kempt(v')
    requires |v'.slots| == |w1.slots| + 1 && v'.slots[..|w1.slots|] == w1.slots
    ensures Straying(v, v1, v', c, start, buf, place, j + 1)
  {
    hide Sane, Kempt, Stray;
    var n := |v.slots|;
    assert v'.slots[..n] == v'.slots[..|w1.slots|][..n] == w1.slots[..n];
    assert v'.slots[n] == v'.slots[..|w1.slots|][n] == w1.slots[n];
    assert forall k :: 0 <= k < n ==> w.slots[..n][k] == w.slots[k] && w1.slots[..n][k] == w1.slots[k];
    PlacesPrefix(w.slots, n);
    PlacesPrefix(w1.slots, n);
  }

  lemma StrayingEnds(v: View, v1: View, v': View, c: seq<Byte>, start: nat, buf: seq<Byte>, place: seq<Place>, j: nat)
    requires Straying(v, v1, v', c, start, buf, place, j) && (|buf| < 2 ==> j == 0) && (|buf| >= 2 ==> j > 0)
    requires 2 <= |buf| <= N ==> j == 1
    ensures Strayed(v, v', c, start, buf, place)
  {
    hide StrayedFrom;
  }

  // ------------------------------------------------------------ when it is right

  lemma StrayRight(v: View, v': View, c: seq<Byte>, start: nat, buf: seq<Byte>, place: seq<Place>)
    requires Sane(v, c) && Strayed(v, v', c, start, buf, place) && ZerosAfter(c, start, buf)
    ensures Sane(v', Pwrite(c, buf, start))
  {
    hide Part, Pwrite, Stored, Kempt, NodesFor;
    var v1 :| StrayedFrom(v, v1, v', c, start, buf, place);
    SlotCount(v1, c);
    var n, r := |v1.slots|, start - |c|;
    Inside(start, n, r);
    var s := FirstStray(v1, start, buf, place);
    var b := ZeroTo([], r + |buf|);
    assert buf[..Min(|buf|, N)] == buf;
    assert s.buf.value[..|b|] == b;
    AddSlot(v1.dev, v1.slots, c, s, b);
    ZerosWritten(c, start, buf, b);
  }

  lemma Inside(start: nat, n: nat, r: nat)
    requires start == n * N + r && r < N
    ensures start % N == r && start - start % N == n * N
  {
  }

  lemma ZerosWritten(c: seq<Byte>, start: nat, buf: seq<Byte>, b: seq<Byte>)
    requires |c| <= start && |c| + |b| == start + |buf| && buf != [] && Zeros(buf) && Zeros(b)
    ensures Pwrite(c, b, |c|) == Pwrite(c, buf, start)
  {
    hide Pwrite;
    var x, y := Pwrite(c, b, |c|), Pwrite(c, buf, start);
    forall i | 0 <= i < |x| ensures i < |y| && x[i] == y[i] {
      PwriteAt(c, b, |c|, i);
      PwriteAt(c, buf, start, i);
    }
  }

  /** A file whose last node is not full has not got another after it. */
  lemma StrayFull(v: View, v': View, c: seq<Byte>, start: nat, buf: seq<Byte>, place: seq<Place>)
    requires Sane(v, c) && Strayed(v, v', c, start, buf, place) && Sane(v', Pwrite(c, buf, start))
    requires buf != [] && |c| < start && NodesFor(|c|) * N <= start
    ensures |buf| >= 2 && |c| == NodesFor(|c|) * N && start < |c| + N
    ensures start - start % N == |c|
  {
    hide Part, Pwrite, Sane, NodesFor, Kempt;
    var c', n := Pwrite(c, buf, start), NodesFor(|c|);
    SlotCount(v, c);
    SlotCount(v', c');
    NodesEnough(|c|);
    NodesEnough(|c'|);
    assert NodesFor(|c'|) > n;
    var v1 :| StrayedFrom(v, v1, v', c, start, buf, place);
    SaneSlot(v', c', n);
    if n > 0 {
      SaneSlot(v, c, n - 1);
      SaneSlot(v', c', n - 1);
      assert v'.slots[n - 1] == v'.slots[..n][n - 1];
    }
  }

  lemma StrayZeros(v: View, v': View, c: seq<Byte>, start: nat, buf: seq<Byte>, place: seq<Place>)
    requires Sane(v, c) && Strayed(v, v', c, start, buf, place) && Sane(v', Pwrite(c, buf, start))
    requires buf != [] && |c| < start && NodesFor(|c|) * N <= start
    ensures ZerosAfter(c, start, buf)
  {
    hide Part, Pwrite, Sane, NodesFor, Kempt;
    StrayFull(v, v', c, start, buf, place);
    var c', n, r := Pwrite(c, buf, start), NodesFor(|c|), start - |c|;
    SlotCount(v, c);
    SlotCount(v', c');
    SaneSlot(v', c', n);
    assert r == start % N;
    var v1 :| StrayedFrom(v, v1, v', c, start, buf, place);
    assert r + Min(|buf|, N) == Min(N, r + |buf|);
    assert buf[..|buf|] == buf;
    forall i | 0 <= i < |buf| ensures Shifted(buf, r, i) {
      StrayByte(v'.slots[n], c, start, buf, n, i);
    }
    Repeats(buf, r);
  }

  lemma StrayByte(s: Slot, c: seq<Byte>, start: nat, buf: seq<Byte>, n: nat, i: nat)
    requires |c| == n * N < start && start + |buf| <= |c| + N && i < |buf| && s.buf.Some?
    requires s.buf.value == buf + ZeroTo([], N)[|buf|..] && s.size == start - |c| + |buf|
    requires s.buf.value[..s.size] == Part(Pwrite(c, buf, start), n)
    ensures Shifted(buf, start - |c|, i)
  {
    hide Pwrite;
    PwriteAt(c, buf, start, |c| + i);
    assert s.buf.value[..s.size][i] == buf[i];
    assert Part(Pwrite(c, buf, start), n)[i] == Pwrite(c, buf, start)[|c| + i];
  }

  /** Byte `i` is what stands `r` bytes before, or zero. */
  predicate Shifted(buf: seq<Byte>, r: nat, i: nat) {
    i < |buf| && buf[i] == if i < r then 0 else buf[i - r]
  }

  /** What equals itself moved up, with zeros moved in, is all zeros. */
  lemma Repeats(buf: seq<Byte>, r: nat)
    requires r > 0 && forall i :: 0 <= i < |buf| ==> Shifted(buf, r, i)
    ensures Zeros(buf)
  {
    forall i | 0 <= i < |buf| ensures buf[i] == 0 {
      RepeatsAt(buf, r, i);
    }
  }

  lemma {:induction false} RepeatsAt(buf: seq<Byte>, r: nat, i: nat)
    requires r > 0 && (forall i :: 0 <= i < |buf| ==> Shifted(buf, r, i)) && i < |buf|
    ensures buf[i] == 0
    decreases i
  {
    assert Shifted(buf, r, i);
    if i >= r {
      RepeatsAt(buf, r, i - r);
    }
  }

  /** A write that begins beyond the last node, or right after it when it is not full. */
  lemma FarRight(v: View, v': View, c: seq<Byte>, start: nat, buf: seq<Byte>, place: seq<Place>)
    requires Sane(v, c) && Strayed(v, v', c, start, buf, place)
    requires buf != [] && |c| < start && NodesFor(|c|) * N <= start
    ensures Sane(v', Pwrite(c, buf, start)) <==> ZerosAfter(c, start, buf)
  {
    hide Sane, Strayed, Pwrite, ZerosAfter, NodesFor;
    if ZerosAfter(c, start, buf) {
      StrayRight(v, v', c, start, buf, place);
    }
    if Sane(v', Pwrite(c, buf, start)) {
      StrayZeros(v, v', c, start, buf, place);
    }
  }
}
