/** What reads of single bytes return, in any state of a cached file, and so which writes read back as written. */
module CachedReadBack {
  import opened Common
  import opened SplitFile
  import opened CachedSlots
  import opened CachedView
  import opened CachedStrays

  // ----------------------------------------------------------- reading one byte

  predicate Covers(s: Slot, p: nat) {
    s.start <= p < s.start + N
  }

  /** The first slot whose node has position `p`, or the number of slots if none has. */
  function FindSlot(slots: seq<Slot>, p: nat): (k: nat)
    ensures k <= |slots| && (k < |slots| ==> Covers(slots[k], p))
    ensures forall j :: 0 <= j < k ==> !Covers(slots[j], p)
  {
    if slots == [] then 0
    else if Covers(slots[0], p) then 0
    else
      var k := FindSlot(slots[1..], p);
      assert forall j :: 0 < j < k + 1 ==> slots[j] == slots[1..][j - 1];
      k + 1
  }

  /** Byte `b` of a slot: in its buffer if it has one, and otherwise on the device. */
  function SlotByte(d: seq<Byte>, s: Slot, b: nat): Option<Byte> {
    if b >= s.size then None
    else if s.buf.Some? then (if b < |s.buf.value| then Some(s.buf.value[b]) else None)
    else if s.offset + b < |d| then Some(d[s.offset + b]) else None
  }

  /** The buffer, if there is one, is whole, and otherwise all bytes in use are on the device. */
  predicate Readable(dev: Devices, s: Slot) {
    && (s.buf.Some? <==> s.present) && (s.buf.Some? ==> |s.buf.value| == N)
    && (s.buf.None? ==> s.size <= N && s.offset + s.size <= |dev.At(s.place)|)
  }

  /** What a read of the one byte at `p` returns, if anything. */
  function ByteAt(v: View, p: nat): Option<Byte> {
    var k := FindSlot(v.slots, p);
    if k == |v.slots| then None
    else SlotByte(v.dev.At(v.slots[k].place), v.slots[k], p - v.slots[k].start)
  }

  /** Read byte by byte, the cache returns `c`, and nothing after its end. */
  ghost predicate ReadsAs(v: View, c: seq<Byte>) {
    forall p: nat :: ByteAt(v, p) == if p < |c| then Some(c[p]) else None
  }

  ghost predicate Ascending(slots: seq<Slot>) {
    forall i, j :: 0 <= i < j < |slots| ==> slots[i].start + N <= slots[j].start
  }

  lemma FindIs(slots: seq<Slot>, p: nat, k: nat)
    requires Ascending(slots) && k < |slots| && Covers(slots[k], p)
    ensures FindSlot(slots, p) == k
  {
  }

  // ------------------------------------------------------------ files in order

  lemma KeptByte(d: seq<Byte>, s: Slot, part: seq<Byte>, b: nat)
    requires Keeps(d, s, part)
    ensures SlotByte(d, s, b) == if b < |part| then Some(part[b]) else None
  {
    if b < |part| {
      if s.present {
        assert s.buf.value[..s.size][b] == part[b];
      } else {
        assert d[s.offset..s.offset + s.size][b] == part[b];
      }
    }
  }

  lemma PartByte(c: seq<Byte>, k: nat, p: nat)
    requires k * N <= p < k * N + N && k * N <= |c|
    ensures p - k * N < |Part(c, k)| <==> p < |c|
    ensures p < |c| ==> Part(c, k)[p - k * N] == c[p]
  {
  }

  lemma SaneAscends(v: View, c: seq<Byte>)
    requires Sane(v, c)
    ensures Ascending(v.slots)
  {
    hide Keeps, Kempt;
  }

  /** A cache that stands for a file reads as that file. */
  lemma SaneReads(v: View, c: seq<Byte>)
    requires Sane(v, c)
    ensures ReadsAs(v, c)
  {
    hide Sane, NodesFor, SlotByte;
    forall p: nat ensures ByteAt(v, p) == if p < |c| then Some(c[p]) else None {
      SaneByte(v, c, p);
    }
  }

  lemma SaneByte(v: View, c: seq<Byte>, p: nat)
    requires Sane(v, c)
    ensures ByteAt(v, p) == if p < |c| then Some(c[p]) else None
  {
    hide Sane, NodesFor, SlotByte, Keeps, Part;
    SlotCount(v, c);
    NodesEnough(|c|);
    var k := FindSlot(v.slots, p);
    if p < |c| {
      NodeOf(|c|, p);
      SaneSlot(v, c, p / N);
      assert Covers(v.slots[p / N], p);
    }
    if k < |v.slots| {
      SaneSlot(v, c, k);
      KeptByte(v.dev.At(v.slots[k].place), v.slots[k], Part(c, k), p - k * N);
      PartByte(c, k, p);
    }
  }

  lemma SaneReadable(v: View, c: seq<Byte>, k: nat)
    requires Sane(v, c) && k < |v.slots|
    ensures Readable(v.dev, v.slots[k])
  {
    hide Sane, Part;
    SaneSlot(v, c, k);
  }

  // ---------------------------------------------------- beyond the last node

  /** Slot `s` is the new slot number `i` of a write, as it was made. */
  ghost predicate StrayAt(s: Slot, start: nat, buf: seq<Byte>, i: nat) {
    && i * N < |buf|
    && var n := Min(N, |buf| - i * N);
       && s.start == start - start % N + i * N && s.size == start % N + n
       && s.present && s.buf == Some(buf[i * N..i * N + n] + ZeroTo([], N)[n..])
  }

  /** `v'` is `v` with `j` new slots. */
  ghost predicate AllStrays(v: View, v': View, start: nat, buf: seq<Byte>, j: nat) {
    && |v'.slots| == |v.slots| + j && v'.slots[..|v.slots|] == v.slots && v'.dev == v.dev
    && forall k :: |v.slots| <= k < |v'.slots| ==> StrayAt(v'.slots[k], start, buf, k - |v.slots|)
  }

  lemma StraysNext(v: View, w: View, v': View, start: nat, buf: seq<Byte>, j: nat, s: Slot)
    requires AllStrays(v, w, start, buf, j) && v'.slots == w.slots + [s] && v'.dev == w.dev && StrayAt(s, start, buf, j)
    ensures AllStrays(v, v', start, buf, j + 1)
  {
    hide StrayAt;
    assert v'.slots[..|v.slots|] == w.slots[..|v.slots|];
    assert forall k :: 0 <= k < |w.slots| ==> v'.slots[k] == w.slots[k];
  }

  lemma StrayMade(start: nat, buf: seq<Byte>, j: nat, place: Place, offset: nat, n: nat)
    requires j * N < |buf| && n == Min(N, |buf| - j * N)
    ensures StrayAt(Stray(start + j * N, place, offset, buf[j * N..j * N + n]), start, buf, j)
  {
    assert (start + j * N) % N == start % N;
  }

  /** The writes beyond the last node that read back as written: zeros only, from inside the node after a full last
      one, that the new nodes have room for. */
  predicate ReadsBack(c: seq<Byte>, start: nat, buf: seq<Byte>) {
    && |c| == NodesFor(|c|) * N && |c| < start < |c| + N && Zeros(buf)
    && !Lone(|buf|) && start - |c| + |buf| <= NodesFor(|buf|) * N
  }

  lemma StraysAscend(v: View, v': View, c: seq<Byte>, start: nat, buf: seq<Byte>, j: nat)
    requires Sane(v, c) && AllStrays(v, v', start, buf, j) && NodesFor(|c|) * N <= start
    ensures Ascending(v'.slots)
    ensures forall k :: 0 <= k < |v.slots| ==> v'.slots[k] == v.slots[k]
    ensures forall k :: |v.slots| <= k < |v'.slots| ==> v'.slots[k].start == start - start % N + (k - |v.slots|) * N
    ensures |v'.slots| == |v.slots| + j
    ensures start - start % N >= |v.slots| * N
  {
    hide Sane, NodesFor;
    SlotCount(v, c);
    FloorAt(start, |v.slots|);
    var m := |v.slots|;
    forall k | 0 <= k < m ensures v'.slots[k] == v.slots[k] && v'.slots[k].start == k * N {
      SaneSlot(v, c, k);
      assert v'.slots[..m][k] == v'.slots[k];
    }
    forall k | m <= k < |v'.slots| ensures v'.slots[k].start == start - start % N + (k - m) * N {
      assert StrayAt(v'.slots[k], start, buf, k - m);
    }
    forall a, b | 0 <= a < b < |v'.slots| ensures v'.slots[a].start + N <= v'.slots[b].start {
      StartsApart(v'.slots[a].start, v'.slots[b].start, a, b, m, start - start % N);
    }
  }

  lemma FloorAt(start: nat, m: nat)
    requires m * N <= start
    ensures m * N <= start - start % N
  {
    assert start == start / N * N + start % N;
  }

  lemma StartsApart(x: int, y: int, a: nat, b: nat, m: nat, floor: nat)
    requires a < b && m * N <= floor
    requires x == (if a < m then a * N else floor + (a - m) * N) && y == (if b < m then b * N else floor + (b - m) * N)
    ensures x + N <= y
  {
  }

  lemma StraysReadable(v: View, v': View, c: seq<Byte>, start: nat, buf: seq<Byte>, j: nat, k: nat)
    requires Sane(v, c) && AllStrays(v, v', start, buf, j) && k < |v'.slots|
    ensures Readable(v'.dev, v'.slots[k])
  {
    hide Sane;
    if k < |v.slots| {
      SaneReadable(v, c, k);
      assert v'.slots[..|v.slots|][k] == v'.slots[k];
    }
  }

  /** Where no node is, nothing is read. */
  lemma NoNode(v: View, p: nat)
    requires forall k :: 0 <= k < |v.slots| ==> !Covers(v.slots[k], p)
    ensures ByteAt(v, p) == None
  {
    hide SlotByte;
  }

  /** Byte `x` after the end of the last node, when the new nodes begin there. */
  lemma StrayByteAt(v: View, v': View, c: seq<Byte>, start: nat, buf: seq<Byte>, j: nat, x: nat)
    requires Sane(v, c) && AllStrays(v, v', start, buf, j)
    requires |c| == NodesFor(|c|) * N && |c| < start < |c| + N
    ensures x >= j * N ==> ByteAt(v', |c| + x) == None
    ensures x < j * N && x < start - |c| + |buf| ==> ByteAt(v', |c| + x) == Some(if x < |buf| then buf[x] else 0)
  {
    hide Sane, NodesFor, StrayAt, SlotByte;
    StraysAscend(v, v', c, start, buf, j);
    SlotCount(v, c);
    var m, p := |v.slots|, |c| + x;
    InNode(start, m);
    if x < j * N {
      var i := x / N;
      RowOf(x, j);
      assert StrayAt(v'.slots[m + i], start, buf, i);
      FindIs(v'.slots, p, m + i);
      if x < start - |c| + |buf| {
        StrayContents(v'.dev.At(v'.slots[m + i].place), v'.slots[m + i], start, buf, i, x, start - |c|);
      }
    } else {
      forall k | 0 <= k < |v'.slots| ensures !Covers(v'.slots[k], p) {
        if k < m {
          SaneSlot(v, c, k);
          assert (k + 1) * N <= m * N;
        } else {
          assert (k - m + 1) * N <= j * N;
        }
      }
      NoNode(v', p);
    }
  }

  lemma InNode(start: nat, m: nat)
    requires m * N <= start < m * N + N
    ensures start - start % N == m * N && start % N == start - m * N
  {
  }

  lemma RowOf(x: nat, j: nat)
    requires x < j * N
    ensures x / N < j && x / N * N <= x < x / N * N + N && x % N == x - x / N * N
  {
  }

  lemma StrayContents(d: seq<Byte>, s: Slot, start: nat, buf: seq<Byte>, i: nat, x: nat, r: nat)
    requires StrayAt(s, start, buf, i) && i * N <= x < i * N + N && x < r + |buf| && r == start % N
    ensures SlotByte(d, s, x - i * N) == Some(if x < |buf| then buf[x] else 0)
  {
  }

  /** Exactly these read back as written. */
  lemma FarReads(v: View, v': View, c: seq<Byte>, start: nat, buf: seq<Byte>)
    requires Sane(v, c) && buf != [] && |c| < start && NodesFor(|c|) * N <= start
    requires AllStrays(v, v', start, buf, NodesFor(|buf| - if Lone(|buf|) then 1 else 0))
    ensures ReadsBack(c, start, buf) <==> ReadsUpTo(v', Pwrite(c, buf, start))
  {
    hide Sane, AllStrays, Pwrite, ByteAt;
    if ReadsBack(c, start, buf) {
      forall p: nat | p < |Pwrite(c, buf, start)| ensures ByteAt(v', p) == Some(Pwrite(c, buf, start)[p]) {
        BackByte(v, v', c, start, buf, p);
      }
    }
    if ReadsUpTo(v', Pwrite(c, buf, start)) {
      OnlyBack(v, v', c, start, buf);
    }
  }

  /** Every byte of `c` is read. */
  ghost predicate ReadsUpTo(v: View, c: seq<Byte>) {
    forall p: nat :: p < |c| ==> ByteAt(v, p) == Some(c[p])
  }

  lemma OldByte(v: View, v': View, c: seq<Byte>, start: nat, buf: seq<Byte>, j: nat, p: nat)
    requires Sane(v, c) && AllStrays(v, v', start, buf, j) && NodesFor(|c|) * N <= start && p < NodesFor(|c|) * N
    ensures ByteAt(v', p) == if p < |c| then Some(c[p]) else None
  {
    hide Sane, NodesFor, SlotByte, AllStrays;
    SlotCount(v, c);
    StraysAscend(v, v', c, start, buf, j);
    SaneAscends(v, c);
    SaneByte(v, c, p);
    var k := p / N;
    RowOf(p, |v.slots|);
    SaneSlot(v, c, k);
    FindIs(v.slots, p, k);
    FindIs(v'.slots, p, k);
    SameDev(v, v', start, buf, j);
  }

  lemma SameDev(v: View, v': View, start: nat, buf: seq<Byte>, j: nat)
    requires AllStrays(v, v', start, buf, j)
    ensures v'.dev == v.dev && |v'.slots| == |v.slots| + j
  {
  }

  lemma BackByte(v: View, v': View, c: seq<Byte>, start: nat, buf: seq<Byte>, p: nat)
    requires Sane(v, c) && buf != [] && ReadsBack(c, start, buf) && p < |Pwrite(c, buf, start)|
    requires AllStrays(v, v', start, buf, NodesFor(|buf|))
    ensures ByteAt(v', p) == Some(Pwrite(c, buf, start)[p])
  {
    hide Sane, AllStrays, Pwrite, ByteAt, NodesFor;
    PwriteAt(c, buf, start, p);
    if p < |c| {
      OldByte(v, v', c, start, buf, NodesFor(|buf|), p);
    } else {
      StrayByteAt(v, v', c, start, buf, NodesFor(|buf|), p - |c|);
    }
  }

  lemma OnlyBack(v: View, v': View, c: seq<Byte>, start: nat, buf: seq<Byte>)
    requires Sane(v, c) && buf != [] && |c| < start && NodesFor(|c|) * N <= start
    requires AllStrays(v, v', start, buf, NodesFor(|buf| - if Lone(|buf|) then 1 else 0))
    requires ReadsUpTo(v', Pwrite(c, buf, start))
    ensures ReadsBack(c, start, buf)
  {
    hide Sane, AllStrays, Pwrite, ByteAt, NodesFor;
    var c', j := Pwrite(c, buf, start), NodesFor(|buf| - if Lone(|buf|) then 1 else 0);
    NodesEnough(|c|);
    EndsInPlace(v, v', c, start, buf, j);
    var last := start - |c| + |buf| - 1;
    assert ByteAt(v', |c| + last) == Some(c'[|c| + last]);
    StrayByteAt(v, v', c, start, buf, j, last);
    LastRow(|buf|, last);
    var r := start - |c|;
    forall x | 0 <= x < |buf| ensures Shifted(buf, r, x) {
      assert ByteAt(v', |c| + x) == Some(c'[|c| + x]);
      StrayByteAt(v, v', c, start, buf, j, x);
      PwriteAt(c, buf, start, |c| + x);
    }
    Repeats(buf, r);
  }

  /** If everything is read, the file filled its nodes and the write begins in the next one. */
  lemma EndsInPlace(v: View, v': View, c: seq<Byte>, start: nat, buf: seq<Byte>, j: nat)
    requires Sane(v, c) && buf != [] && |c| < start && NodesFor(|c|) * N <= start
    requires AllStrays(v, v', start, buf, j) && ReadsUpTo(v', Pwrite(c, buf, start))
    ensures |c| == NodesFor(|c|) * N && start < |c| + N
  {
    hide Sane, AllStrays, Pwrite, ByteAt, NodesFor;
    NodesEnough(|c|);
    var edge := NodesFor(|c|) * N;
    if |c| < edge {
      assert ByteAt(v', |c|) == Some(Pwrite(c, buf, start)[|c|]);
      OldByte(v, v', c, start, buf, j, |c|);
      assert false;
    }
    if start >= edge + N {
      assert ByteAt(v', edge) == Some(Pwrite(c, buf, start)[edge]);
      Hole(v, v', c, start, buf, j);
      assert false;
    }
  }

  lemma Hole(v: View, v': View, c: seq<Byte>, start: nat, buf: seq<Byte>, j: nat)
    requires Sane(v, c) && AllStrays(v, v', start, buf, j) && NodesFor(|c|) * N + N <= start
    ensures ByteAt(v', NodesFor(|c|) * N) == None
  {
    hide Sane, AllStrays, NodesFor, ByteAt;
    SlotCount(v, c);
    StraysAscend(v, v', c, start, buf, j);
    SameDev(v, v', start, buf, j);
    var m := |v.slots|;
    FloorAt(start, m + 1);
    forall k | 0 <= k < |v'.slots| ensures !Covers(v'.slots[k], m * N) {
      if k < m {
        SaneSlot(v, c, k);
        assert (k + 1) * N <= m * N;
      }
    }
    NoNode(v', m * N);
  }

  lemma LastRow(n: nat, last: nat)
    requires n > 0 && n <= last < NodesFor(n - if Lone(n) then 1 else 0) * N
    ensures !Lone(n) && last + 1 <= NodesFor(n) * N
  {
  }
}
