/** A file split into nodes of 2 MiB, each kept in a window of one of two device files.
    The claim of this module is refinement: such a file can stand for one plain file. */
module SplitFile {
  import opened Common

  type Byte = bv8

  /** The size of a node. */
  const N: int := 0x200000

  datatype Devices = Devices(fast: seq<Byte>, slow: seq<Byte>) {
    function At(p: Place): seq<Byte> {
      if p == Fast then fast else slow
    }

    function With(p: Place, d: seq<Byte>): Devices {
      if p == Fast then this.(fast := d) else this.(slow := d)
    }
  }

  /** Bytes from `start` on are in the window of device `place` that begins at `offset`. */
  datatype Node = Node(start: int, place: Place, offset: int)

  // ------------------------------------------------------------- plain files

  /** What reading `count` bytes at `off` of a plain file returns: less at its end. */
  function Pread(d: seq<Byte>, count: nat, off: nat): seq<Byte> {
    d[Min(off, |d|)..Min(off + count, |d|)]
  }

  /** A plain file after writing `b` at `off`: a gap after its old end reads as zeros. */
  function Pwrite(d: seq<Byte>, b: seq<Byte>, off: nat): (r: seq<Byte>)
    ensures |r| == if b == [] then |d| else Max(|d|, off + |b|)
  {
    if b == [] then
      d
    else
      seq(Max(|d|, off + |b|), i requires 0 <= i => Pbyte(d, b, off, i))
  }

  /** Byte `i` of that file. */
  function Pbyte(d: seq<Byte>, b: seq<Byte>, off: nat, i: nat): Byte {
    if off <= i < off + |b| then b[i - off] else if i < |d| then d[i] else 0
  }

  lemma PwriteAt(d: seq<Byte>, b: seq<Byte>, off: nat, i: nat)
    requires i < |Pwrite(d, b, off)|
    ensures Pwrite(d, b, off)[i] == if off <= i < off + |b| then b[i - off] else if i < |d| then d[i] else 0
  {
  }

  lemma PwriteTwice(d: seq<Byte>, a: seq<Byte>, b: seq<Byte>, off: nat)
    ensures Pwrite(Pwrite(d, a, off), b, off + |a|) == Pwrite(d, a + b, off)
  {
    if a == [] {
      assert a + b == b;
      WriteNone(d, a, off);
    } else if b == [] {
      assert a + b == a;
      WriteNone(Pwrite(d, a, off), b, off + |a|);
    } else {
      TwoPieces(d, a, b, off);
    }
  }

  lemma TwoPieces(d: seq<Byte>, a: seq<Byte>, b: seq<Byte>, off: nat)
    requires a != [] && b != []
    ensures Pwrite(Pwrite(d, a, off), b, off + |a|) == Pwrite(d, a + b, off)
  {
    hide Pwrite;
    var one := Pwrite(d, a, off);
    var x, y := Pwrite(one, b, off + |a|), Pwrite(d, a + b, off);
    assert |x| == |y|;
    forall i | 0 <= i < |x| ensures x[i] == y[i] {
      PwriteAt(one, b, off + |a|, i);
      PwriteAt(d, a + b, off, i);
      if i < |one| {
        PwriteAt(d, a, off, i);
      }
    }
  }

  lemma WriteNone(c: seq<Byte>, b: seq<Byte>, off: nat)
    requires b == []
    ensures Pwrite(c, b, off) == c
  {
  }

  /** A write piece by piece. */
  lemma PwritePiece(c: seq<Byte>, buf: seq<Byte>, off: nat, copied: nat, n: nat)
    requires copied + n <= |buf|
    ensures Pwrite(Pwrite(c, buf[..copied], off), buf[copied..copied + n], off + copied)
            == Pwrite(c, buf[..copied + n], off)
  {
    hide Pwrite;
    PwriteTwice(c, buf[..copied], buf[copied..copied + n], off);
    assert buf[..copied] + buf[copied..copied + n] == buf[..copied + n];
  }

  lemma PreadSplit(d: seq<Byte>, m: nat, n: nat, off: nat)
    ensures Pread(d, m, off) + Pread(d, n, off + m) == Pread(d, m + n, off)
  {
  }

  // -------------------------------------------------------- representation

  /** The number of nodes that a file of `n` bytes needs. */
  function NodesFor(n: nat): nat {
    (n + N - 1) / N
  }

  lemma NodesEnough(n: nat)
    ensures (NodesFor(n) - 1) * N < n <= NodesFor(n) * N
  {
  }

  /** Byte `i` of `c`, if there is one, is in the window at `offset` of `d`, which holds the part of `c` from
      `start` on. */
  ghost predicate HoldsByte(d: seq<Byte>, offset: int, c: seq<Byte>, start: int, i: int)
    requires 0 <= start <= i && 0 <= offset
  {
    i < |c| ==> i - start + offset < |d| && d[i - start + offset] == c[i]
  }

  /** The window at `offset` of `d` holds the part of `c` that begins at `start`. */
  ghost predicate Holds(d: seq<Byte>, offset: int, c: seq<Byte>, start: int)
    requires 0 <= start && 0 <= offset
  {
    forall i :: start <= i < start + N ==> HoldsByte(d, offset, c, start, i)
  }

  ghost predicate Laid(index: seq<Node>) {
    && (forall k :: 0 <= k < |index| ==> index[k].start == k * N && index[k].offset >= 0 && index[k].offset % N == 0)
    && (forall j, k :: 0 <= j < k < |index| && index[j].place == index[k].place ==>
          index[j].offset + N <= index[k].offset)
  }

  /** The nodes `index` on the devices `dev` stand for the plain file `c`: they are in order without
      gaps, their windows are aligned and disjoint, and the last one ends where its device ends. */
  ghost predicate Rep(dev: Devices, index: seq<Node>, c: seq<Byte>) {
    && |index| == NodesFor(|c|)
    && Laid(index)
    && (forall k :: 0 <= k < |index| ==> Holds(dev.At(index[k].place), index[k].offset, c, index[k].start))
    && (index != [] ==>
        var last := index[|index| - 1]; |dev.At(last.place)| == last.offset + (|c| - last.start))
  }

  // ------------------------------------------------------- writing in place

  lemma HoldsAt(d: seq<Byte>, off: nat, c: seq<Byte>, start: nat, i: nat)
    requires Holds(d, off, c, start) && start <= i < start + N && i < |c|
    ensures i - start + off < |d| && d[i - start + off] == c[i]
  {
    assert HoldsByte(d, off, c, start, i);
  }

  /** A write inside a window that is full, or that ends where its device ends. */
  lemma HoldsWrite(d: seq<Byte>, off: nat, c: seq<Byte>, start: nat, b: seq<Byte>, pos: nat)
    requires Holds(d, off, c, start) && start <= pos && pos + |b| <= start + N
    requires start + N <= |c| || (start <= |c| && |d| == off + (|c| - start))
    ensures Holds(Pwrite(d, b, off + (pos - start)), off, Pwrite(c, b, pos), start)
  {
    var d', c' := Pwrite(d, b, off + (pos - start)), Pwrite(c, b, pos);
    forall i | start <= i < start + N ensures HoldsByte(d', off, c', start, i) {
      if i < |c| {
        HoldsAt(d, off, c, start, i);
      }
    }
  }

  /** A write outside a window. */
  lemma HoldsBeside(d: seq<Byte>, off: nat, c: seq<Byte>, start: nat, b: seq<Byte>, x: nat, pos: nat)
    requires Holds(d, off, c, start)
    requires x + |b| <= off || off + N <= x
    requires pos + |b| <= start || start + N <= pos
    requires start + N <= |c| || pos + |b| <= |c|
    ensures Holds(Pwrite(d, b, x), off, Pwrite(c, b, pos), start)
  {
    var d', c' := Pwrite(d, b, x), Pwrite(c, b, pos);
    forall i | start <= i < start + N ensures HoldsByte(d', off, c', start, i) {
      if i < |c'| {
        HoldsAt(d, off, c, start, i);
      }
    }
  }

  /** A write on the other device. */
  lemma HoldsElsewhere(d: seq<Byte>, off: nat, c: seq<Byte>, start: nat, b: seq<Byte>, pos: nat)
    requires Holds(d, off, c, start)
    requires pos + |b| <= start || start + N <= pos
    requires start + N <= |c| || pos + |b| <= |c|
    ensures Holds(d, off, Pwrite(c, b, pos), start)
  {
    var c' := Pwrite(c, b, pos);
    forall i | start <= i < start + N ensures HoldsByte(d, off, c', start, i) {
      if i < |c'| {
        HoldsAt(d, off, c, start, i);
      }
    }
  }

  /** Every node but the last is full. */
  lemma LastNode(dev: Devices, index: seq<Node>, c: seq<Byte>, k: nat)
    requires Rep(dev, index, c) && k < |index|
    ensures k < |index| - 1 ==> index[k].start + N <= |c|
    ensures k == |index| - 1 ==> index[k].start < |c| <= index[k].start + N
    ensures index[k].start + N <= |c| ==> index[k].offset + N <= |dev.At(index[k].place)|
  {
    assert k < |index| - 1 ==> (k + 1) * N <= (|index| - 1) * N;
    if index[k].start + N <= |c| {
      assert Holds(dev.At(index[k].place), index[k].offset, c, index[k].start);
      HoldsAt(dev.At(index[k].place), index[k].offset, c, index[k].start, index[k].start + N - 1);
    }
  }

  lemma WriteHolds(dev: Devices, index: seq<Node>, c: seq<Byte>, k: nat, b: seq<Byte>, pos: nat, j: nat)
    requires Rep(dev, index, c) && k < |index| && j < |index| && b != []
    requires index[k].start <= pos && pos + |b| <= index[k].start + N
    ensures var n := index[k];
      var dev' := dev.With(n.place, Pwrite(dev.At(n.place), b, n.offset + (pos - n.start)));
      Holds(dev'.At(index[j].place), index[j].offset, Pwrite(c, b, pos), index[j].start)
  {
    hide Pwrite, Holds;
    LastNode(dev, index, c, k);
    LastNode(dev, index, c, j);
    var n, m := index[k], index[j];
    var x := n.offset + (pos - n.start);
    assert n.start == k * N && m.start == j * N;
    if j == k {
      HoldsWrite(dev.At(n.place), n.offset, c, n.start, b, pos);
    } else if m.place == n.place {
      HoldsBeside(dev.At(m.place), m.offset, c, m.start, b, x, pos);
    } else {
      HoldsElsewhere(dev.At(m.place), m.offset, c, m.start, b, pos);
    }
  }

  /** A write inside node `k`. */
  lemma WriteInNode(dev: Devices, index: seq<Node>, c: seq<Byte>, k: nat, b: seq<Byte>, pos: nat)
    requires Rep(dev, index, c) && k < |index| && b != []
    requires index[k].start <= pos && pos + |b| <= index[k].start + N
    ensures var n := index[k];
      Rep(dev.With(n.place, Pwrite(dev.At(n.place), b, n.offset + (pos - n.start))), index, Pwrite(c, b, pos))
  {
    hide Holds, Pwrite;
    var n := index[k];
    var d' := Pwrite(dev.At(n.place), b, n.offset + (pos - n.start));
    var dev', c' := dev.With(n.place, d'), Pwrite(c, b, pos);
    LastNode(dev, index, c, k);
    LastNode(dev, index, c, |index| - 1);
    forall j | 0 <= j < |index| ensures Holds(dev'.At(index[j].place), index[j].offset, c', index[j].start) {
      WriteHolds(dev, index, c, k, b, pos, j);
    }
    WriteEnd(dev, index, c, k, b, pos);
  }

  /** A write inside a node keeps the last window at the end of its device. */
  lemma WriteEnd(dev: Devices, index: seq<Node>, c: seq<Byte>, k: nat, b: seq<Byte>, pos: nat)
    requires Rep(dev, index, c) && k < |index| && b != []
    requires index[k].start <= pos && pos + |b| <= index[k].start + N
    ensures |index| == NodesFor(|Pwrite(c, b, pos)|)
    ensures var n, last := index[k], index[|index| - 1];
      var dev' := dev.With(n.place, Pwrite(dev.At(n.place), b, n.offset + (pos - n.start)));
      |dev'.At(last.place)| == last.offset + (|Pwrite(c, b, pos)| - last.start)
  {
    hide Holds, Pwrite;
    LastNode(dev, index, c, k);
    var last := index[|index| - 1];
    LastNode(dev, index, c, |index| - 1);
    assert index[k].start == k * N && last.start == (|index| - 1) * N;
    if k < |index| - 1 && index[k].place == last.place {
      assert index[k].offset + N <= last.offset;
    }
    NodesUnique(|Pwrite(c, b, pos)|, |index|);
  }

  lemma NodesUnique(n: nat, k: nat)
    requires (k - 1) * N < n <= k * N
    ensures NodesFor(n) == k
  {
  }

  /** A loop that stops with at most one byte left leaves exactly the odd byte. */
  lemma Leftover(total: nat, j: nat)
    requires total - 1 <= Min(j * N, total) && (j > 0 ==> (j - 1) * N + 2 <= total)
    ensures Min(j * N, total) == total - if total % N == 1 then 1 else 0
    ensures NodesFor(Min(j * N, total)) == j
  {
    NodesUnique(Min(j * N, total), j);
    if total % N == 1 {
      assert total == total / N * N + 1;
    }
  }

  // --------------------------------------------------------- adding a node

  /** The first aligned position at or after `n`. */
  function RoundUp(n: nat): (r: nat)
    ensures n <= r < n + N && r % N == 0
  {
    if n % N == 0 then n else (n / N + 1) * N
  }

  /** A new window beyond the end of its device leaves the others alone, and holds what is written. */
  lemma AppendHolds(dev: Devices, index: seq<Node>, c: seq<Byte>, p: Place, b: seq<Byte>, k: nat)
    requires Rep(dev, index, c) && |c| == |index| * N && 0 < |b| <= N && k < |index|
    ensures var off := RoundUp(|dev.At(p)|);
      Holds(dev.With(p, Pwrite(dev.At(p), b, off)).At(index[k].place), index[k].offset, Pwrite(c, b, |c|),
            index[k].start)
    ensures index[k].place == p ==> index[k].offset + N <= RoundUp(|dev.At(p)|)
  {
    hide Pwrite, Holds;
    LastNode(dev, index, c, k);
    var m, off := index[k], RoundUp(|dev.At(p)|);
    assert m.start == k * N && (k + 1) * N <= |index| * N;
    if m.place == p {
      HoldsBeside(dev.At(p), m.offset, c, m.start, b, off, |c|);
    } else {
      HoldsElsewhere(dev.At(m.place), m.offset, c, m.start, b, |c|);
    }
  }

  lemma NewHolds(d: seq<Byte>, c: seq<Byte>, b: seq<Byte>, off: nat)
    requires |d| <= off && 0 < |b| <= N
    ensures Holds(Pwrite(d, b, off), off, Pwrite(c, b, |c|), |c|)
  {
    var d', c' := Pwrite(d, b, off), Pwrite(c, b, |c|);
    forall i | |c| <= i < |c| + N ensures HoldsByte(d', off, c', |c|, i) {
    }
  }

  /** A new node at the end of a file that fills its nodes. */
  lemma AppendNode(dev: Devices, index: seq<Node>, c: seq<Byte>, p: Place, b: seq<Byte>)
    requires Rep(dev, index, c) && |c| == |index| * N && 0 < |b| <= N
    ensures var off := RoundUp(|dev.At(p)|);
      Rep(dev.With(p, Pwrite(dev.At(p), b, off)), index + [Node(|c|, p, off)], Pwrite(c, b, |c|))
  {
    hide Holds;
    var off := RoundUp(|dev.At(p)|);
    var dev', index', c' := dev.With(p, Pwrite(dev.At(p), b, off)), index + [Node(|c|, p, off)], Pwrite(c, b, |c|);
    forall k | 0 <= k < |index|
      ensures Holds(dev'.At(index[k].place), index[k].offset, c', index[k].start)
      ensures index[k].place == p ==> index[k].offset + N <= off
    {
      AppendHolds(dev, index, c, p, b, k);
    }
    NewHolds(dev.At(p), c, b, off);
    NodesUnique(|c'|, |index'|);
  }

  // ----------------------------------------------------------------- reading

  /** Reading from a window returns what a plain file would, up to the end of the node. */
  lemma ReadInNode(dev: Devices, index: seq<Node>, c: seq<Byte>, k: nat, count: nat, pos: nat)
    requires Rep(dev, index, c) && k < |index|
    requires index[k].start <= pos && pos + count <= index[k].start + N
    ensures var n := index[k]; Pread(dev.At(n.place), count, n.offset + (pos - n.start)) == Pread(c, count, pos)
  {
    var n := index[k];
    var d := dev.At(n.place);
    LastNode(dev, index, c, k);
    assert Holds(d, n.offset, c, n.start);
    WindowSlice(d, n.offset, c, n.start, count, pos);
  }

  lemma WindowSlice(d: seq<Byte>, off: nat, c: seq<Byte>, start: nat, count: nat, pos: nat)
    requires Holds(d, off, c, start) && start <= pos && pos + count <= start + N
    requires start + N <= |c| || (start <= |c| && |d| == off + (|c| - start))
    requires start + N <= |c| ==> off + N <= |d|
    ensures Pread(d, count, off + (pos - start)) == Pread(c, count, pos)
  {
    var a, b := Pread(d, count, off + (pos - start)), Pread(c, count, pos);
    assert |a| == |b|;
    forall i | 0 <= i < |b| ensures a[i] == b[i] {
      HoldsAt(d, off, c, start, pos + i);
    }
  }

  // -------------------------------------------------------------- placement

  function NodePlaces(index: seq<Node>): (r: seq<Place>)
    ensures |r| == |index|
  {
    seq(|index|, k requires 0 <= k < |index| => index[k].place)
  }

  /** On each device the windows follow one another from its beginning, and the device ends in the last of them. */
  ghost predicate Snug(dev: Devices, index: seq<Node>) {
    && (forall k :: 0 <= k < |index| ==> index[k].offset == N * CountOn(NodePlaces(index)[..k], index[k].place))
    && (forall p :: RoundUp(|dev.At(p)|) == N * CountOn(NodePlaces(index), p))
  }

  /** A write in a window keeps them so. */
  lemma SnugWrite(dev: Devices, index: seq<Node>, k: nat, b: seq<Byte>, rel: nat)
    requires k < |index| && index[k].offset >= 0 && rel + |b| <= N
    ensures var n := index[k];
      Snug(dev, index) ==> Snug(dev.With(n.place, Pwrite(dev.At(n.place), b, n.offset + rel)), index)
  {
    hide Pwrite, CountOn, RoundUp;
    var n, places := index[k], NodePlaces(index);
    var d, d' := dev.At(n.place), Pwrite(dev.At(n.place), b, n.offset + rel);
    if Snug(dev, index) {
      assert places[..|index|] == places;
      CountBefore(places, k, |index|);
      var m := CountOn(places, n.place);
      Down(|d|, m);
      assert n.offset + N == N * (CountOn(places[..k], n.place) + 1) <= N * m;
      UpTo(|d|, |d'|, m);
    }
  }

  lemma Down(x: nat, k: nat)
    requires RoundUp(x) == N * k && k > 0
    ensures N * (k - 1) < x <= N * k
  {
  }

  lemma UpTo(x: nat, y: nat, k: nat)
    requires N * (k - 1) < x <= y <= N * k
    ensures RoundUp(y) == N * k
  {
  }

  /** So does a new node at the end of its device. */
  lemma SnugGrow(dev: Devices, index: seq<Node>, p: Place, b: seq<Byte>, start: int)
    requires 0 < |b| <= N
    ensures var off := RoundUp(|dev.At(p)|);
      Snug(dev, index) ==> Snug(dev.With(p, Pwrite(dev.At(p), b, off)), index + [Node(start, p, off)])
  {
    hide Pwrite, CountOn, RoundUp;
    var off, places := RoundUp(|dev.At(p)|), NodePlaces(index);
    var index', dev' := index + [Node(start, p, off)], dev.With(p, Pwrite(dev.At(p), b, off));
    if Snug(dev, index) {
      assert NodePlaces(index') == places + [p];
      assert (places + [p])[..|places|] == places;
      forall k | 0 <= k < |index| ensures (places + [p])[..k] == places[..k] {
      }
      forall q ensures RoundUp(|dev'.At(q)|) == N * CountOn(places + [p], q) {
        CountOne(places, p, q);
        if q == p {
          UpTo(off + |b|, off + |b|, CountOn(places, p) + 1);
        }
      }
    }
  }

  /** The nodes are those before, and new ones on the devices that `place` says, in order. */
  predicate NewNodes(index: seq<Node>, index': seq<Node>, place: nat -> Place) {
    index <= index' && forall k :: |index| <= k < |index'| ==> index'[k].place == place(k - |index|)
  }

  lemma NewNodesNone(index: seq<Node>, place: nat -> Place)
    ensures NewNodes(index, index, place)
  {
  }

  lemma NewNodesNext(index: seq<Node>, index': seq<Node>, n: Node, place: nat -> Place)
    requires NewNodes(index, index', place) && n.place == place(|index'| - |index|)
    ensures NewNodes(index, index' + [n], place)
  {
  }

  // ------------------------------------------------------------- whole files

  /** The device and the position on it where byte `i` of the file is. */
  function Home(index: seq<Node>, i: nat): (Place, int)
    requires i / N < |index|
  {
    (index[i / N].place, index[i / N].offset + i % N)
  }

  /** Every byte of the file is on a device, different bytes at different places. */
  lemma OneByteOnePlace(dev: Devices, index: seq<Node>, c: seq<Byte>, i: nat, j: nat)
    requires Rep(dev, index, c) && i < |c| && j < |c|
    ensures i / N < |index| && j / N < |index| && (i != j ==> Home(index, i) != Home(index, j))
    ensures var (place, pos) := Home(index, i); 0 <= pos < |dev.At(place)| && dev.At(place)[pos] == c[i]
  {
    hide Holds, NodesFor;
    NodeOf(|c|, i);
    NodeOf(|c|, j);
    var n := index[i / N];
    assert Holds(dev.At(n.place), n.offset, c, n.start);
    HoldsAt(dev.At(n.place), n.offset, c, n.start, i);
  }

  lemma NodeOf(n: nat, i: nat)
    requires i < n
    ensures i / N < NodesFor(n) && i == i / N * N + i % N
  {
  }

  // ------------------------------------------------------------------- gaps

  /** `d` extended with zeros to `n` bytes. */
  function ZeroTo(d: seq<Byte>, n: nat): (r: seq<Byte>)
    requires |d| <= n
    ensures |r| == n
  {
    seq(n, i requires 0 <= i => if i < |d| then d[i] else 0)
  }

  lemma ZeroToWrite(d: seq<Byte>, n: nat, b: seq<Byte>)
    requires |d| <= n && b != []
    ensures Pwrite(ZeroTo(d, n), b, n) == Pwrite(d, b, n)
  {
  }

  /** Filling up the last window with zeros fills up the file with zeros. */
  lemma PadLast(dev: Devices, index: seq<Node>, c: seq<Byte>)
    requires Rep(dev, index, c) && index != []
    ensures var last := index[|index| - 1]; var d := dev.At(last.place);
      && |d| <= last.offset + N
      && Rep(dev.With(last.place, ZeroTo(d, last.offset + N)), index, ZeroTo(c, |index| * N))
  {
    hide Holds;
    var last := index[|index| - 1];
    var d, c' := dev.At(last.place), ZeroTo(c, |index| * N);
    LastNode(dev, index, c, |index| - 1);
    var dev' := dev.With(last.place, ZeroTo(d, last.offset + N));
    forall k | 0 <= k < |index| ensures Holds(dev'.At(index[k].place), index[k].offset, c', index[k].start) {
      PadHolds(dev, index, c, k);
    }
    NodesUnique(|c'|, |index|);
  }

  lemma PadHolds(dev: Devices, index: seq<Node>, c: seq<Byte>, k: nat)
    requires Rep(dev, index, c) && k < |index|
    requires |dev.At(index[|index| - 1].place)| <= index[|index| - 1].offset + N
    ensures var last := index[|index| - 1];
      Holds(dev.With(last.place, ZeroTo(dev.At(last.place), last.offset + N)).At(index[k].place), index[k].offset,
            ZeroTo(c, |index| * N), index[k].start)
  {
    hide Holds;
    LastNode(dev, index, c, k);
    var n, last := index[k], index[|index| - 1];
    var d, d' := dev.At(n.place), dev.With(last.place, ZeroTo(dev.At(last.place), last.offset + N)).At(n.place);
    assert n.start == k * N;
    assert |d| <= |d'| && forall i :: 0 <= i < |d| ==> d'[i] == d[i];
    HoldsPad(d, d', n.offset, c, |index| * N, n.start);
  }

  lemma HoldsPad(d: seq<Byte>, d': seq<Byte>, off: nat, c: seq<Byte>, n: nat, start: nat)
    requires Holds(d, off, c, start) && |c| <= n
    requires |d| <= |d'| && forall i :: 0 <= i < |d| ==> d'[i] == d[i]
    requires start + N <= |c| || (start <= |c| && |d| == off + (|c| - start) <= off + N && d' == ZeroTo(d, off + N))
    ensures Holds(d', off, ZeroTo(c, n), start)
  {
    forall i | start <= i < start + N ensures HoldsByte(d', off, ZeroTo(c, n), start, i) {
      if i < |c| {
        HoldsAt(d, off, c, start, i);
      }
    }
  }
}
