/** Uncached reads, writes and appends of a split file. */
module DirectIo {
  import opened Common
  import opened SplitFile

  /** Node `n` overlaps the range from `start` to `last`, both included. */
  predicate Overlaps(n: Node, start: int, last: int) {
    n.start <= last && start < n.start + N
  }

  /** The first node from `k` on that overlaps the range, or the number of nodes if none does. */
  function Lookup(index: seq<Node>, k: nat, start: int, last: int): (r: nat)
    requires k <= |index|
    ensures k <= r <= |index| && (r < |index| ==> Overlaps(index[r], start, last))
    ensures forall i :: k <= i < r ==> !Overlaps(index[i], start, last)
    decreases |index| - k
  {
    if k == |index| || Overlaps(index[k], start, last) then k else Lookup(index, k + 1, start, last)
  }

  /** In a file without gaps, the first overlapping node is the one that `start` is in. */
  lemma LookupFirst(index: seq<Node>, start: nat, last: int)
    requires Laid(index) && start <= last + 1
    ensures var r := Lookup(index, 0, start, last);
      && (r < |index| ==> index[r].start <= start < index[r].start + N)
      && (r == |index| && start <= last ==> |index| * N <= start)
  {
    var q, r := start / N, Lookup(index, 0, start, last);
    if r < |index| {
      assert index[r].start == r * N;
    }
    if q < |index| {
      assert index[q].start == q * N;
    }
  }

  /** And the next one is the next in order, while there is something left to do. */
  lemma LookupNext(index: seq<Node>, k: nat, start: nat, last: int)
    requires Laid(index) && k < |index|
    requires start == (k + 1) * N <= last || start == last + 1 <= (k + 1) * N
    ensures Lookup(index, k + 1, start, last) == if start <= last && k + 1 < |index| then k + 1 else |index|
  {
    var r := Lookup(index, k + 1, start, last);
    if r < |index| {
      assert index[r].start == r * N;
    }
  }

  lemma RepLaid(dev: Devices, index: seq<Node>, c: seq<Byte>)
    requires Rep(dev, index, c)
    ensures Laid(index) && |c| <= |index| * N
    ensures forall k :: 0 <= k < |index| ==> index[k].start == k * N && index[k].offset >= 0
  {
  }

  lemma PreadNone(c: seq<Byte>, off: nat)
    ensures Pread(c, 0, off) == []
  {
  }

  lemma PreadEnd(c: seq<Byte>, m: nat, n: nat, off: nat)
    requires m == n || (m <= n && |c| <= off + m)
    ensures Pread(c, m, off) == Pread(c, n, off)
  {
  }

  /** What reading the one byte at `p` returns. */
  ghost function ByteAt(dev: Devices, index: seq<Node>, p: nat): seq<Byte> {
    var k := Lookup(index, 0, p, p);
    if k == |index| || index[k].offset < 0 then [] else
      Pread(dev.At(index[k].place), 1, index[k].offset + (p - index[k].start))
  }

  lemma ByteOf(dev: Devices, index: seq<Node>, c: seq<Byte>, p: nat)
    requires Rep(dev, index, c)
    ensures ByteAt(dev, index, p) == Pread(c, 1, p)
  {
    RepLaid(dev, index, c);
    LookupFirst(index, p, p);
    var k := Lookup(index, 0, p, p);
    if k < |index| {
      ReadInNode(dev, index, c, k, 1, p);
    }
  }

  /** One more piece of a write, in node `k`. */
  lemma WritePiece(dev: Devices, dev': Devices, index: seq<Node>, c: seq<Byte>, buf: seq<Byte>, start: nat,
                   copied: nat, n: nat, k: nat)
    requires k < |index| && copied + n <= |buf| && index[k].offset >= 0
    requires Rep(dev, index, Pwrite(c, buf[..copied], start))
    requires index[k].start <= start + copied && start + copied + n <= index[k].start + N
    requires dev' == dev.With(index[k].place,
      Pwrite(dev.At(index[k].place), buf[copied..copied + n], index[k].offset + (start + copied - index[k].start)))
    ensures Rep(dev', index, Pwrite(c, buf[..copied + n], start))
  {
    hide Rep;
    var piece := buf[copied..copied + n];
    PwriteTwice(c, buf[..copied], piece, start);
    assert buf[..copied] + piece == buf[..copied + n];
    if n > 0 {
      WriteInNode(dev, index, Pwrite(c, buf[..copied], start), k, piece, start + copied);
    } else {
      assert dev' == dev;
    }
  }

  // ------------------------------------------------------------ new nodes

  /** `pad` is `dev`, or `dev` with device `lp` filled up with zeros to the aligned size `n`. */
  ghost predicate Shadow(dev: Devices, pad: Devices, lp: Place, n: nat) {
    || pad == dev
    || (|dev.At(lp)| <= n == RoundUp(|dev.At(lp)|) && pad == dev.With(lp, ZeroTo(dev.At(lp), n)))
  }

  /** The devices after adding a node, once the first node on `lp` has closed the gap there. */
  ghost function NextPad(dev: Devices, pad: Devices, lp: Place, p: Place, piece: seq<Byte>): Devices {
    if p == lp then dev.With(p, Pwrite(dev.At(p), piece, RoundUp(|dev.At(p)|)))
    else pad.With(p, Pwrite(pad.At(p), piece, RoundUp(|pad.At(p)|)))
  }

  lemma GrowStep(dev: Devices, pad: Devices, lp: Place, n: nat, index: seq<Node>, c: seq<Byte>, p: Place,
                 piece: seq<Byte>)
    requires Rep(pad, index, c) && |c| == |index| * N && 0 < |piece| <= N && Shadow(dev, pad, lp, n)
    ensures var off := RoundUp(|dev.At(p)|);
      var dev', pad' := dev.With(p, Pwrite(dev.At(p), piece, off)), NextPad(dev, pad, lp, p, piece);
      Rep(pad', index + [Node(|c|, p, off)], Pwrite(c, piece, |c|)) && Shadow(dev', pad', lp, n)
  {
    hide Rep, Pwrite;
    AppendNode(pad, index, c, p, piece);
    if p == lp && pad != dev {
      ZeroToWrite(dev.At(p), n, piece);
      assert RoundUp(n) == n;
    }
  }

  /** The `j` nodes added to `index0` by a write at `start0` of which `copied` bytes have been placed: each begins at
      the multiple of N below its part of the write, and the last device ends with the last part. */
  ghost predicate Strayed(dev: Devices, index0: seq<Node>, index: seq<Node>, start0: nat, j: nat, copied: nat) {
    && |index| == |index0| + j && index[..|index0|] == index0
    && (forall i :: 0 <= i < j ==> index[|index0| + i].start == start0 - start0 % N + i * N)
    && (j > 0 ==>
          var last := index[|index| - 1];
          last.offset >= 0 && |dev.At(last.place)| == last.offset + (copied - (j - 1) * N))
  }

  lemma StrayNone(dev: Devices, index: seq<Node>, start0: nat)
    ensures Strayed(dev, index, index, start0, 0, 0)
  {
  }

  lemma StrayStep(dev: Devices, index0: seq<Node>, index: seq<Node>, start0: nat, j: nat, p: Place, piece: seq<Byte>)
    requires Strayed(dev, index0, index, start0, j, j * N) && 0 < |piece| <= N
    ensures var at, off := start0 + j * N, RoundUp(|dev.At(p)|);
      Strayed(dev.With(p, Pwrite(dev.At(p), piece, off)), index0, index + [Node(at - at % N, p, off)],
              start0, j + 1, j * N + |piece|)
  {
    hide Pwrite;
    var at := start0 + j * N;
    assert at % N == start0 % N;
  }

  /** One more piece of a write without a gap, in a new node. */
  lemma GrowPiece(dev: Devices, pad: Devices, lp: Place, n: nat, index: seq<Node>, c: seq<Byte>, rest: seq<Byte>,
                  count: nat, p: Place, j: nat)
    requires 0 < count <= N && j * N + count <= |rest| && Shadow(dev, pad, lp, n)
    requires Rep(pad, index, Pwrite(c, rest[..j * N], |c|)) && |c| % N == 0 && |c| + j * N == |index| * N
    ensures var at, piece, off := |c| + j * N, rest[j * N..j * N + count], RoundUp(|dev.At(p)|);
      var dev', pad' := dev.With(p, Pwrite(dev.At(p), piece, off)), NextPad(dev, pad, lp, p, piece);
      && Rep(pad', index + [Node(at - at % N, p, off)], Pwrite(c, rest[..j * N + count], |c|))
      && Shadow(dev', pad', lp, n) && (p == lp ==> pad' == dev')
      && (p == lp || pad != dev || pad' == dev') && (p != lp ==> dev'.At(lp) == dev.At(lp))
  {
    hide Rep, Pwrite, Shadow;
    var piece := rest[j * N..j * N + count];
    GrowStep(dev, pad, lp, n, index, Pwrite(c, rest[..j * N], |c|), p, piece);
    PwriteTwice(c, rest[..j * N], piece, |c|);
    assert rest[..j * N] + piece == rest[..j * N + count];
    var at := |c| + j * N;
    assert at % N == 0;
  }

  // ----------------------------------------------- writes that are not kept

  /** Some byte within the file's size cannot be read. */
  ghost predicate Torn(dev: Devices, index: seq<Node>, size: nat) {
    exists p :: 0 <= p < size && ByteAt(dev, index, p) == []
  }

  /** A torn file stands for no plain file. */
  lemma TornIsNoFile(dev: Devices, index: seq<Node>, c: seq<Byte>)
    requires Torn(dev, index, |c|)
    ensures !Rep(dev, index, c)
  {
    if Rep(dev, index, c) {
      var p :| 0 <= p < |c| && ByteAt(dev, index, p) == [];
      ByteOf(dev, index, c, p);
      assert false;
    }
  }

  /** The byte that follows the contents cannot be read. */
  lemma TornEnd(dev: Devices, index: seq<Node>, c: seq<Byte>, size: nat)
    requires Rep(dev, index, c) && |c| < size
    ensures Torn(dev, index, size)
  {
    ByteOf(dev, index, c, |c|);
  }

  /** The byte that follows the last node cannot be read. */
  lemma TornTail(dev: Devices, index: seq<Node>, size: nat)
    requires Laid(index) && |index| * N < size
    ensures Torn(dev, index, size)
  {
    var p := |index| * N;
    LookupFirst(index, p, p);
    assert ByteAt(dev, index, p) == [];
  }

  /** Nor can a byte where the device of its node ends. */
  lemma TornGap(dev: Devices, index: seq<Node>, k: nat, p: nat, size: nat)
    requires Laid(index) && k < |index| && index[k].start <= p < index[k].start + N && p < size
    requires |dev.At(index[k].place)| <= index[k].offset + (p - index[k].start)
    ensures Torn(dev, index, size)
  {
    LookupFirst(index, p, p);
    assert k * N <= p < (k + 1) * N;
    assert Lookup(index, 0, p, p) == k;
    assert ByteAt(dev, index, p) == [];
  }

  /** Nor can a byte of a write that began beyond the last node. */
  lemma TornStray(dev: Devices, index0: seq<Node>, index: seq<Node>, start: nat, total: nat)
    requires Laid(index0) && |index0| * N < start && total > 0
    requires var m := total - if total % N == 1 then 1 else 0; Strayed(dev, index0, index, start, NodesFor(m), m)
    ensures Torn(dev, index, start + total)
  {
    var m := total - if total % N == 1 then 1 else 0;
    var p := if start - start % N > |index0| * N then |index0| * N else start + total - 1;
    var k := Lookup(index, 0, p, p);
    if k < |index| {
      StrayCover(dev, index0, index, start, total, k, p);
    }
    assert ByteAt(dev, index, p) == [];
  }

  /** A node that such a byte is in is the last one, and its device ends before that byte. */
  lemma StrayCover(dev: Devices, index0: seq<Node>, index: seq<Node>, start: nat, total: nat, k: nat, p: nat)
    requires Laid(index0) && |index0| * N < start && total > 0 && k < |index| && Overlaps(index[k], p, p)
    requires var m := total - if total % N == 1 then 1 else 0; Strayed(dev, index0, index, start, NodesFor(m), m)
    requires p == if start - start % N > |index0| * N then |index0| * N else start + total - 1
    ensures index[k].offset >= 0 && |dev.At(index[k].place)| <= index[k].offset + (p - index[k].start)
  {
    var m := total - if total % N == 1 then 1 else 0;
    StrayStart(dev, index0, index, start, m, k);
    StrayLast(start, total, k - |index0|);
  }

  /** Old nodes end where the old nodes end; new ones begin at multiples of N below the parts of the write. */
  lemma StrayStart(dev: Devices, index0: seq<Node>, index: seq<Node>, start: nat, m: nat, k: nat)
    requires Laid(index0) && k < |index| && Strayed(dev, index0, index, start, NodesFor(m), m)
    ensures k < |index0| ==> index[k].start + N <= |index0| * N
    ensures k >= |index0| ==> k - |index0| < NodesFor(m) && index[k].start == start - start % N + (k - |index0|) * N
  {
    if k < |index0| {
      assert index[..|index0|][k] == index0[k];
      assert (k + 1) * N <= |index0| * N;
    } else {
      assert index[|index0| + (k - |index0|)] == index[k];
    }
  }

  /** A new node that reaches the last byte of an unaligned write is the last one, and the write is not cut off. */
  lemma StrayLast(start: nat, total: nat, i: int)
    requires total > 0
    ensures var m := total - if total % N == 1 then 1 else 0;
      var r, j, end := start % N, NodesFor(m), start + total - 1;
      r > 0 && 0 <= i < j && start - r + i * N <= end < start - r + (i + 1) * N ==> i == j - 1 && m == total
  {
    var m := total - if total % N == 1 then 1 else 0;
    NodesEnough(m);
    if total % N == 1 {
      NodesUnique(m, total / N);
    }
  }

  // -------------------------------------------------- which writes are kept

  /** The writes that are kept entirely, in terms of what is known before the call: `count` bytes at `start` of a
      file of `size` bytes in nodes `index`, where the `j`th new node would go to `place(j)`. A write within the
      nodes is kept. One that needs new nodes must not begin beyond the last one, must not end one byte into a new
      one, and must not leave a gap in the last one, unless a new node on the same device closes it. */
  ghost predicate Fits(size: nat, index: seq<Node>, start: nat, count: nat, place: nat -> Place) {
    var edge := |index| * N;
    if count == 0 then start <= size
    else if start + count <= edge then true
    else
      && start <= edge && (start + count) % N != 1
      && (start < edge || size == edge || Closes(index, start + count - edge, place))
  }

  /** One of the new nodes for `count` bytes goes to the device of the last node. */
  ghost predicate Closes(index: seq<Node>, count: nat, place: nat -> Place) {
    index != [] && exists j :: 0 <= j < NodesFor(count) && place(j) == index[|index| - 1].place
  }

  /** The devices and contents as if the last window had been filled up. */
  lemma Align(dev: Devices, index: seq<Node>, c: seq<Byte>) returns (pad: Devices, c': seq<Byte>, lp: Place, n: nat)
    requires Rep(dev, index, c)
    ensures Rep(pad, index, c') && |c'| == |index| * N && Shadow(dev, pad, lp, n)
    ensures |c| <= |index| * N && c' == ZeroTo(c, |index| * N)
    ensures |c| == |index| * N ==> pad == dev
    ensures |c| < |index| * N ==> pad != dev && Ends(dev, index, c, lp)
  {
    hide Pwrite, Rep, ZeroTo;
    RepLaid(dev, index, c);
    if |c| == |index| * N {
      ZeroToSame(c);
      return dev, c, Fast, 0;
    }
    EndsLast(dev, index, c);
    var last := index[|index| - 1];
    lp, n := last.place, last.offset + N;
    PadLast(dev, index, c);
    pad, c' := dev.With(lp, ZeroTo(dev.At(lp), n)), ZeroTo(c, |index| * N);
  }

  lemma ZeroToSame(c: seq<Byte>)
    ensures ZeroTo(c, |c|) == c
  {
  }

  /** The contents end inside the last node, where its device `lp` ends. */
  ghost predicate Ends(dev: Devices, index: seq<Node>, c: seq<Byte>, lp: Place) {
    && index != [] && (|index| - 1) * N < |c| < |index| * N
    && var last := index[|index| - 1];
      lp == last.place && last.offset >= 0 && last.offset % N == 0 && last.start == (|index| - 1) * N
      && |dev.At(lp)| == last.offset + (|c| - last.start)
  }

  lemma EndsLast(dev: Devices, index: seq<Node>, c: seq<Byte>)
    requires Rep(dev, index, c) && |c| < |index| * N
    ensures Ends(dev, index, c, index[|index| - 1].place)
  {
  }

  lemma RoundSize(dev: Devices, index: seq<Node>, c: seq<Byte>)
    requires Rep(dev, index, c) && |c| % N == 0
    ensures |index| * N == |c|
  {
    NodesUnique(|c|, |c| / N);
  }

  lemma StrayKeeps(dev: Devices, index0: seq<Node>, index: seq<Node>, start0: nat, m: nat)
    requires Strayed(dev, index0, index, start0, NodesFor(m), m)
    ensures |index0| <= |index| && forall k :: 0 <= k < |index0| ==> index[k] == index0[k]
  {
    assert forall k :: 0 <= k < |index0| ==> index[..|index0|][k] == index0[k];
  }

  /** What becomes of a write that leaves no node out. */
  lemma FlushOutcome(dev0: Devices, dev: Devices, pad: Devices, index0: seq<Node>, index: seq<Node>, c: seq<Byte>,
                     start: nat, buf: seq<Byte>, done: nat, more: nat, place: nat -> Place, lp: Place)
    requires done < |buf| && start + done == |index0| * N && |c| <= |index0| * N && more <= |buf| - done
    requires more == |buf| - done - if (|buf| - done) % N == 1 then 1 else 0
    requires var c1 := Pwrite(c, buf[..done], start);
      && |c1| <= |index0| * N
      && Rep(pad, index, Pwrite(ZeroTo(c1, |index0| * N), buf[done..][..more], |index0| * N))
      && (|c1| < |index0| * N ==> Ends(dev0, index0, c1, lp))
      && if |c1| == |index0| * N || exists j :: 0 <= j < NodesFor(more) && place(j) == lp
         then pad == dev else dev.At(lp) == dev0.At(lp)
    requires Strayed(dev, index0, index, start + done, NodesFor(more), more)
    ensures Fits(|c|, index0, start, |buf|, place) ==> Rep(dev, index, Pwrite(c, buf, start)) && done + more == |buf|
    ensures !Fits(|c|, index0, start, |buf|, place) ==> Torn(dev, index, start + |buf|)
  {
    hide Rep, Pwrite, Strayed, Torn, Laid, ZeroTo;
    var edge, c1, rest := |index0| * N, Pwrite(c, buf[..done], start), buf[done..];
    var c3 := Pwrite(ZeroTo(c1, edge), rest[..more], edge);
    RepLaid(pad, index, c3);
    if (start + |buf|) % N == 1 {
      RoundSize(pad, index, c3);
      TornTail(dev, index, start + |buf|);
    } else {
      assert rest[..more] == rest && buf[..done] + rest == buf;
      ZeroToWrite(c1, edge, rest);
      PwriteTwice(c, buf[..done], rest, start);
      if !(|c1| == edge || exists j :: 0 <= j < NodesFor(more) && place(j) == lp) {
        if done == 0 { WriteNone(c, buf[..0], start); }
        StrayKeeps(dev, index0, index, start + done, more);
        TornGap(dev, index, |index0| - 1, |c|, start + |buf|);
      }
    }
  }

  /** The writes that are kept entirely whatever the placements. */
  predicate Unconditional(size: nat, start: nat, count: nat) {
    var edge := NodesFor(size) * N;
    if count == 0 then start <= size
    else start + count <= edge || ((start < edge || start <= size) && (start + count) % N != 1)
  }

  lemma KeptAnywhere(size: nat, index: seq<Node>, start: nat, count: nat)
    requires |index| == NodesFor(size)
    ensures Unconditional(size, start, count) <==> forall place :: Fits(size, index, start, count, place)
  {
    var edge := |index| * N;
    if !Unconditional(size, start, count) {
      var away: nat -> Place := _ => if index != [] && index[|index| - 1].place == Fast then Slow else Fast;
      assert !Fits(size, index, start, count, away);
    }
  }

  /** A file of one byte more than a node, written at once: the last byte is lost. */
  lemma LostByte(place: nat -> Place)
    ensures !Fits(0, [], 0, N + 1, place) && Fits(0, [], 0, N, place) && Fits(0, [], 0, N + 2, place)
  {
  }

  // ------------------------------------------------------------- whole runs

  datatype Op =
    | ReadOp(count: nat, offset: int)
    | WriteOp(buf: seq<Byte>, offset: int, place: nat -> Place)
    | AppendOp(buf: seq<Byte>, offset: int, place: nat -> Place)

  /** A plain file with a position. */
  datatype Plain = Plain(c: seq<Byte>, off: nat) {
    /** Where an operation takes place. */
    function At(op: Op): nat {
      if op.AppendOp? then |c| else if op.offset < 0 then off else op.offset
    }

    /** What an operation transfers. */
    function Moved(op: Op): seq<Byte> {
      if op.ReadOp? then Pread(c, op.count, At(op)) else op.buf
    }

    function Next(op: Op): Plain {
      Plain(if op.ReadOp? then c else Pwrite(c, op.buf, At(op)), if op.offset < 0 then off + |Moved(op)| else off)
    }

    /** Every write of the run is one that is kept. */
    predicate AllKept(ops: seq<Op>)
      decreases |ops|
    {
      ops == [] || ((ops[0].ReadOp? || Unconditional(|c|, At(ops[0]), |ops[0].buf|)) && Next(ops[0]).AllKept(ops[1..]))
    }

    function Outputs(ops: seq<Op>): seq<seq<Byte>>
      decreases |ops|
    {
      if ops == [] then [] else [Moved(ops[0])] + Next(ops[0]).Outputs(ops[1..])
    }

    function AfterAll(ops: seq<Op>): Plain
      decreases |ops|
    {
      if ops == [] then this else Next(ops[0]).AfterAll(ops[1..])
    }
  }

  /** A run begins with its first operation. */
  lemma RunFirst(p: Plain, ops: seq<Op>, i: nat, outs: seq<seq<Byte>>)
    requires i < |ops| && p.AllKept(ops[i..])
    ensures ops[i].ReadOp? || Unconditional(|p.c|, p.At(ops[i]), |ops[i].buf|)
    ensures p.Next(ops[i]).AllKept(ops[i + 1..])
    ensures outs + p.Outputs(ops[i..]) == outs + [p.Moved(ops[i])] + p.Next(ops[i]).Outputs(ops[i + 1..])
    ensures p.AfterAll(ops[i..]) == p.Next(ops[i]).AfterAll(ops[i + 1..])
  {
    hide Unconditional, Plain.At, Plain.Next, Plain.Moved;
    assert ops[i..][1..] == ops[i + 1..];
  }

  lemma RunLast(p: Plain, ops: seq<Op>)
    requires |ops| == 0
    ensures p.Outputs(ops) == [] && p.AfterAll(ops) == p
  {
  }

  /** How many of `count` bytes at `start` are beyond the last of `m` nodes. */
  function Beyond(m: nat, start: nat, count: nat): nat {
    count - Max(0, Min(count, m * N - start))
  }

  lemma IndexSize(dev: Devices, index: seq<Node>, c: seq<Byte>)
    requires Rep(dev, index, c)
    ensures |index| == NodesFor(|c|)
  {
  }

  class File {
    var dev: Devices
    var index: seq<Node>
    var size: nat
    var off: nat

    /** The split file stands for the plain file `c`. */
    ghost predicate Is(c: seq<Byte>)
      reads this
    {
      Rep(dev, index, c) && size == |c|
    }

    /** Its windows are where they should be. */
    ghost predicate Neat()
      reads this
    {
      Snug(dev, index)
    }

    constructor ()
      ensures Is([]) && Neat() && off == 0
    {
      dev, index, size, off := Devices([], []), [], 0, 0;
    }

    /** Reads up to `count` bytes at `offset`, or at the file position when `offset` is negative. */
    method Read(count: nat, offset: int, ghost c: seq<Byte>) returns (buf: seq<Byte>)
      requires Is(c)
      modifies this`off
      ensures buf == Pread(c, count, if offset < 0 then old(off) else offset)
      ensures off == if offset < 0 then old(off) + |buf| else old(off)
    {
      hide Rep, Laid, Pread, Lookup, NodesFor;
      RepLaid(dev, index, c);
      var start := if offset < 0 then off else offset;
      var end := start + count - 1;
      ghost var start0 := start;
      buf := [];
      PreadNone(c, start);
      var k := Lookup(index, 0, start, end);
      LookupFirst(index, start, end);
      while k < |index|
        invariant k <= |index| && start0 <= start <= end + 1
        invariant buf == Pread(c, start - start0, start0)
        invariant off == if offset < 0 then old(off) + |buf| else old(off)
        invariant k < |index| ==> index[k].start == k * N <= start < (k + 1) * N
        invariant k == |index| ==> start == end + 1 || |index| * N <= start
        decreases |index| - k
      {
        var n := index[k];
        var nodeEnd := n.start + N - 1;
        var bufCount := if nodeEnd < end then nodeEnd - start + 1 else end - start + 1;
        var got := Pread(dev.At(n.place), bufCount, n.offset + (start - n.start));
        ReadInNode(dev, index, c, k, bufCount, start);
        PreadSplit(c, start - start0, bufCount, start0);
        if offset < 0 {
          off := off + |got|;
        }
        buf := buf + got;
        start := if nodeEnd < end then nodeEnd + 1 else end + 1;
        LookupNext(index, k, start, end);
        k := Lookup(index, k + 1, start, end);
      }
      PreadEnd(c, start - start0, count, start0);
    }

    /** The part of a write that falls in existing nodes. */
    method Overwrite(start0: nat, buf: seq<Byte>, sequential: bool, ghost c: seq<Byte>) returns (copied: nat)
      requires Rep(dev, index, c)
      modifies this`dev, this`off
      ensures (old(Neat()) ==> Neat()) && copied <= |buf| && Rep(dev, index, Pwrite(c, buf[..copied], start0))
      ensures copied == Max(0, Min(|buf|, |index| * N - start0))
      ensures off == if sequential then old(off) + copied else old(off)
    {
      hide Rep, Laid, Pwrite, Lookup, NodesFor, Snug;
      RepLaid(dev, index, c);
      var start, end := start0, start0 + |buf| - 1;
      copied := 0;
      WriteNone(c, buf[..0], start0);
      var k := Lookup(index, 0, start, end);
      LookupFirst(index, start, end);
      while k < |index|
        invariant k <= |index| && copied <= |buf| && start == start0 + copied
        invariant Rep(dev, index, Pwrite(c, buf[..copied], start0)) && (old(Neat()) ==> Neat())
        invariant off == if sequential then old(off) + copied else old(off)
        invariant k < |index| ==> index[k].start == k * N <= start < (k + 1) * N
        invariant k == |index| ==>
          (copied > 0 && start == |index| * N) || start == end + 1 || (copied == 0 && |index| * N <= start)
        invariant copied > 0 ==> start <= |index| * N
        decreases |index| - k
      {
        var n := index[k];
        var nodeEnd := n.start + N - 1;
        var bufCount := if nodeEnd < end then nodeEnd - start + 1 else end - start + 1;
        var piece := buf[copied..copied + bufCount];
        ghost var dev0 := dev;
        dev := dev.With(n.place, Pwrite(dev.At(n.place), piece, n.offset + (start - n.start)));
        SnugWrite(dev0, index, k, piece, start - n.start);
        WritePiece(dev0, dev, index, c, buf, start0, copied, bufCount, k);
        if sequential {
          off := off + bufCount;
        }
        copied := copied + bufCount;
        start := if nodeEnd < end then nodeEnd + 1 else end + 1;
        LookupNext(index, k, start, end);
        k := Lookup(index, k + 1, start, end);
      }
    }

    /** The part of a write beyond the last node: new nodes, while more than one byte is left. With no gap before
        `start0`, `pad` is what the devices would hold had the last window been filled up with zeros; with a gap,
        the nodes are as `Strayed` says. */
    method Grow(start0: nat, rest: seq<Byte>, sequential: bool, place: nat -> Place,
                ghost c: seq<Byte>, ghost pad0: Devices, ghost lp: Place, ghost n: nat)
      returns (copied: nat, ghost pad: Devices)
      requires |index| * N <= start0
      requires start0 == |index| * N ==> |c| == start0 && Rep(pad0, index, c) && Shadow(dev, pad0, lp, n)
      modifies this`dev, this`index, this`off
      ensures copied == |rest| - if |rest| % N == 1 then 1 else 0
      ensures (old(Neat()) ==> Neat()) && NewNodes(old(index), index, place)
      ensures off == if sequential then old(off) + copied else old(off)
      ensures start0 == |old(index)| * N ==> Rep(pad, index, Pwrite(c, rest[..copied], start0))
      ensures start0 == |old(index)| * N ==>
        if pad0 == old(dev) || exists j :: 0 <= j < NodesFor(copied) && place(j) == lp
        then pad == dev else dev.At(lp) == old(dev.At(lp))
      ensures Strayed(dev, old(index), index, start0, NodesFor(copied), copied)
    {
      hide Rep, Pwrite, Strayed, Shadow, NextPad, RoundUp, NodesFor, Snug, NewNodes;
      NewNodesNone(index, place);
      copied, pad := 0, pad0;
      var start, end := start0, start0 + |rest| - 1;
      var j := 0;
      ghost var flush, closed := start0 == |index| * N, pad0 == dev;
      WriteNone(c, rest[..0], start0);
      StrayNone(dev, index, start0);
      while start < end
        invariant copied == Min(j * N, |rest|) && (j > 0 ==> (j - 1) * N + 2 <= |rest|) && start == start0 + copied
        invariant off == if sequential then old(off) + copied else old(off)
        invariant Strayed(dev, old(index), index, start0, j, copied)
        invariant (old(Neat()) ==> Neat()) && |index| == |old(index)| + j && NewNodes(old(index), index, place)
        invariant flush ==> start0 + j * N == |index| * N
        invariant flush ==> Rep(pad, index, Pwrite(c, rest[..copied], start0)) && Shadow(dev, pad, lp, n)
        invariant closed <==> pad0 == old(dev) || exists i :: 0 <= i < j && place(i) == lp
        invariant flush ==> if closed then pad == dev else dev.At(lp) == old(dev.At(lp))
        decreases end - start
      {
        var bufCount := if end - start + 1 > N then N else end - start + 1;
        var p := place(j);
        var offset := RoundUp(|dev.At(p)|);
        var piece := rest[copied..copied + bufCount];
        SnugGrow(dev, index, p, piece, start - start % N);
        StrayStep(dev, old(index), index, start0, j, p, piece);
        if flush {
          GrowPiece(dev, pad, lp, n, index, c, rest, bufCount, p, j);
        }
        pad := NextPad(dev, pad, lp, p, piece);
        dev := dev.With(p, Pwrite(dev.At(p), piece, offset));
        NewNodesNext(old(index), index, Node(start - start % N, p, offset), place);
        index := index + [Node(start - start % N, p, offset)];
        closed := closed || p == lp;
        if sequential {
          off := off + bufCount;
        }
        copied := copied + bufCount;
        start := start + bufCount;
        j := j + 1;
      }
      Leftover(|rest|, j);
    }

    /** Writes `buf` at `start`: first into existing nodes, then into new ones. */
    method WriteAt(start: nat, buf: seq<Byte>, sequential: bool, place: nat -> Place, ghost c: seq<Byte>)
      returns (copied: nat)
      requires Is(c)
      modifies this
      ensures (old(Neat()) ==> Neat()) && NewNodes(old(index), index, place) && size == Max(old(size), start + |buf|)
      ensures copied == |buf| - if Beyond(|old(index)|, start, |buf|) % N == 1 then 1 else 0
      ensures Fits(|c|, old(index), start, |buf|, place) ==> Is(Pwrite(c, buf, start)) && copied == |buf|
      ensures !Fits(|c|, old(index), start, |buf|, place) ==> Torn(dev, index, size) && forall d :: !Is(d)
      ensures off == if sequential then old(off) + copied else old(off)
    {
      hide Rep, Pwrite, Shadow, Strayed, Torn, Snug;
      RepLaid(dev, index, c);
      copied := Overwrite(start, buf, sequential, c);
      if copied < |buf| {
        copied := Extend(start, buf, copied, sequential, place, c);
      } else {
        assert buf[..copied] == buf;
        if |buf| == 0 && start > |c| {
          WriteNone(c, buf, start);
          TornEnd(dev, index, c, start);
        }
      }
      if start + |buf| > size {
        size := start + |buf|;
      }
      if !Fits(|c|, old(index), start, |buf|, place) {
        forall d | |d| == size ensures !Rep(dev, index, d) {
          TornIsNoFile(dev, index, d);
        }
      }
    }

    /** The part of a write that needs new nodes. */
    method Extend(start: nat, buf: seq<Byte>, done: nat, sequential: bool, place: nat -> Place, ghost c: seq<Byte>)
      returns (copied: nat)
      requires done < |buf| && done == Max(0, |index| * N - start) && Rep(dev, index, Pwrite(c, buf[..done], start))
      requires |c| <= |index| * N
      modifies this`dev, this`index, this`off
      ensures (old(Neat()) ==> Neat()) && NewNodes(old(index), index, place)
      ensures copied == |buf| - if (|buf| - done) % N == 1 then 1 else 0
      ensures Fits(|c|, old(index), start, |buf|, place) ==> Rep(dev, index, Pwrite(c, buf, start)) && copied == |buf|
      ensures !Fits(|c|, old(index), start, |buf|, place) ==> Torn(dev, index, start + |buf|)
      ensures off == old(off) + if sequential then copied - done else 0
    {
      hide Rep, Pwrite, Shadow, Strayed, Torn, Laid, Snug;
      ghost var c1, edge := Pwrite(c, buf[..done], start), |index| * N;
      ghost var pad0, c2, lp, n := Align(dev, index, c1);
      RepLaid(dev, index, c1);
      if done == 0 { WriteNone(c, buf[..0], start); }
      var more;
      ghost var pad;
      more, pad := Grow(start + done, buf[done..], sequential, place, c2, pad0, lp, n);
      copied := done + more;
      if start > edge {
        TornStray(dev, old(index), index, start, |buf|);
      } else {
        FlushOutcome(old(dev), dev, pad, old(index), index, c, start, buf, done, more, place, lp);
      }
    }

    method Write(buf: seq<Byte>, offset: int, place: nat -> Place, ghost c: seq<Byte>) returns (copied: nat)
      requires Is(c)
      modifies this
      ensures (old(Neat()) ==> Neat()) && NewNodes(old(index), index, place)
      ensures var start := if offset < 0 then old(off) else offset;
        && size == Max(old(size), start + |buf|)
        && copied == |buf| - (if Beyond(|old(index)|, start, |buf|) % N == 1 then 1 else 0)
        && (Fits(|c|, old(index), start, |buf|, place) ==> Is(Pwrite(c, buf, start)) && copied == |buf|)
        && (!Fits(|c|, old(index), start, |buf|, place) ==> Torn(dev, index, size) && forall d :: !Is(d))
      ensures off == if offset < 0 then old(off) + copied else old(off)
    {
      copied := WriteAt(if offset < 0 then off else offset, buf, offset < 0, place, c);
    }

    method Append(buf: seq<Byte>, offset: int, place: nat -> Place, ghost c: seq<Byte>) returns (copied: nat)
      requires Is(c)
      modifies this
      ensures (old(Neat()) ==> Neat()) && NewNodes(old(index), index, place) && size == old(size) + |buf|
      ensures copied == |buf| - if Beyond(|old(index)|, |c|, |buf|) % N == 1 then 1 else 0
      ensures Fits(|c|, old(index), |c|, |buf|, place) ==> Is(Pwrite(c, buf, |c|)) && copied == |buf|
      ensures !Fits(|c|, old(index), |c|, |buf|, place) ==> Torn(dev, index, size) && forall d :: !Is(d)
      ensures off == if offset < 0 then old(off) + copied else old(off)
    {
      copied := WriteAt(size, buf, offset < 0, place, c);
    }

    /** One operation of a run. */
    method Step(op: Op, ghost p: Plain) returns (moved: seq<Byte>)
      requires Is(p.c) && off == p.off
      requires op.ReadOp? || Unconditional(|p.c|, p.At(op), |op.buf|)
      modifies this
      ensures old(Neat()) ==> Neat()
      ensures if op.ReadOp? then index == old(index) else NewNodes(old(index), index, op.place)
      ensures Is(p.Next(op).c) && off == p.Next(op).off && moved == p.Moved(op)
    {
      hide Rep, Pwrite, Pread, Fits, Unconditional;
      if op.ReadOp? {
        moved := Read(op.count, op.offset, p.c);
        return;
      }
      IndexSize(dev, index, p.c);
      KeptAnywhere(|p.c|, index, p.At(op), |op.buf|);
      var n;
      if op.WriteOp? {
        n := Write(op.buf, op.offset, op.place, p.c);
      } else {
        n := Append(op.buf, op.offset, op.place, p.c);
      }
      moved := op.buf[..n];
    }

    /** Every run of kept operations moves the bytes that a plain file would and ends as that file, whatever the
        placements. */
    method Run(ops: seq<Op>, ghost p: Plain) returns (outs: seq<seq<Byte>>)
      requires Is(p.c) && off == p.off && p.AllKept(ops)
      modifies this
      ensures old(Neat()) ==> Neat()
      ensures outs == p.Outputs(ops) && Is(p.AfterAll(ops).c) && off == p.AfterAll(ops).off
    {
      hide Is, Neat, NewNodes, Unconditional, Plain.At, Plain.Next, Plain.Moved, Plain.AllKept, Plain.Outputs,
           Plain.AfterAll;
      ghost var q := p;
      outs := [];
      assert ops[0..] == ops;
      for i := 0 to |ops|
        invariant Is(q.c) && (old(Neat()) ==> Neat()) && off == q.off && q.AllKept(ops[i..])
        invariant outs + q.Outputs(ops[i..]) == p.Outputs(ops) && q.AfterAll(ops[i..]) == p.AfterAll(ops)
      {
        RunFirst(q, ops, i, outs);
        var moved := Step(ops[i], q);
        q := q.Next(ops[i]);
        outs := outs + [moved];
      }
      RunLast(q, ops[|ops|..]);
    }
  }
}
