/** Runs of a split file: every byte read is the last one written there. */
module DirectRuns {
  import opened Common
  import opened SplitFile
  import opened DirectIo

  /** The size of a file and the position in it. */
  datatype Extent = Extent(size: nat, off: nat) {
    /** Where an operation takes place. */
    function At(op: Op): nat {
      match op
      case AppendOp(_, _, _) => size
      case _ => if op.offset < 0 then off else op.offset
    }

    /** How many bytes it transfers. */
    function Count(op: Op): nat {
      match op
      case ReadOp(count, _) => Max(0, Min(count, size - At(op)))
      case WriteOp(buf, _, _) => |buf|
      case AppendOp(buf, _, _) => |buf|
    }

    function Next(op: Op): Extent {
      Extent(if op.ReadOp? || op.buf == [] then size else Max(size, At(op) + |op.buf|),
             if op.offset < 0 then off + Count(op) else off)
    }
  }

  /** The extent after `n` operations. */
  function ExtentAfter(e: Extent, ops: seq<Op>, n: nat): Extent
    requires n <= |ops|
  {
    if n == 0 then e else ExtentAfter(e, ops, n - 1).Next(ops[n - 1])
  }

  /** Operation `i` writes position `x`. */
  predicate WritesAt(e: Extent, ops: seq<Op>, i: nat, x: nat) {
    && i < |ops| && !ops[i].ReadOp?
    && var at := ExtentAfter(e, ops, i).At(ops[i]); at <= x < at + |ops[i].buf|
  }

  /** The byte it writes there. */
  function Written(e: Extent, ops: seq<Op>, i: nat, x: nat): Byte
    requires WritesAt(e, ops, i, x)
  {
    ops[i].buf[x - ExtentAfter(e, ops, i).At(ops[i])]
  }

  /** The plain file after `n` operations. */
  ghost function PlainAfter(p: Plain, ops: seq<Op>, n: nat): Plain
    requires n <= |ops|
  {
    p.AfterAll(ops[..n])
  }

  lemma {:induction false} OneMore(p: Plain, ops: seq<Op>, n: nat)
    requires 0 < n <= |ops|
    ensures PlainAfter(p, ops, n) == PlainAfter(p, ops, n - 1).Next(ops[n - 1])
    decreases n
  {
    var q, rest := p.Next(ops[0]), ops[1..];
    assert ops[..n][1..] == rest[..n - 1];
    if n > 1 {
      OneMore(q, rest, n - 1);
      assert ops[..n - 1][1..] == rest[..n - 2];
    } else {
      assert ops[..n][1..] == [] && ops[..0] == [] && ops[..n][0] == ops[0];
      assert q.AfterAll([]) == q && p.AfterAll([]) == p;
    }
  }

  lemma {:induction false} OutputAt(p: Plain, ops: seq<Op>, n: nat)
    requires n < |ops|
    ensures |p.Outputs(ops)| == |ops| && p.Outputs(ops)[n] == PlainAfter(p, ops, n).Moved(ops[n])
    decreases |ops|
  {
    var q, rest := p.Next(ops[0]), ops[1..];
    if n > 0 {
      OutputAt(q, rest, n - 1);
      assert ops[..n][1..] == rest[..n - 1];
    } else if rest != [] {
      OutputAt(q, rest, 0);
    }
  }

  lemma NextExtent(p: Plain, op: Op)
    ensures Extent(|p.Next(op).c|, p.Next(op).off) == Extent(|p.c|, p.off).Next(op)
  {
  }

  lemma {:induction false} Extents(p: Plain, ops: seq<Op>, n: nat)
    requires n <= |ops|
    ensures Extent(|PlainAfter(p, ops, n).c|, PlainAfter(p, ops, n).off) == ExtentAfter(Extent(|p.c|, p.off), ops, n)
  {
    hide Pwrite;
    if n > 0 {
      Extents(p, ops, n - 1);
      OneMore(p, ops, n);
      NextExtent(PlainAfter(p, ops, n - 1), ops[n - 1]);
    } else {
      assert ops[..0] == [];
    }
  }

  lemma NextByte(p: Plain, op: Op, x: nat)
    requires x < |p.Next(op).c|
    ensures var at := Extent(|p.c|, p.off).At(op);
      p.Next(op).c[x] == if !op.ReadOp? && at <= x < at + |op.buf| then op.buf[x - at]
        else if x < |p.c| then p.c[x] else 0
  {
    hide Pwrite;
    if !op.ReadOp? {
      PwriteAt(p.c, op.buf, p.At(op), x);
    }
  }

  /** A byte of the file after `n` operations is what the last one to write it wrote. */
  lemma {:induction false} LastWriter(p: Plain, ops: seq<Op>, n: nat, i: nat, x: nat)
    requires i < n <= |ops| && WritesAt(Extent(|p.c|, p.off), ops, i, x)
    requires forall j :: i < j < n ==> !WritesAt(Extent(|p.c|, p.off), ops, j, x)
    ensures x < |PlainAfter(p, ops, n).c|
    ensures PlainAfter(p, ops, n).c[x] == Written(Extent(|p.c|, p.off), ops, i, x)
  {
    hide PlainAfter, Pwrite;
    OneMore(p, ops, n);
    Extents(p, ops, n - 1);
    Extents(p, ops, n);
    if i < n - 1 {
      LastWriter(p, ops, n - 1, i, x);
      assert !WritesAt(Extent(|p.c|, p.off), ops, n - 1, x);
    }
    NextByte(PlainAfter(p, ops, n - 1), ops[n - 1], x);
  }

  /** A byte that none has written is as it was, or zero. */
  lemma {:induction false} NeverWritten(p: Plain, ops: seq<Op>, n: nat, x: nat)
    requires n <= |ops| && x < |PlainAfter(p, ops, n).c|
    requires forall j :: 0 <= j < n ==> !WritesAt(Extent(|p.c|, p.off), ops, j, x)
    ensures PlainAfter(p, ops, n).c[x] == if x < |p.c| then p.c[x] else 0
  {
    hide Pwrite;
    if n > 0 {
      OneMore(p, ops, n);
      Extents(p, ops, n - 1);
      assert !WritesAt(Extent(|p.c|, p.off), ops, n - 1, x);
      NextByte(PlainAfter(p, ops, n - 1), ops[n - 1], x);
      if x < |PlainAfter(p, ops, n - 1).c| {
        NeverWritten(p, ops, n - 1, x);
      } else {
        Shorter(p, ops, n - 1);
      }
    } else {
      assert ops[..0] == [];
    }
  }

  lemma {:induction false} Shorter(p: Plain, ops: seq<Op>, n: nat)
    requires n <= |ops|
    ensures |p.c| <= |PlainAfter(p, ops, n).c|
  {
    hide Pwrite;
    if n > 0 {
      Shorter(p, ops, n - 1);
      OneMore(p, ops, n);
    } else {
      assert ops[..0] == [];
    }
  }

  /** Operation `n` of a run reads position `x`. */
  predicate Reads(e: Extent, ops: seq<Op>, n: nat, x: nat) {
    && n < |ops| && ops[n].ReadOp?
    && var now := ExtentAfter(e, ops, n); now.At(ops[n]) <= x < now.At(ops[n]) + now.Count(ops[n])
  }

  /** The byte that operation `n` of a run returns for position `x` is that of the file then, and it returns all it
      should. */
  lemma ReadsByte(p: Plain, ops: seq<Op>, n: nat, x: nat)
    requires Reads(Extent(|p.c|, p.off), ops, n, x)
    ensures |p.Outputs(ops)| == |ops| && x < |PlainAfter(p, ops, n).c|
    ensures var now := ExtentAfter(Extent(|p.c|, p.off), ops, n);
      && |p.Outputs(ops)[n]| == now.Count(ops[n])
      && p.Outputs(ops)[n][x - now.At(ops[n])] == PlainAfter(p, ops, n).c[x]
  {
    hide PlainAfter, Pwrite, ExtentAfter;
    OutputAt(p, ops, n);
    Extents(p, ops, n);
  }

  /** Every byte that a read of a run returns is what the last operation before it to write that position wrote. */
  lemma ReadsLastWrite(p: Plain, ops: seq<Op>, n: nat, x: nat, i: nat)
    requires Reads(Extent(|p.c|, p.off), ops, n, x) && i < n && WritesAt(Extent(|p.c|, p.off), ops, i, x)
    requires forall j :: i < j < n ==> !WritesAt(Extent(|p.c|, p.off), ops, j, x)
    ensures var now := ExtentAfter(Extent(|p.c|, p.off), ops, n);
      && |p.Outputs(ops)| == |ops| && |p.Outputs(ops)[n]| == now.Count(ops[n])
      && p.Outputs(ops)[n][x - now.At(ops[n])] == Written(Extent(|p.c|, p.off), ops, i, x)
  {
    hide PlainAfter, ExtentAfter;
    ReadsByte(p, ops, n, x);
    LastWriter(p, ops, n, i, x);
  }

  /** If there was none, what the file held at first, and zero after its end. */
  lemma ReadsUnwritten(p: Plain, ops: seq<Op>, n: nat, x: nat)
    requires Reads(Extent(|p.c|, p.off), ops, n, x)
    requires forall j :: 0 <= j < n ==> !WritesAt(Extent(|p.c|, p.off), ops, j, x)
    ensures var now := ExtentAfter(Extent(|p.c|, p.off), ops, n);
      && |p.Outputs(ops)| == |ops| && |p.Outputs(ops)[n]| == now.Count(ops[n])
      && p.Outputs(ops)[n][x - now.At(ops[n])] == if x < |p.c| then p.c[x] else 0
  {
    hide PlainAfter, ExtentAfter;
    ReadsByte(p, ops, n, x);
    NeverWritten(p, ops, n, x);
  }
}
