/** One node of a cached file: its window on a device and its buffer in memory. */
module CachedSlots {
  import opened Common
  import opened SplitFile

  datatype Option<T> = None | Some(value: T)

  /** The node of the bytes from `start` on, of which the first `size` are in use. `buf` is the cache buffer, of N
      bytes; a pristine slot has had it since it was made. */
  datatype Slot = Slot(start: nat, place: Place, offset: nat, size: nat, buf: Option<seq<Byte>>, present: bool,
                       dirty: bool, pristine: bool)

  /** Slot `s`, with its window on `d`, holds `part`: in its buffer if it has one, and on the device unless dirty. */
  ghost predicate Keeps(d: seq<Byte>, s: Slot, part: seq<Byte>) {
    && |part| == s.size <= N
    && (s.buf.Some? <==> s.present) && (s.dirty ==> s.present)
    && (s.present ==> |s.buf.value| == N && s.buf.value[..s.size] == part)
    && (!s.dirty ==> s.offset + s.size <= |d| && d[s.offset..s.offset + s.size] == part)
    && (s.pristine ==> s.present && BlankFrom(s.buf.value, s.size))
  }

  predicate BlankFrom(m: seq<Byte>, n: nat) {
    forall i :: n <= i < |m| ==> m[i] == 0
  }

  predicate Zeros(b: seq<Byte>) {
    BlankFrom(b, 0)
  }

  /** What a write at `rel` exposes between the bytes in use and itself; `garbage` is what the memory of a new buffer
      for the slot holds. */
  function GapOf(s: Slot, garbage: seq<Byte>, rel: nat): seq<Byte> {
    var m := if s.buf.Some? then s.buf.value else garbage;
    if s.size <= rel <= |m| then m[s.size..rel] else []
  }

  /** Memory `garbage` after reading `got` into its beginning. */
  function Over(garbage: seq<Byte>, got: seq<Byte>): seq<Byte>
    requires |got| <= |garbage|
  {
    got + garbage[|got|..]
  }

  /** The slot with a buffer, which a slot without one gets from `garbage` and its window. */
  function Admit(d: seq<Byte>, s: Slot, garbage: seq<Byte>): Slot
    requires |garbage| == N && (s.present || s.size <= N)
  {
    if s.present then s
    else s.(buf := Some(Over(garbage, Pread(d, s.size, s.offset))), present := true)
  }

  lemma AdmitKeeps(d: seq<Byte>, s: Slot, part: seq<Byte>, garbage: seq<Byte>)
    requires Keeps(d, s, part) && |garbage| == N
    ensures Keeps(d, Admit(d, s, garbage), part) && Admit(d, s, garbage).present
  {
    if !s.present {
      assert Pread(d, s.size, s.offset) == part;
      assert Over(garbage, part)[..s.size] == part;
    }
  }

  lemma AdmitGap(d: seq<Byte>, s: Slot, part: seq<Byte>, garbage: seq<Byte>, rel: nat)
    requires Keeps(d, s, part) && |garbage| == N && rel <= N
    ensures GapOf(Admit(d, s, garbage), garbage, rel) == GapOf(s, garbage, rel)
    ensures s.pristine ==> Zeros(GapOf(s, garbage, rel))
    ensures |GapOf(s, garbage, rel)| == Max(0, rel - s.size)
  {
    if !s.present {
      assert Pread(d, s.size, s.offset) == part;
      assert forall i :: s.size <= i < N ==> Over(garbage, part)[i] == garbage[i];
    }
  }

  lemma SameGap(s: Slot, garbage: seq<Byte>, rel: nat)
    requires s.buf.Some?
    ensures GapOf(s, [], rel) == GapOf(s, garbage, rel)
  {
  }

  /** The slot after writing `b` at `rel` into its buffer. */
  function Put(s: Slot, b: seq<Byte>, rel: nat): Slot
    requires s.buf.Some? && |s.buf.value| == N && rel + |b| <= N
  {
    s.(dirty := true, size := Max(s.size, rel + |b|),
       buf := Some(s.buf.value[..rel] + b + s.buf.value[rel + |b|..]))
  }

  /** A write anywhere in a node writes to the node, after what was in the buffer up to there. */
  lemma PutKeeps(d: seq<Byte>, s: Slot, part: seq<Byte>, b: seq<Byte>, rel: nat)
    requires Keeps(d, s, part) && s.present && rel + |b| <= N && b != []
    ensures Keeps(d, Put(s, b, rel), Pwrite(part + GapOf(s, [], rel), b, rel))
  {
    hide Pwrite;
    var s', full := Put(s, b, rel), part + GapOf(s, [], rel);
    var x, y := s'.buf.value[..s'.size], Pwrite(full, b, rel);
    assert |x| == |y|;
    forall i | 0 <= i < |y| ensures x[i] == y[i] {
      PwriteAt(full, b, rel, i);
      if i < s.size {
        assert s.buf.value[..s.size][i] == part[i];
      }
    }
  }

  /** A write that leaves a gap after the bytes in use of a slot without a buffer: the gap then holds whatever the
      memory of the new buffer held. */
  lemma GapShowsMemory(d: seq<Byte>, s: Slot, part: seq<Byte>, garbage: seq<Byte>, b: seq<Byte>, rel: nat, i: nat)
    requires Keeps(d, s, part) && !s.present && |garbage| == N && rel + |b| <= N && s.size <= i < rel
    ensures Put(Admit(d, s, garbage), b, rel).buf.value[i] == garbage[i]
  {
    assert |Pread(d, s.size, s.offset)| == s.size;
  }

  /** A write that begins after the bytes in use does what a plain file would, zeros in the gap included, exactly
      when the buffer happens to hold zeros there. */
  lemma GapExact(d: seq<Byte>, s: Slot, part: seq<Byte>, b: seq<Byte>, rel: nat)
    requires Keeps(d, s, part) && s.present && |part| <= rel && rel + |b| <= N && b != []
    ensures Keeps(d, Put(s, b, rel), Pwrite(part, b, rel)) <==> forall i :: s.size <= i < rel ==> s.buf.value[i] == 0
  {
    hide Pwrite;
    var s', y := Put(s, b, rel), Pwrite(part, b, rel);
    var x := s'.buf.value[..s'.size];
    forall i | 0 <= i < |y|
      ensures y[i] == if rel <= i then b[i - rel] else if i < s.size then part[i] else 0
      ensures x[i] == if rel <= i then b[i - rel] else s.buf.value[i]
    {
      PwriteAt(part, b, rel, i);
    }
    assert forall i :: 0 <= i < s.size ==> s.buf.value[..s.size][i] == s.buf.value[i];
    if forall i :: s.size <= i < rel ==> s.buf.value[i] == 0 {
      assert x == y;
    } else {
      var i :| s.size <= i < rel && s.buf.value[i] != 0;
      assert x[i] != y[i];
    }
  }

  /** What is written back: `size` bytes of memory from the buffer on, and `beyond` is what memory holds after it. */
  function Image(s: Slot, beyond: nat -> Byte): seq<Byte>
    requires s.buf.Some?
  {
    if s.size <= |s.buf.value| then s.buf.value[..s.size]
    else s.buf.value + seq(s.size - |s.buf.value|, i requires 0 <= i => beyond(i))
  }

  /** The device after writing the slot back. */
  function Flushed(d: seq<Byte>, s: Slot, beyond: nat -> Byte): seq<Byte>
    requires s.buf.Some?
  {
    Pwrite(d, Image(s, beyond), s.offset)
  }

  lemma FlushKeeps(d: seq<Byte>, s: Slot, part: seq<Byte>, beyond: nat -> Byte)
    requires Keeps(d, s, part) && s.present && part != []
    ensures Keeps(Flushed(d, s, beyond), s.(dirty := false), part)
  {
    var d' := Flushed(d, s, beyond);
    assert d'[s.offset..s.offset + s.size] == part;
  }

  /** The slot without its buffer. */
  function Dropped(s: Slot): Slot {
    s.(buf := None, present := false, dirty := false, pristine := false)
  }

  lemma DropKeeps(d: seq<Byte>, s: Slot, part: seq<Byte>)
    requires Keeps(d, s, part) && !s.dirty
    ensures Keeps(d, Dropped(s), part)
  {
  }

  /** Writing back another slot of the same device. */
  lemma FlushBeside(d: seq<Byte>, s: Slot, part: seq<Byte>, b: seq<Byte>, off: nat)
    requires Keeps(d, s, part) && |b| <= N && (s.offset + N <= off || off + N <= s.offset)
    ensures Keeps(Pwrite(d, b, off), s, part)
  {
    if !s.dirty && b != [] {
      var d' := Pwrite(d, b, off);
      assert d'[s.offset..s.offset + s.size] == d[s.offset..s.offset + s.size];
    }
  }

  // ------------------------------------------------------------------- parts

  /** The part of `c` that is in node `k`. */
  function Part(c: seq<Byte>, k: nat): seq<Byte>
    requires k * N <= |c|
  {
    c[k * N..Min((k + 1) * N, |c|)]
  }

  /** A write inside node `k` changes that part only. */
  lemma PartPut(c: seq<Byte>, k: nat, b: seq<Byte>, rel: nat)
    requires k < NodesFor(|c|) && b != [] && rel + |b| <= N && k * N + rel <= |c|
    ensures var c' := Pwrite(c, b, k * N + rel);
      && NodesFor(|c'|) == NodesFor(|c|) && Part(c', k) == Pwrite(Part(c, k), b, rel)
      && forall j :: 0 <= j < NodesFor(|c|) && j != k ==> Part(c', j) == Part(c, j)
  {
    var c' := Pwrite(c, b, k * N + rel);
    assert (k + 1) * N <= NodesFor(|c|) * N;
    NodesUnique(|c'|, NodesFor(|c|));
    forall j | 0 <= j < NodesFor(|c|) && j != k ensures Part(c', j) == Part(c, j) {
      PartOther(c, k, b, rel, j);
    }
    PartOwn(c, k, b, rel);
  }

  lemma PartOwn(c: seq<Byte>, k: nat, b: seq<Byte>, rel: nat)
    requires k < NodesFor(|c|) && b != [] && rel + |b| <= N && k * N + rel <= |c|
    ensures Part(Pwrite(c, b, k * N + rel), k) == Pwrite(Part(c, k), b, rel)
  {
    hide Pwrite;
    SlicePut(c, k * N, b, rel);
  }

  lemma SlicePut(c: seq<Byte>, at: nat, b: seq<Byte>, rel: nat)
    requires b != [] && rel + |b| <= N && at + rel <= |c|
    ensures var c' := Pwrite(c, b, at + rel); c'[at..Min(at + N, |c'|)] == Pwrite(c[at..Min(at + N, |c|)], b, rel)
  {
    var c', part := Pwrite(c, b, at + rel), c[at..Min(at + N, |c|)];
    var x, y := c'[at..Min(at + N, |c'|)], Pwrite(part, b, rel);
    assert |x| == |y|;
    forall i | 0 <= i < |y| ensures x[i] == y[i] {
      PutByte(c, at, b, rel, i);
    }
  }

  lemma PutByte(c: seq<Byte>, at: nat, b: seq<Byte>, rel: nat, i: nat)
    requires b != [] && rel + |b| <= N && at + rel <= |c| && i < N && at + i < Max(|c|, at + rel + |b|)
    ensures Pwrite(c, b, at + rel)[at + i] == Pwrite(c[at..Min(at + N, |c|)], b, rel)[i]
  {
    hide Pwrite;
    PwriteAt(c, b, at + rel, at + i);
    PwriteAt(c[at..Min(at + N, |c|)], b, rel, i);
  }

  lemma PartOther(c: seq<Byte>, k: nat, b: seq<Byte>, rel: nat, j: nat)
    requires k < NodesFor(|c|) && b != [] && rel + |b| <= N && k * N + rel <= |c| && j < NodesFor(|c|) && j != k
    ensures Part(Pwrite(c, b, k * N + rel), j) == Part(c, j)
  {
    hide Pwrite;
    NodesEnough(|c|);
    if j < k {
      assert (j + 1) * N <= k * N;
    } else {
      assert (k + 1) * N <= j * N && j * N <= (NodesFor(|c|) - 1) * N;
    }
    SliceKept(c, b, k * N + rel, j * N, Min((j + 1) * N, |c|));
  }

  lemma SliceKept(c: seq<Byte>, b: seq<Byte>, pos: nat, lo: nat, hi: nat)
    requires lo <= hi <= |c| && (pos + |b| <= lo || hi <= pos)
    ensures |c| <= |Pwrite(c, b, pos)| && Pwrite(c, b, pos)[lo..hi] == c[lo..hi]
  {
    hide Pwrite;
    forall i | lo <= i < hi ensures i < |Pwrite(c, b, pos)| && Pwrite(c, b, pos)[i] == c[i] {
      PwriteAt(c, b, pos, i);
    }
  }

  /** Bytes added in the last node. */
  lemma PartGap(c: seq<Byte>, gap: seq<Byte>, k: nat)
    requires k < NodesFor(|c|) && (gap == [] || |c| + |gap| <= (k + 1) * N)
    ensures k * N <= |c| && NodesFor(|c + gap|) == NodesFor(|c|)
    ensures Part(c + gap, k) == Part(c, k) + gap
    ensures forall j :: 0 <= j < NodesFor(|c|) && j != k ==> j * N <= |c| && Part(c + gap, j) == Part(c, j)
  {
    hide NodesFor, Part;
    NodesEnough(|c|);
    assert k * N <= (NodesFor(|c|) - 1) * N;
    if gap == [] {
      assert c + gap == c && Part(c, k) + gap == Part(c, k);
    } else {
      NodesUnique(|c + gap|, NodesFor(|c|));
      PartLast(c, gap, k);
    }
    forall j | 0 <= j < NodesFor(|c|) && j != k ensures j * N <= |c| && Part(c + gap, j) == Part(c, j) {
      assert j * N <= (NodesFor(|c|) - 1) * N && (j < k ==> (j + 1) * N <= k * N) && (j > k ==> (k + 1) * N <= j * N);
      if gap != [] {
        PartBefore(c, gap, j);
      }
    }
  }

  lemma PartLast(c: seq<Byte>, gap: seq<Byte>, k: nat)
    requires k * N <= |c| && |c| + |gap| <= (k + 1) * N
    ensures Part(c + gap, k) == Part(c, k) + gap
  {
  }

  lemma PartBefore(c: seq<Byte>, gap: seq<Byte>, k: nat)
    requires (k + 1) * N <= |c|
    ensures Part(c + gap, k) == Part(c, k)
  {
  }

  /** A new node at the end of a file that fills its nodes. */
  lemma PartNew(c: seq<Byte>, b: seq<Byte>, n: nat)
    requires |c| == n * N && 0 < |b| <= N
    ensures var c' := Pwrite(c, b, |c|);
      && NodesFor(|c'|) == n + 1 && Part(c', n) == b
      && forall j :: 0 <= j < n ==> j * N <= |c| && Part(c', j) == Part(c, j)
  {
    var c' := Pwrite(c, b, |c|);
    NodesUnique(|c'|, n + 1);
    forall j | 0 <= j < n ensures j * N <= |c| && Part(c', j) == Part(c, j) {
      assert (j + 1) * N <= n * N;
    }
  }

  /** Reading inside node `k` reads that part. */
  lemma PartGet(c: seq<Byte>, k: nat, rel: nat, count: nat)
    requires k < NodesFor(|c|) && rel + count <= N
    ensures Pread(c, count, k * N + rel) == Pread(Part(c, k), count, rel)
  {
    hide Pread;
    NodesEnough(|c|);
    assert k * N <= (NodesFor(|c|) - 1) * N;
    SliceGet(c, k * N, rel, count);
  }

  /** Bytes of a buffer that begins with `part` begin with bytes of `part`. */
  lemma BufferGet(buf: seq<Byte>, part: seq<Byte>, rel: nat, count: nat)
    requires |part| <= |buf| && buf[..|part|] == part && rel + count <= |buf|
    ensures Pread(part, count, rel) <= buf[rel..rel + count]
  {
    var x, y := Pread(part, count, rel), buf[rel..rel + count];
    forall i | 0 <= i < |x| ensures x[i] == y[i] {
      assert x[i] == part[rel + i] == buf[..|part|][rel + i];
    }
  }

  lemma SliceGet(c: seq<Byte>, at: nat, rel: nat, count: nat)
    requires at <= |c| && rel + count <= N
    ensures Pread(c, count, at + rel) == Pread(c[at..Min(at + N, |c|)], count, rel)
  {
    var part := c[at..Min(at + N, |c|)];
    var x, y := Pread(c, count, at + rel), Pread(part, count, rel);
    assert |x| == |y|;
    forall i | 0 <= i < |y| ensures x[i] == y[i] {
      assert x[i] == c[Min(at + rel, |c|) + i] && y[i] == part[Min(rel, |part|) + i];
    }
  }
}
