/** Runs of a cached file: the steps of readers, writers and background work in any order, and what they read. */
module CachedRuns {
  import opened Common
  import opened SplitFile
  import opened CachedSlots
  import opened CachedView

  // ------------------------------------------------------------------- steps

  /** A reader takes bytes of a slot, a writer changes some or adds a slot, or background work is done. */
  datatype Step =
    | GetStep(k: nat, rel: nat, count: nat, garbage: seq<Byte>)
    | SetStep(k: nat, rel: nat, b: seq<Byte>, garbage: seq<Byte>)
    | AddStep(place: Place, b: seq<Byte>)
    | ActStep(act: Act)

  /** The step is within the file `c`, or extends it without a gap. */
  predicate Enabled(c: seq<Byte>, step: Step) {
    match step
    case GetStep(k, rel, count, garbage) =>
      k < NodesFor(|c|) && rel + count <= N && k * N + rel + count <= |c| && |garbage| == N
    case SetStep(k, rel, b, garbage) =>
      k < NodesFor(|c|) && b != [] && rel + |b| <= N && k * N + rel <= |c| && |garbage| == N
    case AddStep(_, b) => |c| == NodesFor(|c|) * N && 0 < |b| <= N
    case ActStep(_) => true
  }

  function After(c: seq<Byte>, step: Step): seq<Byte> {
    match step
    case SetStep(k, rel, b, _) => Pwrite(c, b, k * N + rel)
    case AddStep(_, b) => Pwrite(c, b, |c|)
    case _ => c
  }

  function Output(c: seq<Byte>, step: Step): seq<Byte> {
    if step.GetStep? then Pread(c, step.count, step.k * N + step.rel) else []
  }

  /** The file after all steps. */
  function AfterAll(c: seq<Byte>, steps: seq<Step>): seq<Byte> {
    if steps == [] then c else After(AfterAll(c, steps[..|steps| - 1]), steps[|steps| - 1])
  }

  /** State `i` of a run stands for the file after the first `i` steps. */
  ghost predicate StandsAt(trace: seq<View>, c: seq<Byte>, steps: seq<Step>, i: nat) {
    i < |trace| && i <= |steps| && Sane(trace[i], AfterAll(c, steps[..i]))
  }

  /** Step `i` of a run is enabled. */
  predicate EnabledAt(c: seq<Byte>, steps: seq<Step>, i: nat) {
    i < |steps| && Enabled(AfterAll(c, steps[..i]), steps[i])
  }

  /** Where a step adds a node, if it does. */
  function Adds(step: Step): seq<Place> {
    if step.AddStep? then [step.place] else []
  }

  /** Step `i` of a run returns what the plain file would, adds a node where it should, and does what it says if it is a
      background action. */
  ghost predicate StepsAt(trace: seq<View>, c: seq<Byte>, steps: seq<Step>, outs: seq<seq<Byte>>, i: nat) {
    && i < |steps| && i < |outs| && i + 1 < |trace|
    && outs[i] == Output(AfterAll(c, steps[..i]), steps[i])
    && Places(trace[i + 1].slots) == Places(trace[i].slots) + Adds(steps[i])
    && (steps[i].ActStep? ==> Done(trace[i], steps[i].act, trace[i + 1]))
  }

  ghost predicate Ran(trace: seq<View>, c: seq<Byte>, steps: seq<Step>, outs: seq<seq<Byte>>, n: nat) {
    && |trace| == n + 1 && |outs| == n <= |steps|
    && (forall i :: 0 <= i <= n ==> StandsAt(trace, c, steps, i))
    && (forall i :: 0 <= i < n ==> StepsAt(trace, c, steps, outs, i))
  }

  lemma RanNone(v: View, c: seq<Byte>, steps: seq<Step>)
    requires Sane(v, c)
    ensures Ran([v], c, steps, [], 0) && steps[..0] == [] && AfterAll(c, []) == c
  {
    hide Sane;
    assert StandsAt([v], c, steps, 0);
  }

  lemma RanNext(trace: seq<View>, c: seq<Byte>, steps: seq<Step>, outs: seq<seq<Byte>>, n: nat, v: View, out: seq<Byte>)
    requires n < |steps| && Ran(trace, c, steps, outs, n)
    requires Sane(v, After(AfterAll(c, steps[..n]), steps[n])) && out == Output(AfterAll(c, steps[..n]), steps[n])
    requires steps[n].ActStep? ==> Done(trace[n], steps[n].act, v)
    requires Places(v.slots) == Places(trace[n].slots) + Adds(steps[n])
    ensures Ran(trace + [v], c, steps, outs + [out], n + 1) && Sane(v, AfterAll(c, steps[..n + 1]))
  {
    hide Sane, After, Output, Done;
    assert steps[..n + 1][..n] == steps[..n];
    forall i | 0 <= i <= n ensures StandsAt(trace + [v], c, steps, i) {
      assert StandsAt(trace, c, steps, i);
    }
    forall i | 0 <= i < n ensures StepsAt(trace + [v], c, steps, outs + [out], i) {
      assert StepsAt(trace, c, steps, outs, i);
    }
  }

  lemma ReadInside(c: seq<Byte>, count: nat, off: nat)
    requires off + count <= |c|
    ensures |Pread(c, count, off)| == count && forall i :: 0 <= i < count ==> Pread(c, count, off)[i] == c[off + i]
  {
  }

  // ------------------------------------------------------------- last writers

  /** Step `step`, in a file of `size` bytes, writes position `p`. */
  predicate Writes(step: Step, size: nat, p: nat) {
    match step
    case SetStep(k, rel, b, _) => k * N + rel <= p < k * N + rel + |b|
    case AddStep(_, b) => size <= p < size + |b|
    case _ => false
  }

  /** The byte it writes there. */
  function Written(step: Step, size: nat, p: nat): Byte
    requires Writes(step, size, p)
  {
    if step.SetStep? then step.b[p - (step.k * N + step.rel)] else step.b[p - size]
  }

  /** The size of the file after `n` steps: the writers reach up to it. */
  function SizeAfter(size: nat, steps: seq<Step>, n: nat): nat
    requires n <= |steps|
  {
    if n == 0 then size else
      var before := SizeAfter(size, steps, n - 1);
      match steps[n - 1]
      case SetStep(k, rel, b, _) => Max(before, k * N + rel + |b|)
      case AddStep(_, b) => before + |b|
      case _ => before
  }

  /** Step `i` of a run writes position `p`. */
  predicate WritesAt(size: nat, steps: seq<Step>, i: nat, p: nat) {
    i < |steps| && Writes(steps[i], SizeAfter(size, steps, i), p)
  }

  lemma AfterByte(c: seq<Byte>, step: Step, p: nat)
    requires Enabled(c, step) && p < |After(c, step)|
    ensures p < |c| || Writes(step, |c|, p)
    ensures After(c, step)[p] == if Writes(step, |c|, p) then Written(step, |c|, p) else c[p]
  {
    hide Pwrite;
    if step.SetStep? {
      PwriteAt(c, step.b, step.k * N + step.rel, p);
    } else if step.AddStep? {
      PwriteAt(c, step.b, |c|, p);
    }
  }

  lemma {:induction false} Sizes(c: seq<Byte>, steps: seq<Step>, n: nat)
    requires n <= |steps| && forall i :: 0 <= i < n ==> EnabledAt(c, steps, i)
    ensures |AfterAll(c, steps[..n])| == SizeAfter(|c|, steps, n)
  {
    hide Pwrite;
    if n > 0 {
      Sizes(c, steps, n - 1);
      assert steps[..n][..n - 1] == steps[..n - 1];
      assert EnabledAt(c, steps, n - 1);
    }
  }

  /** A byte of the file after `n` steps is what the last step to write it wrote. */
  lemma {:induction false} LastWriter(c: seq<Byte>, steps: seq<Step>, n: nat, i: nat, p: nat)
    requires i < n <= |steps| && forall j :: 0 <= j < n ==> EnabledAt(c, steps, j)
    requires WritesAt(|c|, steps, i, p) && forall j :: i < j < n ==> !WritesAt(|c|, steps, j, p)
    ensures p < |AfterAll(c, steps[..n])|
    ensures AfterAll(c, steps[..n])[p] == Written(steps[i], SizeAfter(|c|, steps, i), p)
  {
    hide Pwrite, After, Enabled;
    var now := AfterAll(c, steps[..n - 1]);
    assert steps[..n][..n - 1] == steps[..n - 1];
    assert EnabledAt(c, steps, n - 1);
    Sizes(c, steps, n - 1);
    Sizes(c, steps, n);
    if i < n - 1 {
      LastWriter(c, steps, n - 1, i, p);
      assert !WritesAt(|c|, steps, n - 1, p);
    }
    AfterByte(now, steps[n - 1], p);
  }

  /** A byte that no step has written is as it was. */
  lemma {:induction false} NeverWritten(c: seq<Byte>, steps: seq<Step>, n: nat, p: nat)
    requires n <= |steps| && p < |c| && forall j :: 0 <= j < n ==> EnabledAt(c, steps, j)
    requires forall j :: 0 <= j < n ==> !WritesAt(|c|, steps, j, p)
    ensures p < |AfterAll(c, steps[..n])| && AfterAll(c, steps[..n])[p] == c[p]
  {
    hide Pwrite, After, Enabled;
    if n > 0 {
      NeverWritten(c, steps, n - 1, p);
      assert steps[..n][..n - 1] == steps[..n - 1];
      assert EnabledAt(c, steps, n - 1);
      Sizes(c, steps, n - 1);
      Sizes(c, steps, n);
      assert !WritesAt(|c|, steps, n - 1, p);
      AfterByte(AfterAll(c, steps[..n - 1]), steps[n - 1], p);
    } else {
      assert steps[..0] == [];
    }
  }

  /** Step `n` of a run reads position `p`. */
  predicate Gets(steps: seq<Step>, n: nat, p: nat) {
    && n < |steps| && steps[n].GetStep?
    && steps[n].k * N + steps[n].rel <= p < steps[n].k * N + steps[n].rel + steps[n].count
  }

  /** The byte that step `n` of a run returns for position `p` is that of the file then. */
  lemma GetsByte(trace: seq<View>, c: seq<Byte>, steps: seq<Step>, outs: seq<seq<Byte>>, n: nat, p: nat)
    requires Ran(trace, c, steps, outs, |steps|) && Gets(steps, n, p) && EnabledAt(c, steps, n)
    ensures |outs[n]| == steps[n].count && p < |AfterAll(c, steps[..n])|
    ensures outs[n][p - (steps[n].k * N + steps[n].rel)] == AfterAll(c, steps[..n])[p]
  {
    hide Sane, Done, AfterAll, Pread, Places;
    assert StepsAt(trace, c, steps, outs, n);
    ReadInside(AfterAll(c, steps[..n]), steps[n].count, steps[n].k * N + steps[n].rel);
  }

  /** In a run, every byte that a read returns is what the last step before it to write that position wrote. */
  lemma ReadsLastWrite(trace: seq<View>, c: seq<Byte>, steps: seq<Step>, outs: seq<seq<Byte>>, n: nat, p: nat, i: nat)
    requires Ran(trace, c, steps, outs, |steps|) && forall j :: 0 <= j < |steps| ==> EnabledAt(c, steps, j)
    requires Gets(steps, n, p) && i < n && WritesAt(|c|, steps, i, p)
    requires forall j :: i < j < n ==> !WritesAt(|c|, steps, j, p)
    ensures |outs[n]| == steps[n].count
    ensures outs[n][p - (steps[n].k * N + steps[n].rel)] == Written(steps[i], SizeAfter(|c|, steps, i), p)
  {
    hide Ran, Enabled, AfterAll;
    GetsByte(trace, c, steps, outs, n, p);
    LastWriter(c, steps, n, i, p);
  }

  /** And where no step before it has written, what the file held at first. */
  lemma ReadsUnwritten(trace: seq<View>, c: seq<Byte>, steps: seq<Step>, outs: seq<seq<Byte>>, n: nat, p: nat)
    requires Ran(trace, c, steps, outs, |steps|) && forall j :: 0 <= j < |steps| ==> EnabledAt(c, steps, j)
    requires Gets(steps, n, p) && forall j :: 0 <= j < n ==> !WritesAt(|c|, steps, j, p)
    ensures |outs[n]| == steps[n].count && p < |c|
    ensures outs[n][p - (steps[n].k * N + steps[n].rel)] == c[p]
  {
    hide Ran, Enabled, AfterAll;
    GetsByte(trace, c, steps, outs, n, p);
    NeverGrown(c, steps, n, p);
    NeverWritten(c, steps, n, p);
  }

  lemma {:induction false} NeverGrown(c: seq<Byte>, steps: seq<Step>, n: nat, p: nat)
    requires n <= |steps| && forall j :: 0 <= j < n ==> EnabledAt(c, steps, j)
    requires p < |AfterAll(c, steps[..n])| && forall j :: 0 <= j < n ==> !WritesAt(|c|, steps, j, p)
    ensures p < |c|
  {
    hide Pwrite, After, Enabled;
    if n > 0 {
      assert steps[..n][..n - 1] == steps[..n - 1];
      assert EnabledAt(c, steps, n - 1) && !WritesAt(|c|, steps, n - 1, p);
      Sizes(c, steps, n - 1);
      AfterByte(AfterAll(c, steps[..n - 1]), steps[n - 1], p);
      NeverGrown(c, steps, n - 1, p);
    }
  }

  // ---------------------------------------------------------------- placement

  /** How many of the first `n` steps add a node on device `p`. */
  function AddsOn(steps: seq<Step>, n: nat, p: Place): nat
    requires n <= |steps|
  {
    if n == 0 then 0 else AddsOn(steps, n - 1, p) + if steps[n - 1].AddStep? && steps[n - 1].place == p then 1 else 0
  }

  /** In every state of a run from an empty cache, the cursor of a device is as many nodes from its beginning as steps
      have added a node there. */
  lemma {:induction false} RunCursors(trace: seq<View>, c: seq<Byte>, steps: seq<Step>, outs: seq<seq<Byte>>, n: nat,
                                      p: Place)
    requires Ran(trace, c, steps, outs, |steps|) && n <= |steps| && trace[0].slots == []
    ensures CountOn(Places(trace[n].slots), p) == AddsOn(steps, n, p) && trace[n].next(p) == N * AddsOn(steps, n, p)
  {
    hide Tracked, Stored, Done, CountOn;
    assert StandsAt(trace, c, steps, n);
    if n == 0 {
      NoPlaces(trace[0].slots, p);
    } else {
      RunCursors(trace, c, steps, outs, n - 1, p);
      assert StepsAt(trace, c, steps, outs, n - 1);
      if steps[n - 1].AddStep? {
        CountOne(Places(trace[n - 1].slots), steps[n - 1].place, p);
      } else {
        assert Places(trace[n].slots) == Places(trace[n - 1].slots);
      }
    }
  }

  lemma NoPlaces(slots: seq<Slot>, p: Place)
    requires slots == []
    ensures CountOn(Places(slots), p) == 0
  {
  }

  /** The node that step `i` adds is on the device of that step, where its cursor was. */
  lemma RunPlaces(trace: seq<View>, c: seq<Byte>, steps: seq<Step>, outs: seq<seq<Byte>>, i: nat)
    requires Ran(trace, c, steps, outs, |steps|) && i < |steps| && trace[0].slots == [] && steps[i].AddStep?
    ensures |trace[i + 1].slots| == |trace[i].slots| + 1
    ensures var s := trace[i + 1].slots[|trace[i].slots|];
      s.place == steps[i].place && s.offset == N * AddsOn(steps, i, s.place) == trace[i].next(s.place)
  {
    hide Tracked, Stored, Done, CountOn;
    assert StepsAt(trace, c, steps, outs, i) && StandsAt(trace, c, steps, i) && StandsAt(trace, c, steps, i + 1);
    var before, after := Places(trace[i].slots), Places(trace[i + 1].slots);
    assert after == before + [steps[i].place];
    assert after[..|before|] == before && after[|before|] == trace[i + 1].slots[|before|].place;
    RunCursors(trace, c, steps, outs, i, steps[i].place);
  }
}
