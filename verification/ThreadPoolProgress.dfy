/** Progress of the thread pool: left to itself it comes to rest, and at rest all jobs have
    finished and all waiters have returned. */
module ThreadPoolProgress {
  import opened ThreadPool

  // ----------------------------------------------------------------- measure

  /** How far a worker is from sleep, with `m` waiters that its going idle may wake. */
  function WorkerWeight(pc: Worker, m: nat): nat {
    match pc
    case Asleep => 0
    case Ready => 1
    case Finishing => 4 * m + 2
    case Running(_) => 4 * m + 3
    case Pulled(_) => 4 * m + 3
    case Counted => 4 * m + 4
    case Token => 4 * m + 5
  }

  /** How far a waiter is from returning, or from its next sleep. */
  function WaiterWeight(pc: Waiter): nat {
    match pc
    case Outside => 5
    case Locked => 4
    case SawEmpty(_) => 3
    case Going => 2
    case Sleeping => 1
    case Returned(_) => 0
  }

  function Workers(workers: seq<Worker>, m: nat): nat {
    if workers == [] then 0 else
      Workers(workers[..|workers| - 1], m) + WorkerWeight(workers[|workers| - 1], m)
  }

  function Waiters(waiters: seq<Waiter>): nat {
    if waiters == [] then 0 else Waiters(waiters[..|waiters| - 1]) + WaiterWeight(waiters[|waiters| - 1])
  }

  /** The posts still to come: one for each job queued, and one for an operation under way. */
  function PostsDue(s: State): nat {
    |s.queue| + if s.holder == Nobody then 0 else 1
  }

  /** What one post may set off. */
  function PostWeight(s: State): nat {
    4 * |s.waiters| + |s.workers| + 6
  }

  function Measure(s: State): nat {
    PostWeight(s) * PostsDue(s) + (if s.posted then 4 * |s.waiters| + 5 else 0)
    + Workers(s.workers, |s.waiters|) + Waiters(s.waiters)
  }

  // -------------------------------------------------------------------- sums

  lemma {:induction false} WorkersTo(workers: seq<Worker>, w: nat, pc: Worker, m: nat)
    requires w < |workers|
    ensures Workers(workers[w := pc], m) == Workers(workers, m) - WorkerWeight(workers[w], m) + WorkerWeight(pc, m)
  {
    var n := |workers| - 1;
    if w < n {
      WorkersTo(workers[..n], w, pc, m);
      assert workers[w := pc][..n] == workers[..n][w := pc];
    } else {
      assert workers[w := pc][..n] == workers[..n];
    }
  }

  lemma {:induction false} WaitersTo(waiters: seq<Waiter>, i: nat, pc: Waiter)
    requires i < |waiters|
    ensures Waiters(waiters[i := pc]) == Waiters(waiters) - WaiterWeight(waiters[i]) + WaiterWeight(pc)
  {
    var n := |waiters| - 1;
    if i < n {
      WaitersTo(waiters[..n], i, pc);
      assert waiters[i := pc][..n] == waiters[..n][i := pc];
    } else {
      assert waiters[i := pc][..n] == waiters[..n];
    }
  }

  /** Waking workers costs at most one for each. */
  lemma {:induction false} WorkersWoken(before: seq<Worker>, after: seq<Worker>, m: nat)
    requires |after| == |before|
    requires forall w :: 0 <= w < |before| ==> after[w] == before[w] || (before[w].Asleep? && after[w].Ready?)
    ensures Workers(after, m) <= Workers(before, m) + |before|
  {
    if before != [] {
      WorkersWoken(before[..|before| - 1], after[..|after| - 1], m);
    }
  }

  /** Waking waiters costs at most four for each. */
  lemma {:induction false} WaitersWoken(before: seq<Waiter>, after: seq<Waiter>)
    requires |after| == |before|
    requires forall i :: 0 <= i < |before| ==> after[i] == before[i] || (before[i].Sleeping? && after[i].Outside?)
    ensures Waiters(after) <= Waiters(before) + 4 * |before|
  {
    if before != [] {
      WaitersWoken(before[..|before| - 1], after[..|after| - 1]);
    }
  }

  lemma OneLess(a: nat, u: nat)
    requires u > 0
    ensures a * u == a * (u - 1) + a
  {
  }

  // ---------------------------------------------------------------- progress

  /** Every internal step brings the pool closer to rest. */
  lemma Shrinks(s: State, step: Step)
    requires Inv(s) && Enabled(s, step) && Internal(step)
    ensures Measure(Next(s, step)) < Measure(s)
  {
    hide Inv, Workers, Waiters;
    if step.PushPost? || step.PullPost? {
      PostShrinks(s, step);
    } else if step.Pull? {
      PullShrinks(s, step);
    } else if step.Uncount? {
      UncountShrinks(s, step);
    } else if step.Take? || step.Doze? || step.Count? || step.Finish? {
      WorkersTo(s.workers, step.w, Next(s, step).workers[step.w], |s.waiters|);
    } else {
      WaitersTo(s.waiters, step.i, Next(s, step).waiters[step.i]);
    }
  }

  lemma PostShrinks(s: State, step: Step)
    requires Inv(s) && Enabled(s, step) && (step.PushPost? || step.PullPost?)
    ensures Measure(Next(s, step)) < Measure(s)
  {
    hide InOrder, OnceEach, Seen, Roused, Waiting, Workers, Waiters;
    var s', m := Next(s, step), |s.waiters|;
    WorkersWoken(s.workers, WakeUp(s.workers, step.woken), m);
    if step.PullPost? {
      WorkersTo(WakeUp(s.workers, step.woken), step.w, s'.workers[step.w], m);
    }
    assert s.holder != Nobody && PostsDue(s') == PostsDue(s) - 1;
    OneLess(PostWeight(s), PostsDue(s));
  }

  lemma PullShrinks(s: State, step: Step)
    requires Inv(s) && Enabled(s, step) && step.Pull?
    ensures Measure(Next(s, step)) < Measure(s)
  {
    hide InOrder, OnceEach, Seen, Roused, Waiting, Tallied, Workers, Waiters;
    WorkersTo(s.workers, step.w, Next(s, step).workers[step.w], |s.waiters|);
    if |s.queue| == 1 {
      OneLess(PostWeight(s), PostsDue(s));
    }
  }

  lemma UncountShrinks(s: State, step: Step)
    requires Inv(s) && Enabled(s, step) && step.Uncount?
    ensures Measure(Next(s, step)) < Measure(s)
  {
    hide InOrder, OnceEach, Seen, Roused, Waiting, Tallied, Workers, Waiters;
    WorkersTo(s.workers, step.w, Ready, |s.waiters|);
    WaitersWoken(s.waiters, Next(s, step).waiters);
  }

  /** Left to itself from any reachable state, the pool makes only a bounded number of steps, whatever the schedule. */
  lemma {:induction false} ComesToRest(states: seq<State>, steps: seq<Step>, n: nat, m: nat, i: nat, j: nat)
    requires IsRun(states, steps, n, m) && i <= j < |states|
    requires forall k :: i <= k < j ==> Internal(steps[k])
    ensures Measure(states[j]) + (j - i) <= Measure(states[i])
    decreases j
  {
    hide Inv, Measure, Enabled, Next;
    if i < j {
      ComesToRest(states, steps, n, m, i, j - 1);
      RunInv(states, steps, n, m, j - 1);
      Shrinks(states[j - 1], steps[j - 1]);
    }
  }

  ghost predicate AtRest(s: State) {
    forall step :: Internal(step) ==> !Enabled(s, step)
  }

  /** At rest the queue is empty, every job pushed has finished, every waiter has returned, and all workers sleep. */
  lemma AtRestAllDone(states: seq<State>, steps: seq<Step>, n: nat, m: nat, i: nat)
    requires IsRun(states, steps, n, m) && i < |states| && |states[i].workers| > 0 && AtRest(states[i])
    ensures var s := states[i];
      && s.queue == [] && AllFinished(s.finished, Pushes(steps, i))
      && |s.finished| == Finishes(steps, i) == Pushes(steps, i)
      && (forall x :: 0 <= x < |s.waiters| ==> s.waiters[x].Returned?)
      && (forall w :: 0 <= w < |s.workers| ==> s.workers[w].Asleep?)
  {
    var s := states[i];
    RunInv(states, steps, n, m, i);
    if |s.queue| > 0 || s.working > 0 {
      var step := NeverStuck(states, steps, n, m, i);
      assert false;
    }
    NobodyWorking(s, s.pushed);
    AllCounted(states, steps, n, m, i);
    Counts(states, steps, n, m, i);
    RestingLock(s);
    forall w | 0 <= w < |s.workers| ensures s.workers[w].Asleep? {
      RestingWorker(s, w);
    }
    forall x | 0 <= x < |s.waiters| ensures s.waiters[x].Returned? {
      RestingWaiter(s, x);
    }
  }

  lemma RestingLock(s: State)
    requires Waiting(s) && AtRest(s)
    ensures s.lock == Free
  {
    if s.lock.By? {
      var step := LockMoves(s);
      assert false;
    }
  }

  lemma RestingWorker(s: State, w: nat)
    requires Waiting(s) && Tallied(s) && AtRest(s) && w < |s.workers|
    ensures s.workers[w].Asleep?
  {
    assert !Enabled(s, Take(w)) && !Enabled(s, Doze(w));
    if !s.workers[w].Ready? && !s.workers[w].Asleep? {
      var step := WorkerMoves(s, w);
      assert false;
    }
  }

  lemma RestingWaiter(s: State, x: nat)
    requires Waiting(s) && AtRest(s) && x < |s.waiters| && |s.queue| == 0 && s.working <= 0 && s.lock == Free
    ensures s.waiters[x].Returned?
  {
    assert !Enabled(s, Lock(x));
  }
}
