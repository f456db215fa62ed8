/** The thread pool as a state machine: one step is one access to shared state that another
    thread could observe. Jobs are numbered in the order in which they are pushed. */
module ThreadPool {

  /** Where a worker is in its loop. */
  datatype Worker =
    | Ready                // about to look at the semaphore
    | Asleep               // waiting for the semaphore to be posted
    | Token                // has taken the semaphore
    | Counted              // has been counted as working
    | Pulled(job: nat)     // has taken a job and holds the queue, with a post still to do
    | Running(job: nat)
    | Finishing            // has run a job, or found none, and is still counted

  /** Where a caller of thpool_wait is. `mark` is the number of jobs pushed when it saw the queue empty. */
  datatype Waiter =
    | Outside
    | Locked               // holds the counter lock
    | SawEmpty(mark: nat)  // and has seen the queue empty
    | Going                // and is about to sleep
    | Sleeping
    | Returned(mark: nat)

  /** Who holds the queue lock in the middle of an operation. */
  datatype Holder = Nobody | Pusher | Puller(w: nat)

  /** Which waiter holds the counter lock between two steps. */
  datatype Owner = Free | By(i: nat)

  datatype State = State(
    queue: seq<nat>, posted: bool, holder: Holder, workers: seq<Worker>, working: int,
    lock: Owner, waiters: seq<Waiter>, pushed: nat, finished: set<nat>)

  datatype Step =
    | Push                          // a client appends a job
    | PushPost(woken: set<nat>)     // and posts the semaphore
    | Take(w: nat)
    | Doze(w: nat)
    | Rouse(w: nat)                 // a spurious wakeup
    | Count(w: nat)
    | Pull(w: nat)
    | PullPost(w: nat, woken: set<nat>)
    | Finish(w: nat)
    | Uncount(w: nat)
    | Lock(i: nat)
    | ReadLength(i: nat)
    | ReadWorking(i: nat)
    | Sleep(i: nat)
    | Wake(i: nat)                  // a spurious wakeup

  function Init(n: nat, m: nat): State {
    State([], false, Nobody, seq(n, i => Ready), 0, Free, seq(m, i => Outside), 0, {})
  }

  /** A signal wakes at least one sleeper, if there is one. */
  ghost predicate Signal(workers: seq<Worker>, woken: set<nat>) {
    && (forall w :: w in woken ==> w < |workers| && workers[w].Asleep?)
    && ((exists w :: 0 <= w < |workers| && workers[w].Asleep?) ==> woken != {})
  }

  function WakeUp(workers: seq<Worker>, woken: set<nat>): (r: seq<Worker>)
    ensures |r| == |workers|
    ensures forall w :: 0 <= w < |workers| ==> r[w] == if w in woken then Ready else workers[w]
  {
    seq(|workers|, i requires 0 <= i < |workers| => if i in woken then Ready else workers[i])
  }

  function WakeAll(waiters: seq<Waiter>): (r: seq<Waiter>)
    ensures |r| == |waiters|
    ensures forall i :: 0 <= i < |waiters| ==> r[i] == if waiters[i].Sleeping? then Outside else waiters[i]
  {
    seq(|waiters|, i requires 0 <= i < |waiters| => if waiters[i].Sleeping? then Outside else waiters[i])
  }

  ghost predicate Enabled(s: State, step: Step) {
    match step
    case Push => s.holder == Nobody
    case PushPost(woken) => s.holder == Pusher && Signal(s.workers, woken)
    case Take(w) => w < |s.workers| && s.workers[w].Ready? && s.posted
    case Doze(w) => w < |s.workers| && s.workers[w].Ready? && !s.posted
    case Rouse(w) => w < |s.workers| && s.workers[w].Asleep?
    case Count(w) => w < |s.workers| && s.workers[w].Token? && s.lock == Free
    case Pull(w) => w < |s.workers| && s.workers[w].Counted? && s.holder == Nobody
    case PullPost(w, woken) => w < |s.workers| && s.workers[w].Pulled? && Signal(s.workers, woken)
    case Finish(w) => w < |s.workers| && s.workers[w].Running?
    case Uncount(w) => w < |s.workers| && s.workers[w].Finishing? && s.lock == Free
    case Lock(i) => i < |s.waiters| && s.waiters[i].Outside? && s.lock == Free
    case ReadLength(i) => i < |s.waiters| && s.waiters[i].Locked?
    case ReadWorking(i) => i < |s.waiters| && s.waiters[i].SawEmpty?
    case Sleep(i) => i < |s.waiters| && s.waiters[i].Going?
    case Wake(i) => i < |s.waiters| && s.waiters[i].Sleeping?
  }

  function To(s: State, w: nat, pc: Worker): State
    requires w < |s.workers|
  {
    s.(workers := s.workers[w := pc])
  }

  function WTo(s: State, i: nat, pc: Waiter): State
    requires i < |s.waiters|
  {
    s.(waiters := s.waiters[i := pc])
  }

  ghost function Next(s: State, step: Step): State
    requires Enabled(s, step)
  {
    match step
    case Push => s.(queue := s.queue + [s.pushed], pushed := s.pushed + 1, holder := Pusher)
    case PushPost(woken) => s.(posted := true, workers := WakeUp(s.workers, woken), holder := Nobody)
    case Take(w) => To(s, w, Token).(posted := false)
    case Doze(w) => To(s, w, Asleep)
    case Rouse(w) => To(s, w, Ready)
    case Count(w) => To(s, w, Counted).(working := s.working + 1)
    case Pull(w) =>
      if |s.queue| == 0 then To(s, w, Finishing)
      else if |s.queue| == 1 then To(s, w, Running(s.queue[0])).(queue := [])
      else To(s, w, Pulled(s.queue[0])).(queue := s.queue[1..], holder := Puller(w))
    case PullPost(w, woken) =>
      s.(posted := true, workers := WakeUp(s.workers, woken)[w := Running(s.workers[w].job)], holder := Nobody)
    case Finish(w) => To(s, w, Finishing).(finished := s.finished + {s.workers[w].job})
    case Uncount(w) =>
      To(s, w, Ready).(working := s.working - 1, waiters := if s.working == 1 then WakeAll(s.waiters) else s.waiters)
    case Lock(i) => WTo(s, i, Locked).(lock := By(i))
    case ReadLength(i) => WTo(s, i, if |s.queue| > 0 then Going else SawEmpty(s.pushed))
    case ReadWorking(i) =>
      if s.working > 0 then WTo(s, i, Going) else WTo(s, i, Returned(s.waiters[i].mark)).(lock := Free)
    case Sleep(i) => WTo(s, i, Sleeping).(lock := Free)
    case Wake(i) => WTo(s, i, Outside)
  }

  // --------------------------------------------------------------- invariant

  /** The number of jobs taken from the queue. */
  function Taken(s: State): int {
    s.pushed - |s.queue|
  }

  predicate Holds(pc: Worker) {
    pc.Pulled? || pc.Running?
  }

  predicate IsCounted(pc: Worker) {
    pc.Counted? || pc.Pulled? || pc.Running? || pc.Finishing?
  }

  ghost function CountedSet(workers: seq<Worker>): set<nat> {
    set w | 0 <= w < |workers| && IsCounted(workers[w])
  }

  /** The queue holds the jobs not yet taken, in order. */
  ghost predicate InOrder(s: State) {
    Taken(s) >= 0 && forall i :: 0 <= i < |s.queue| ==> s.queue[i] == Taken(s) + i
  }

  /** Each job that was taken has finished, or is with exactly one worker. */
  ghost predicate OnceEach(s: State) {
    && (forall j :: j in s.finished ==> j < Taken(s))
    && (forall w :: 0 <= w < |s.workers| && Holds(s.workers[w]) ==>
          s.workers[w].job < Taken(s) && s.workers[w].job !in s.finished)
    && (forall w, x :: 0 <= w < x < |s.workers| && Holds(s.workers[w]) && Holds(s.workers[x]) ==>
          s.workers[w].job != s.workers[x].job)
    && (forall j: nat :: j < Taken(s) ==> j in s.finished || HeldBySome(s.workers, j))
  }

  ghost predicate HeldBySome(workers: seq<Worker>, j: nat) {
    exists w :: 0 <= w < |workers| && Holds(workers[w]) && workers[w].job == j
  }

  /** The counter counts, and the queue lock is held by the worker in the middle of a pull. */
  ghost predicate Tallied(s: State) {
    && s.working == |CountedSet(s.workers)|
    && (forall w :: 0 <= w < |s.workers| ==> (s.workers[w].Pulled? <==> s.holder == Puller(w)))
    && (s.holder.Puller? ==> s.holder.w < |s.workers|)
  }

  /** A job in the queue has someone who will see to it. */
  ghost predicate Seen(s: State) {
    |s.queue| > 0 ==> s.posted || s.holder != Nobody || exists w :: 0 <= w < |s.workers| && OnTheWay(s.workers[w])
  }

  predicate OnTheWay(pc: Worker) {
    pc.Token? || pc.Counted?
  }

  /** A posted semaphore with sleepers has someone awake to take it. */
  ghost predicate Roused(s: State) {
    s.posted && (exists w :: 0 <= w < |s.workers| && s.workers[w].Asleep?) ==>
      exists w :: 0 <= w < |s.workers| && s.workers[w].Ready?
  }

  predicate HoldsLock(pc: Waiter) {
    pc.Locked? || pc.SawEmpty? || pc.Going?
  }

  /** The waiters: who has the lock, what they have seen, and what a sleeper can count on. */
  ghost predicate Waiting(s: State) {
    && (forall i :: 0 <= i < |s.waiters| ==> (HoldsLock(s.waiters[i]) <==> s.lock == By(i)))
    && (s.lock.By? ==> s.lock.i < |s.waiters|)
    && (forall i :: 0 <= i < |s.waiters| && s.waiters[i].SawEmpty? ==> s.waiters[i].mark <= Taken(s))
    && (forall i :: 0 <= i < |s.waiters| && s.waiters[i].Returned? ==> AllFinished(s.finished, s.waiters[i].mark))
    && ((exists i :: 0 <= i < |s.waiters| && (s.waiters[i].Going? || s.waiters[i].Sleeping?)) ==>
          |s.queue| > 0 || s.working > 0)
  }

  ghost predicate AllFinished(finished: set<nat>, mark: nat) {
    forall j: nat :: j < mark ==> j in finished
  }

  ghost predicate Inv(s: State) {
    InOrder(s) && OnceEach(s) && Tallied(s) && Seen(s) && Roused(s) && Waiting(s)
  }

  // ------------------------------------------------------------ preservation

  lemma KeepsInOrder(s: State, step: Step)
    requires Inv(s) && Enabled(s, step)
    ensures InOrder(Next(s, step))
  {
  }

  lemma KeepsSeen(s: State, step: Step)
    requires Inv(s) && Enabled(s, step)
    ensures Seen(Next(s, step))
  {
    var s' := Next(s, step);
    if |s'.queue| > 0 && !s'.posted && s'.holder == Nobody {
      if step.Take? {
        assert OnTheWay(s'.workers[step.w]);
      } else {
        var x :| 0 <= x < |s.workers| && OnTheWay(s.workers[x]);
        assert OnTheWay(s'.workers[x]);
      }
    }
  }

  lemma KeepsRoused(s: State, step: Step)
    requires Inv(s) && Enabled(s, step)
    ensures Roused(Next(s, step))
  {
    var s' := Next(s, step);
    if s'.posted && exists w :: 0 <= w < |s'.workers| && s'.workers[w].Asleep? {
      var y :| 0 <= y < |s'.workers| && s'.workers[y].Asleep?;
      if step.PushPost? || step.PullPost? {
        assert s.workers[y].Asleep?;
        var x :| x in step.woken;
        assert s'.workers[x].Ready?;
      } else if step.Rouse? || step.Uncount? {
        assert s'.workers[step.w].Ready?;
      } else {
        assert s.workers[y].Asleep?;
        var x :| 0 <= x < |s.workers| && s.workers[x].Ready?;
        assert s'.workers[x].Ready?;
      }
    }
  }

  lemma CountedTo(workers: seq<Worker>, w: nat, pc: Worker)
    requires w < |workers|
    ensures |CountedSet(workers[w := pc])| ==
      |CountedSet(workers)| + (if IsCounted(pc) then 1 else 0) - (if IsCounted(workers[w]) then 1 else 0)
  {
    var a, b := CountedSet(workers), CountedSet(workers[w := pc]);
    assert b - {w} == a - {w};
    assert a == if IsCounted(workers[w]) then (a - {w}) + {w} else a - {w};
    assert b == if IsCounted(pc) then (b - {w}) + {w} else b - {w};
  }

  lemma CountedWakeUp(workers: seq<Worker>, woken: set<nat>)
    requires Signal(workers, woken)
    ensures CountedSet(WakeUp(workers, woken)) == CountedSet(workers)
  {
  }

  lemma KeepsCount(s: State, step: Step)
    requires Inv(s) && Enabled(s, step)
    ensures Next(s, step).working == |CountedSet(Next(s, step).workers)|
  {
    hide CountedSet, InOrder, OnceEach, Seen, Roused, Waiting;
    var s' := Next(s, step);
    if step.PushPost? {
      CountedWakeUp(s.workers, step.woken);
    } else if step.PullPost? {
      CountedWakeUp(s.workers, step.woken);
      CountedTo(WakeUp(s.workers, step.woken), step.w, Running(s.workers[step.w].job));
    } else if step.Take? || step.Doze? || step.Rouse? || step.Count? || step.Pull? || step.Finish? || step.Uncount? {
      CountedTo(s.workers, step.w, s'.workers[step.w]);
    }
  }

  lemma KeepsTallied(s: State, step: Step)
    requires Inv(s) && Enabled(s, step)
    ensures Tallied(Next(s, step))
  {
    hide CountedSet, InOrder, OnceEach, Seen, Roused, Waiting;
    KeepsCount(s, step);
  }

  /** Nothing changes for the jobs. */
  lemma SameJobs(s: State, s': State)
    requires OnceEach(s) && |s'.workers| == |s.workers| && s'.finished == s.finished && Taken(s') == Taken(s)
    requires forall w :: 0 <= w < |s.workers| ==>
      Holds(s'.workers[w]) == Holds(s.workers[w]) && (Holds(s.workers[w]) ==> s'.workers[w].job == s.workers[w].job)
    ensures OnceEach(s')
  {
    forall j: nat | j < Taken(s') ensures j in s'.finished || HeldBySome(s'.workers, j) {
      if j !in s.finished {
        assert HeldBySome(s.workers, j);
        var w :| 0 <= w < |s.workers| && Holds(s.workers[w]) && s.workers[w].job == j;
        assert Holds(s'.workers[w]);
      }
    }
  }

  /** Worker `w` takes the first job. */
  lemma TakesJob(s: State, s': State, w: nat)
    requires OnceEach(s) && InOrder(s) && |s.queue| > 0 && w < |s.workers| && !Holds(s.workers[w])
    requires s'.queue == s.queue[1..] && s'.pushed == s.pushed && s'.finished == s.finished
    requires |s'.workers| == |s.workers|
    requires forall x :: 0 <= x < |s.workers| && x != w ==> s'.workers[x] == s.workers[x]
    requires Holds(s'.workers[w]) && s'.workers[w].job == s.queue[0]
    ensures OnceEach(s')
  {
    assert s.queue[0] == Taken(s) && Taken(s') == Taken(s) + 1;
    forall j: nat | j < Taken(s') ensures j in s'.finished || HeldBySome(s'.workers, j) {
      if j == Taken(s) {
        assert Holds(s'.workers[w]) && s'.workers[w].job == j;
      } else if j !in s.finished {
        assert HeldBySome(s.workers, j);
        var x :| 0 <= x < |s.workers| && Holds(s.workers[x]) && s.workers[x].job == j;
        assert Holds(s'.workers[x]);
      }
    }
  }

  /** Worker `w` finishes its job. */
  lemma FinishesJob(s: State, w: nat)
    requires OnceEach(s) && w < |s.workers| && s.workers[w].Running?
    ensures OnceEach(To(s, w, Finishing).(finished := s.finished + {s.workers[w].job}))
  {
    var s' := To(s, w, Finishing).(finished := s.finished + {s.workers[w].job});
    forall j: nat | j < Taken(s') ensures j in s'.finished || HeldBySome(s'.workers, j) {
      if j !in s'.finished {
        assert HeldBySome(s.workers, j);
        var x :| 0 <= x < |s.workers| && Holds(s.workers[x]) && s.workers[x].job == j;
        assert Holds(s'.workers[x]);
      }
    }
  }

  /** Steps other than taking and finishing a job leave the jobs where they are. */
  lemma KeepsJobs(s: State, step: Step)
    requires Enabled(s, step) && !step.Finish? && (step.Pull? ==> |s.queue| == 0)
    ensures var s' := Next(s, step);
      && |s'.workers| == |s.workers| && s'.finished == s.finished && Taken(s') == Taken(s)
      && forall w :: 0 <= w < |s.workers| ==>
          Holds(s'.workers[w]) == Holds(s.workers[w]) && (Holds(s.workers[w]) ==> s'.workers[w].job == s.workers[w].job)
  {
  }

  lemma KeepsOnceEach(s: State, step: Step)
    requires Inv(s) && Enabled(s, step)
    ensures OnceEach(Next(s, step))
  {
    hide OnceEach, InOrder, Tallied, Seen, Roused, Waiting, Signal;
    if step.Finish? {
      FinishesJob(s, step.w);
    } else if step.Pull? && |s.queue| > 0 {
      TakesJob(s, Next(s, step), step.w);
    } else {
      KeepsJobs(s, step);
      SameJobs(s, Next(s, step));
    }
  }

  /** With nobody counted as working, all jobs taken have finished. */
  lemma NobodyWorking(s: State, mark: nat)
    requires OnceEach(s) && Tallied(s) && s.working <= 0 && mark <= Taken(s)
    ensures AllFinished(s.finished, mark)
  {
    assert CountedSet(s.workers) == {};
    forall w | 0 <= w < |s.workers| ensures !Holds(s.workers[w]) {
      assert w !in CountedSet(s.workers);
    }
    assert forall j: nat :: !HeldBySome(s.workers, j);
  }

  /** A counted worker shows in the counter. */
  lemma SomebodyWorking(s: State, w: nat)
    requires Tallied(s) && w < |s.workers| && IsCounted(s.workers[w])
    ensures s.working > 0
  {
    assert w in CountedSet(s.workers);
  }

  /** The four parts of Waiting, one by one. */
  lemma KeepsLock(s: State, step: Step)
    requires Inv(s) && Enabled(s, step)
    ensures var s' := Next(s, step);
      && (forall i :: 0 <= i < |s'.waiters| ==> (HoldsLock(s'.waiters[i]) <==> s'.lock == By(i)))
      && (s'.lock.By? ==> s'.lock.i < |s'.waiters|)
  {
    hide CountedSet, OnceEach, Seen, Roused, Tallied, InOrder;
  }

  lemma KeepsMarks(s: State, step: Step)
    requires Inv(s) && Enabled(s, step)
    ensures var s' := Next(s, step);
      forall i :: 0 <= i < |s'.waiters| && s'.waiters[i].SawEmpty? ==> s'.waiters[i].mark <= Taken(s')
  {
    hide CountedSet, OnceEach, Seen, Roused, Tallied;
  }

  lemma KeepsPromise(s: State, step: Step)
    requires Inv(s) && Enabled(s, step)
    ensures var s' := Next(s, step);
      forall i :: 0 <= i < |s'.waiters| && s'.waiters[i].Returned? ==> AllFinished(s'.finished, s'.waiters[i].mark)
  {
    hide CountedSet, OnceEach, Seen, Roused, Tallied, InOrder;
    if step.ReadWorking? && s.working <= 0 {
      NobodyWorking(s, s.waiters[step.i].mark);
    }
    assert forall mark :: AllFinished(s.finished, mark) ==> AllFinished(Next(s, step).finished, mark);
  }

  lemma KeepsSleep(s: State, step: Step)
    requires Inv(s) && Enabled(s, step)
    ensures var s' := Next(s, step);
      (exists i :: 0 <= i < |s'.waiters| && (s'.waiters[i].Going? || s'.waiters[i].Sleeping?)) ==>
        |s'.queue| > 0 || s'.working > 0
  {
    hide CountedSet, OnceEach, Seen, Roused, Tallied, InOrder;
    if step.Pull? || step.Uncount? {
      SomebodyWorking(s, step.w);
    }
  }

  lemma KeepsWaiting(s: State, step: Step)
    requires Inv(s) && Enabled(s, step)
    ensures Waiting(Next(s, step))
  {
    hide Inv, Next;
    KeepsLock(s, step);
    KeepsMarks(s, step);
    KeepsPromise(s, step);
    KeepsSleep(s, step);
  }

  // --------------------------------------------------------------- all runs

  lemma InitInv(n: nat, m: nat)
    ensures Inv(Init(n, m))
  {
    assert CountedSet(Init(n, m).workers) == {};
  }

  lemma StepInv(s: State, step: Step)
    requires Inv(s) && Enabled(s, step)
    ensures Inv(Next(s, step))
  {
    hide Next;
    KeepsInOrder(s, step);
    KeepsOnceEach(s, step);
    KeepsTallied(s, step);
    KeepsSeen(s, step);
    KeepsRoused(s, step);
    KeepsWaiting(s, step);
  }

  /** `states` is a run of the pool from its start with `n` workers and `m` waiters. */
  ghost predicate IsRun(states: seq<State>, steps: seq<Step>, n: nat, m: nat) {
    && |states| == |steps| + 1 && states[0] == Init(n, m)
    && forall i :: 0 <= i < |steps| ==> Enabled(states[i], steps[i]) && states[i + 1] == Next(states[i], steps[i])
  }

  /** The invariant holds in every state of every run. */
  lemma {:induction false} RunInv(states: seq<State>, steps: seq<Step>, n: nat, m: nat, i: nat)
    requires IsRun(states, steps, n, m) && i < |states|
    ensures Inv(states[i])
  {
    hide Inv, Next, Enabled;
    if i == 0 {
      InitInv(n, m);
    } else {
      RunInv(states, steps, n, m, i - 1);
      StepInv(states[i - 1], steps[i - 1]);
    }
  }

  // ---------------------------------------------------------------- counting

  /** How many of the first `n` steps push a job. */
  function Pushes(steps: seq<Step>, n: nat): nat
    requires n <= |steps|
  {
    if n == 0 then 0 else Pushes(steps, n - 1) + if steps[n - 1].Push? then 1 else 0
  }

  /** How many of the first `n` steps finish one. */
  function Finishes(steps: seq<Step>, n: nat): nat
    requires n <= |steps|
  {
    if n == 0 then 0 else Finishes(steps, n - 1) + if steps[n - 1].Finish? then 1 else 0
  }

  /** Jobs are numbered by the pushes of the run, none left out, and each finish is that of another one. */
  lemma {:induction false} Counts(states: seq<State>, steps: seq<Step>, n: nat, m: nat, i: nat)
    requires IsRun(states, steps, n, m) && i < |states|
    ensures states[i].pushed == Pushes(steps, i) && |states[i].finished| == Finishes(steps, i)
  {
    hide Inv, Next, Enabled;
    if i > 0 {
      Counts(states, steps, n, m, i - 1);
      RunInv(states, steps, n, m, i - 1);
      CountStep(states[i - 1], steps[i - 1]);
    } else {
      Started(n, m);
    }
  }

  lemma Started(n: nat, m: nat)
    ensures Init(n, m).pushed == 0 && Init(n, m).finished == {}
  {
  }

  lemma CountStep(s: State, step: Step)
    requires Inv(s) && Enabled(s, step)
    ensures Next(s, step).pushed == s.pushed + if step.Push? then 1 else 0
    ensures |Next(s, step).finished| == |s.finished| + if step.Finish? then 1 else 0
  {
    hide Inv, WakeUp, Signal;
    if step.Finish? {
      NotTwice(s, step.w);
    }
  }

  lemma NotTwice(s: State, w: nat)
    requires Inv(s) && w < |s.workers| && s.workers[w].Running?
    ensures s.workers[w].job !in s.finished
  {
    hide Seen, Roused, Waiting, Tallied, InOrder;
    assert Holds(s.workers[w]);
  }

  /** Every job pushed is in the queue, with a worker, or finished. */
  lemma EveryJob(states: seq<State>, steps: seq<Step>, n: nat, m: nat, i: nat, j: nat)
    requires IsRun(states, steps, n, m) && i < |states| && j < Pushes(steps, i)
    ensures j in states[i].queue || HeldBySome(states[i].workers, j) || j in states[i].finished
  {
    hide Seen, Roused, Waiting, Tallied;
    Counts(states, steps, n, m, i);
    RunInv(states, steps, n, m, i);
    var s := states[i];
    if j >= Taken(s) {
      assert s.queue[j - Taken(s)] == j;
    }
  }

  /** How many of the first `n` steps pull a job. */
  ghost function Pulls(states: seq<State>, steps: seq<Step>, n: nat): nat
    requires n <= |steps| <= |states|
  {
    if n == 0 then 0 else
      Pulls(states, steps, n - 1) + if steps[n - 1].Pull? && states[n - 1].queue != [] then 1 else 0
  }

  lemma {:induction false} PullCount(states: seq<State>, steps: seq<Step>, n: nat, m: nat, i: nat)
    requires IsRun(states, steps, n, m) && i < |states|
    ensures Taken(states[i]) == Pulls(states, steps, i)
  {
    if i > 0 {
      PullCount(states, steps, n, m, i - 1);
      assert Enabled(states[i - 1], steps[i - 1]) && states[i] == Next(states[i - 1], steps[i - 1]);
    }
  }

  lemma {:induction false} FullCount(finished: set<nat>, n: nat)
    requires AllFinished(finished, n) && forall j :: j in finished ==> j < n
    ensures |finished| == n
  {
    if n > 0 {
      FullCount(finished - {n - 1}, n - 1);
    } else {
      assert finished == {};
    }
  }

  /** When all that was pushed has been taken and nobody works, as many jobs have finished as were pushed. */
  lemma AllCounted(states: seq<State>, steps: seq<Step>, n: nat, m: nat, i: nat)
    requires IsRun(states, steps, n, m) && i < |states| && AllFinished(states[i].finished, states[i].pushed)
    ensures AllFinished(states[i].finished, Pushes(steps, i)) && |states[i].finished| == Pushes(steps, i)
    ensures Finishes(steps, i) == Pushes(steps, i)
  {
    hide Seen, Roused, Waiting, Tallied;
    Counts(states, steps, n, m, i);
    RunInv(states, steps, n, m, i);
    FullCount(states[i].finished, states[i].pushed);
  }

  // ---------------------------------------------------------------- theorems

  /** No job is stranded: one that was pushed has finished, or is with a worker, or is in the queue, and then someone
      has posted or is about to, or has taken the token and not yet pulled. */
  lemma NotStranded(states: seq<State>, steps: seq<Step>, n: nat, m: nat, i: nat, j: nat)
    requires IsRun(states, steps, n, m) && i < |states| && j < Pushes(steps, i)
    requires j !in states[i].finished && !HeldBySome(states[i].workers, j)
    ensures j in states[i].queue
    ensures states[i].posted || states[i].holder != Nobody
         || exists w :: 0 <= w < |states[i].workers| && OnTheWay(states[i].workers[w])
  {
    EveryJob(states, steps, n, m, i, j);
    RunInv(states, steps, n, m, i);
  }

  /** The pool never goes to sleep over work: when all workers sleep and nobody is pushing, all jobs pushed have
      finished. */
  lemma NoSleepingOnTheJob(states: seq<State>, steps: seq<Step>, n: nat, m: nat, i: nat)
    requires IsRun(states, steps, n, m) && i < |states| && |states[i].workers| > 0 && states[i].holder != Pusher
    requires forall w :: 0 <= w < |states[i].workers| ==> states[i].workers[w].Asleep?
    ensures states[i].queue == [] && AllFinished(states[i].finished, Pushes(steps, i))
    ensures |states[i].finished| == Pushes(steps, i)
  {
    RunInv(states, steps, n, m, i);
    var s := states[i];
    assert s.workers[0].Asleep?;
    assert CountedSet(s.workers) == {};
    NobodyWorking(s, s.pushed);
    AllCounted(states, steps, n, m, i);
  }

  /** First in, first out: a push adds the job with the next number at the end, and the pulls take jobs 0, 1, 2 and so
      on. */
  lemma FirstInFirstOut(states: seq<State>, steps: seq<Step>, n: nat, m: nat, i: nat)
    requires IsRun(states, steps, n, m) && i < |steps|
    ensures steps[i].Push? ==> states[i + 1].queue == states[i].queue + [Pushes(steps, i)]
    ensures steps[i].Pull? && states[i].queue != [] ==>
      var pc := states[i + 1].workers[steps[i].w]; Holds(pc) && pc.job == Pulls(states, steps, i)
  {
    hide OnceEach, Seen, Roused, Waiting, Tallied;
    RunInv(states, steps, n, m, i);
    PullCount(states, steps, n, m, i);
    Counts(states, steps, n, m, i);
  }

  /** No job is ever with two workers, or with one after it has finished. */
  lemma OneWorkerEach(states: seq<State>, steps: seq<Step>, n: nat, m: nat, i: nat, w: nat, x: nat)
    requires IsRun(states, steps, n, m) && i < |states| && w < |states[i].workers| && x < |states[i].workers|
    requires Holds(states[i].workers[w]) && Holds(states[i].workers[x])
    ensures states[i].workers[w].job == states[i].workers[x].job ==> w == x
    ensures states[i].workers[w].job !in states[i].finished
  {
    RunInv(states, steps, n, m, i);
  }

  /** Step `r` is the last before state `i` in which waiter `x` reads the queue length. */
  ghost predicate LastRead(steps: seq<Step>, i: nat, x: nat, r: nat) {
    && r < i <= |steps| && steps[r] == ReadLength(x)
    && forall q :: r < q < i ==> steps[q] != ReadLength(x)
  }

  /** Where the mark of a waiter comes from: the number of jobs pushed when it last read the queue length, finding
      it zero. */
  ghost predicate ReadAt(states: seq<State>, steps: seq<Step>, i: nat, x: nat, mark: nat) {
    exists r: nat :: LastRead(steps, i, x, r) && r < |states| && states[r].queue == [] && states[r].pushed == mark
  }

  lemma Unmarked(n: nat, m: nat, x: nat)
    requires x < |Init(n, m).waiters|
    ensures !Init(n, m).waiters[x].SawEmpty? && !Init(n, m).waiters[x].Returned?
  {
  }

  /** A mark is set by a read of the queue length that finds it zero, and otherwise kept. */
  lemma MarkStep(s: State, step: Step, x: nat)
    requires Enabled(s, step) && x < |Next(s, step).waiters|
    requires Next(s, step).waiters[x].SawEmpty? || Next(s, step).waiters[x].Returned?
    ensures if step == ReadLength(x) then s.queue == [] && s.pushed == Next(s, step).waiters[x].mark else
      && x < |s.waiters| && (s.waiters[x].SawEmpty? || s.waiters[x].Returned?)
      && s.waiters[x].mark == Next(s, step).waiters[x].mark
  {
    hide Signal;
  }

  lemma {:induction false} MarkOrigin(states: seq<State>, steps: seq<Step>, n: nat, m: nat, i: nat, x: nat)
    requires IsRun(states, steps, n, m) && i < |states| && x < |states[i].waiters|
    requires states[i].waiters[x].SawEmpty? || states[i].waiters[x].Returned?
    ensures ReadAt(states, steps, i, x, states[i].waiters[x].mark)
  {
    hide Inv, Enabled, Next;
    if i == 0 {
      Unmarked(n, m, x);
    } else {
      var s, step := states[i - 1], steps[i - 1];
      assert Enabled(s, step) && states[i] == Next(s, step);
      MarkStep(s, step, x);
      if step == ReadLength(x) {
        assert LastRead(steps, i, x, i - 1);
      } else {
        MarkOrigin(states, steps, n, m, i - 1, x);
        var r: nat :| LastRead(steps, i - 1, x, r) && states[r].queue == [] && states[r].pushed == s.waiters[x].mark;
        assert LastRead(steps, i, x, r);
      }
    }
  }

  /** thpool_wait returns only when every job pushed before it last looked at the queue has finished. */
  lemma WaitIsSound(states: seq<State>, steps: seq<Step>, n: nat, m: nat, i: nat, x: nat) returns (r: nat)
    requires IsRun(states, steps, n, m) && i < |states| && x < |states[i].waiters| && states[i].waiters[x].Returned?
    ensures LastRead(steps, i, x, r) && states[r].queue == [] && AllFinished(states[i].finished, Pushes(steps, r))
  {
    RunInv(states, steps, n, m, i);
    MarkOrigin(states, steps, n, m, i, x);
    r :| LastRead(steps, i, x, r) && states[r].queue == [] && states[r].pushed == states[i].waiters[x].mark;
    Counts(states, steps, n, m, r);
  }

  /** No lost wakeup: while a waiter sleeps there is work in the queue or someone working, who will wake it. */
  lemma SleepersHaveCause(states: seq<State>, steps: seq<Step>, n: nat, m: nat, i: nat, x: nat)
    requires IsRun(states, steps, n, m) && i < |states| && x < |states[i].waiters| && states[i].waiters[x].Sleeping?
    ensures |states[i].queue| > 0 || states[i].working > 0
  {
    RunInv(states, steps, n, m, i);
  }

  // ------------------------------------------------------------ no deadlock

  /** Steps that need no outside cause: no new job is pushed, and no wakeup is spurious. */
  predicate Internal(step: Step) {
    !step.Push? && !step.Rouse? && !step.Wake?
  }

  function Sleepers(workers: seq<Worker>): set<nat> {
    set w: nat | w < |workers| && workers[w].Asleep?
  }

  lemma CanSignal(workers: seq<Worker>)
    ensures Signal(workers, Sleepers(workers))
  {
    if exists w :: 0 <= w < |workers| && workers[w].Asleep? {
      var w: nat :| w < |workers| && workers[w].Asleep?;
      assert w in Sleepers(workers);
    }
  }

  /** Whoever holds the counter lock can go on. */
  lemma LockMoves(s: State) returns (step: Step)
    requires Waiting(s) && s.lock.By?
    ensures Enabled(s, step) && Internal(step)
  {
    var i := s.lock.i;
    assert HoldsLock(s.waiters[i]);
    step := if s.waiters[i].Locked? then ReadLength(i) else if s.waiters[i].SawEmpty? then ReadWorking(i) else Sleep(i);
  }

  /** A worker between taking the token and going back to the semaphore can go on, or someone it waits for can. */
  lemma WorkerMoves(s: State, w: nat) returns (step: Step)
    requires Waiting(s) && Tallied(s) && w < |s.workers| && !s.workers[w].Ready? && !s.workers[w].Asleep?
    ensures Enabled(s, step) && Internal(step)
  {
    CanSignal(s.workers);
    match s.workers[w]
    case Running(_) => step := Finish(w);
    case Pulled(_) => step := PullPost(w, Sleepers(s.workers));
    case Counted =>
      if s.holder == Nobody {
        step := Pull(w);
      } else if s.holder == Pusher {
        step := PushPost(Sleepers(s.workers));
      } else {
        step := PullPost(s.holder.w, Sleepers(s.workers));
      }
    case Token =>
      if s.lock.By? {
        step := LockMoves(s);
      } else {
        step := Count(w);
      }
    case Finishing =>
      if s.lock.By? {
        step := LockMoves(s);
      } else {
        step := Uncount(w);
      }
  }

  /** The pool never deadlocks: while there is a job in the queue or a worker counted as working, some step that
      needs no outside help is possible. */
  lemma NeverStuck(states: seq<State>, steps: seq<Step>, n: nat, m: nat, i: nat) returns (step: Step)
    requires IsRun(states, steps, n, m) && i < |states| && |states[i].workers| > 0
    requires |states[i].queue| > 0 || states[i].working > 0
    ensures Enabled(states[i], step) && Internal(step)
  {
    RunInv(states, steps, n, m, i);
    var s := states[i];
    if w: nat :| w < |s.workers| && !s.workers[w].Ready? && !s.workers[w].Asleep? {
      step := WorkerMoves(s, w);
    } else {
      assert CountedSet(s.workers) == {};
      if s.holder == Pusher {
        CanSignal(s.workers);
        step := PushPost(Sleepers(s.workers));
      } else {
        assert s.posted;
        assert s.workers[0].Ready? || s.workers[0].Asleep?;
        var w :| 0 <= w < |s.workers| && s.workers[w].Ready?;
        step := Take(w);
      }
    }
  }
}
