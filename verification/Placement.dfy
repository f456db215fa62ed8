/** Placing tasks on the fast device, within its split point. */
module Placement {
  import opened Common

  /** A registered task: where its new nodes go, and its throughput statistics. */
  datatype Task = Task(place: Place, throughput: nat, last: nat, lowTics: nat)

  const LOW_THROUGHPUT_EPOCHS: nat := 16

  ghost function FastCount(tasks: seq<Task>): nat {
    if tasks == [] then 0 else FastCount(tasks[..|tasks| - 1]) + if tasks[|tasks| - 1].place == Fast then 1 else 0
  }

  lemma {:induction false} FastAtMost(tasks: seq<Task>)
    ensures FastCount(tasks) <= |tasks|
    ensures FastCount(tasks) == |tasks| <==> forall i :: 0 <= i < |tasks| ==> tasks[i].place == Fast
  {
    if tasks != [] {
      FastAtMost(tasks[..|tasks| - 1]);
      assert forall i :: 0 <= i < |tasks| - 1 ==> tasks[..|tasks| - 1][i] == tasks[i];
    }
  }

  /** Changing one task changes the count by what that task contributes. */
  lemma {:induction false} FastSet(tasks: seq<Task>, i: nat, t: Task)
    requires i < |tasks|
    ensures FastCount(tasks[i := t]) ==
      FastCount(tasks) - (if tasks[i].place == Fast then 1 else 0) + if t.place == Fast then 1 else 0
  {
    var n := |tasks| - 1;
    if i < n {
      FastSet(tasks[..n], i, t);
      assert tasks[i := t][..n] == tasks[..n][i := t];
    } else {
      assert tasks[i := t][..n] == tasks[..n];
    }
  }

  lemma {:induction false} FastDelete(tasks: seq<Task>, i: nat)
    requires i < |tasks|
    ensures FastCount(tasks[..i] + tasks[i + 1..]) == FastCount(tasks) - if tasks[i].place == Fast then 1 else 0
  {
    var n := |tasks| - 1;
    var rest := tasks[..i] + tasks[i + 1..];
    if i < n {
      FastDelete(tasks[..n], i);
      assert rest[..n - 1] == tasks[..n][..i] + tasks[..n][i + 1..];
      assert rest[n - 1] == tasks[n];
    } else {
      assert rest == tasks[..n];
    }
  }

  /** What an epoch makes of one task, whatever the others do: it is on the fast device only if it has had
      throughput in one of the last epochs, and loses its place there only if it has not. */
  predicate Judged(before: Task, after: Task) {
    && after.last == before.throughput && after.throughput == 0
    && after.lowTics == (if before.throughput == 0 then before.lowTics + 1 else 0)
    && (after.place == Fast ==> after.lowTics <= LOW_THROUGHPUT_EPOCHS)
    && (before.place == Fast && after.place == Slow ==> after.lowTics > LOW_THROUGHPUT_EPOCHS)
  }

  /** Task `i` ends up on the fast device exactly if it has had throughput lately and either was there or found
      room, counting the tasks before it where they ended up and the others where they were. */
  ghost predicate Settled(before: seq<Task>, after: seq<Task>, split: nat, i: nat) {
    && i < |before| == |after|
    && (after[i].place == Fast <==>
          && after[i].lowTics <= LOW_THROUGHPUT_EPOCHS
          && (before[i].place == Fast || FastCount(after[..i] + before[i..]) < split))
  }

  lemma StaySettled(before: seq<Task>, after: seq<Task>, after': seq<Task>, split: nat, n: nat)
    requires n < |before| == |after| == |after'| && forall i :: 0 <= i < n ==> after'[i] == after[i]
    requires forall i :: 0 <= i < n ==> Settled(before, after, split, i)
    ensures forall i :: 0 <= i < n ==> Settled(before, after', split, i)
  {
    hide FastCount;
    forall i | 0 <= i < n ensures Settled(before, after', split, i) {
      assert Settled(before, after, split, i);
      assert after'[..i] == after[..i];
    }
  }

  lemma NowSettled(before: seq<Task>, now: seq<Task>, split: nat, n: nat, t: Task)
    requires n < |before| == |now| && forall i :: n <= i < |now| ==> now[i] == before[i]
    requires t.place == Fast <==>
      t.lowTics <= LOW_THROUGHPUT_EPOCHS && (before[n].place == Fast || FastCount(now) < split)
    ensures Settled(before, now[n := t], split, n)
  {
    hide FastCount;
    assert now[n := t][..n] + before[n..] == now;
  }

  /** Some task from `j` on is on the slow device for want of throughput. */
  ghost predicate IdleFrom(tasks: seq<Task>, j: nat) {
    exists i :: j <= i < |tasks| && tasks[i].place == Slow && tasks[i].lowTics > LOW_THROUGHPUT_EPOCHS
  }

  /** One more task does not undo what holds of those before it. */
  lemma Passed(before: seq<Task>, after: seq<Task>, n: nat)
    requires n < |after| == |before| && forall i :: 0 <= i < n ==> after[i] == before[i]
    ensures forall j: nat :: j < n && IdleFrom(before[..n], j) ==> IdleFrom(after[..n + 1], j)
    ensures var now := after[..n + 1];
      after[n].place == Slow && after[n].lowTics > LOW_THROUGHPUT_EPOCHS ==>
        forall j: nat :: j <= n ==> IdleFrom(now, j)
  {
    forall j: nat | j < n && IdleFrom(before[..n], j) ensures IdleFrom(after[..n + 1], j) {
      var i :| j <= i < n && before[..n][i].place == Slow && before[..n][i].lowTics > LOW_THROUGHPUT_EPOCHS;
      assert after[..n + 1][i] == before[..n][i];
    }
    if after[n].place == Slow && after[n].lowTics > LOW_THROUGHPUT_EPOCHS {
      assert after[..n + 1][n] == after[n];
    }
  }

  /** The first `n` tasks leave no room unused: the fast device is full, or those still slow are followed by an idle
      one. */
  ghost predicate Used(tasks: seq<Task>, n: nat, full: bool) {
    n <= |tasks| && (full || forall j :: 0 <= j < n && tasks[j].place == Slow ==> IdleFrom(tasks[..n], j))
  }

  lemma UsedNone(tasks: seq<Task>, full: bool)
    ensures Used(tasks, 0, full)
  {
  }

  lemma UsedAll(tasks: seq<Task>, full: bool)
    requires Used(tasks, |tasks|, full)
    ensures full || forall j :: 0 <= j < |tasks| && tasks[j].place == Slow ==> IdleFrom(tasks, j)
  {
    assert tasks[..|tasks|] == tasks;
  }

  lemma UsedNext(before: seq<Task>, after: seq<Task>, n: nat, full: bool, full': bool)
    requires n < |after| == |before| && (forall i :: 0 <= i < n ==> after[i] == before[i]) && Used(before, n, full)
    requires after[n].place == Slow ==> full' || after[n].lowTics > LOW_THROUGHPUT_EPOCHS
    requires full && !full' ==> after[n].place == Slow
    ensures Used(after, n + 1, full')
  {
    hide IdleFrom;
    Passed(before, after, n);
  }

  /** Task `i` loses its place on the fast device in this epoch, be it one that it has just got. */
  ghost predicate Demoted(before: seq<Task>, after: seq<Task>, split: nat, i: nat) {
    && i < |before| == |after| && after[i].place == Slow
    && (before[i].place == Fast || FastCount(after[..i] + before[i..]) < split)
  }

  /** Without a demotion, the epoch ends with the fast device full or every task on it. */
  lemma FullOrAllFast(before: seq<Task>, after: seq<Task>, split: nat)
    requires |before| == |after| && forall i :: 0 <= i < |after| ==> !Demoted(before, after, split, i)
    ensures FastCount(after) >= split || forall i :: 0 <= i < |after| ==> after[i].place == Fast
  {
    assert after[..|after|] + before[|after|..] == after;
    FullFrom(before, after, split, |after|);
  }

  lemma {:induction false} FullFrom(before: seq<Task>, after: seq<Task>, split: nat, n: nat)
    requires n <= |before| == |after| && forall i :: 0 <= i < |after| ==> !Demoted(before, after, split, i)
    ensures FastCount(after[..n] + before[n..]) >= split || forall i :: 0 <= i < n ==> after[i].place == Fast
  {
    if n > 0 {
      FullFrom(before, after, split, n - 1);
      assert !Demoted(before, after, split, n - 1);
      var mix := after[..n - 1] + before[n - 1..];
      FastSet(mix, n - 1, after[n - 1]);
      assert mix[n - 1 := after[n - 1]] == after[..n] + before[n..];
    }
  }

  function Throughput(tasks: seq<Task>): nat {
    if tasks == [] then 0 else Throughput(tasks[..|tasks| - 1]) + tasks[|tasks| - 1].throughput
  }

  /** The total is that of the parts, and of one task its own. */
  lemma {:induction false} ThroughputParts(a: seq<Task>, b: seq<Task>, t: Task)
    ensures Throughput(a + b) == Throughput(a) + Throughput(b) && Throughput([t]) == t.throughput
  {
    if b == [] {
      assert a + b == a;
    } else {
      ThroughputParts(a, b[..|b| - 1], t);
      assert (a + b)[..|a + b| - 1] == a + b[..|b| - 1];
    }
    assert [t][..0] == [];
  }

  lemma ThroughputNext(tasks: seq<Task>)
    ensures Throughput([]) == 0
    ensures tasks != [] ==> Throughput(tasks) == Throughput(tasks[..|tasks| - 1]) + tasks[|tasks| - 1].throughput
  {
  }

  class Scheduler {
    const split: nat
    var tasks: seq<Task>
    var active: nat
    var usage: int

    /** The usage counter counts the tasks placed on the fast device, never more than the split point allows. */
    ghost predicate Valid()
      reads this
    {
      active == |tasks| && usage == FastCount(tasks) <= split
    }

    constructor (split: nat)
      ensures Valid() && tasks == [] && this.split == split
    {
      this.split := split;
      tasks, active, usage := [], 0, 0;
    }

    /** Registers a task: on the fast device if there are fewer active tasks than the split point. */
    method Register()
      requires Valid()
      modifies this
      ensures Valid() && |tasks| == |old(tasks)| + 1 && tasks[..|old(tasks)|] == old(tasks)
      ensures tasks[|old(tasks)|] == Task(if |old(tasks)| < split then Fast else Slow, 0, 0, 0)
    {
      FastAtMost(tasks);
      var place := Slow;
      if active < split {
        place := Fast;
        usage := usage + 1;
      }
      active := active + 1;
      ghost var before := tasks;
      tasks := tasks + [Task(place, 0, 0, 0)];
      assert tasks[..|tasks| - 1] == before;
    }

    method Delete(i: nat)
      requires Valid() && i < |tasks|
      modifies this
      ensures Valid() && tasks == old(tasks)[..i] + old(tasks)[i + 1..]
    {
      FastDelete(tasks, i);
      if tasks[i].place == Fast {
        usage := usage - 1;
      }
      active := active - 1;
      tasks := tasks[..i] + tasks[i + 1..];
    }

    /** Task `i` is promoted if there is room on the fast device, and demoted after too many epochs without
        throughput. */
    method Judge(i: nat)
      requires Valid() && i < |tasks|
      modifies this`tasks, this`usage
      ensures Valid() && tasks == old(tasks)[i := tasks[i]] && Judged(old(tasks)[i], tasks[i])
      ensures tasks[i].place == Fast <==>
        tasks[i].lowTics <= LOW_THROUGHPUT_EPOCHS && (old(tasks)[i].place == Fast || FastCount(old(tasks)) < split)
      ensures tasks[i].place == Slow ==> usage == split || tasks[i].lowTics > LOW_THROUGHPUT_EPOCHS
      ensures old(usage) == split && usage != split ==> tasks[i].place == Slow
    {
      hide FastCount;
      var t := tasks[i];
      t := t.(last := t.throughput, throughput := 0);
      if t.place == Slow && usage < split {
        usage := usage + 1;
        t := t.(place := Fast);
      }
      t := t.(lowTics := if t.last == 0 then t.lowTics + 1 else 0);
      if t.lowTics > LOW_THROUGHPUT_EPOCHS && t.place == Fast {
        t := t.(place := Slow);
        usage := usage - 1;
      }
      FastSet(tasks, i, t);
      tasks := tasks[i := t];
    }

    /** One epoch: each task in turn is promoted or demoted. At the end the fast device is full, unless a task
        demoted in this epoch made room after the last one that could have used it was passed. */
    method Epoch() returns (total: nat)
      requires Valid()
      modifies this`tasks, this`usage
      ensures Valid() && |tasks| == |old(tasks)| && total == Throughput(old(tasks))
      ensures usage == split || forall j :: 0 <= j < |tasks| && tasks[j].place == Slow ==> IdleFrom(tasks, j)
      ensures forall i :: 0 <= i < |tasks| ==> Judged(old(tasks)[i], tasks[i]) && Settled(old(tasks), tasks, split, i)
    {
      hide FastCount, IdleFrom, Throughput, Settled, Used, Judged;
      total := 0;
      UsedNone(tasks, usage == split);
      ThroughputNext(tasks);
      for i := 0 to |tasks|
        invariant Valid() && |tasks| == |old(tasks)| && forall j :: i <= j < |tasks| ==> tasks[j] == old(tasks)[j]
        invariant total == Throughput(old(tasks)[..i])
        invariant Used(tasks, i, usage == split)
        invariant forall j :: 0 <= j < i ==> Judged(old(tasks)[j], tasks[j])
        invariant forall j :: 0 <= j < i ==> Settled(old(tasks), tasks, split, j)
      {
        ghost var before, full := tasks, usage == split;
        assert old(tasks)[..i + 1][..i] == old(tasks)[..i];
        ThroughputNext(old(tasks)[..i + 1]);
        total := total + tasks[i].throughput;
        Judge(i);
        NowSettled(old(tasks), before, split, i, tasks[i]);
        StaySettled(old(tasks), before, tasks, split, i);
        UsedNext(before, tasks, i, full, usage == split);
      }
      assert old(tasks)[..|tasks|] == old(tasks);
      UsedAll(tasks, usage == split);
    }
  }
}
