/** The job queue of the thread pool: a singly linked list from the front to the rear. */
module JobQueue {
  class Job {
    var prev: Job?
    constructor ()
      ensures prev == null
    {
      prev := null;
    }
  }

  class Queue {
    var front: Job?
    var rear: Job?
    var len: nat
    /** The jobs in the queue, the front one first. */
    ghost var jobs: seq<Job>

    ghost predicate Valid()
      reads this, jobs
    {
      && len == |jobs|
      && (forall i, j :: 0 <= i < j < |jobs| ==> jobs[i] != jobs[j])
      && (len == 0 ==> front == null && rear == null)
      && (len > 0 ==> front == jobs[0] && rear == jobs[len - 1] && jobs[len - 1].prev == null)
      && (forall i :: 0 <= i < len - 1 ==> jobs[i].prev == jobs[i + 1])
    }

    constructor ()
      ensures Valid() && jobs == []
    {
      front, rear, len, jobs := null, null, 0, [];
    }

    /** Appends a job; the semaphore is then posted. */
    method Push(newjob: Job)
      requires Valid() && newjob !in jobs
      modifies this, newjob, jobs
      ensures Valid() && jobs == old(jobs) + [newjob]
    {
      newjob.prev := null;
      if len == 0 {
        front := newjob;
        rear := newjob;
      } else {
        rear.prev := newjob;
        rear := newjob;
      }
      len := len + 1;
      jobs := jobs + [newjob];
    }

    /** Takes the front job, if there is one; `post` says whether the semaphore is posted for the others. */
    method Pull() returns (job: Job?, post: bool)
      requires Valid()
      modifies this
      ensures Valid() && post == (|old(jobs)| > 1)
      ensures if old(jobs) == [] then job == null && jobs == [] else job == old(jobs)[0] && jobs == old(jobs)[1..]
    {
      job, post := front, false;
      if len == 1 {
        front := null;
        rear := null;
        len := 0;
        jobs := [];
      } else if len > 1 {
        front := job.prev;
        len := len - 1;
        jobs := jobs[1..];
        post := true;
      }
    }
  }
}
