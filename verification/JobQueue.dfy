/** The queue of pending messages: an intrusive singly linked list with a tail pointer. */
module JobQueues {
  import opened Lsp

  class Job {
    const isNotification: bool
    const id: Option<int>
    var isCancelled: bool
    var next: Job?

    constructor (isNotification: bool, id: Option<int>)
      ensures this.isNotification == isNotification && this.id == id && !isCancelled && next == null
    {
      this.isNotification, this.id, isCancelled, next := isNotification, id, false, null;
    }
  }

  ghost function At(jobs: seq<Job>, i: int): Job? {
    if 0 <= i < |jobs| then jobs[i] else null
  }

  class JobQueue {
    var head: Job?
    var tail: Job?
    var closed: bool
    ghost var jobs: seq<Job>

    /** The links spell out jobs, and tail is its last element. */
    ghost predicate Valid()
      reads this, jobs
    {
      && (forall i, j :: 0 <= i < j < |jobs| ==> jobs[i] != jobs[j])
      && (forall i :: 0 <= i < |jobs| ==> jobs[i].next == At(jobs, i + 1))
      && head == At(jobs, 0)
      && tail == At(jobs, |jobs| - 1)
    }

    constructor ()
      ensures Valid() && jobs == [] && !closed
    {
      head, tail, closed, jobs := null, null, false, [];
    }

    method Push(job: Job)
      requires Valid() && job !in jobs
      modifies this`head, this`tail, this`jobs, job`next, (if tail == null then {} else {tail})`next
      ensures Valid() && jobs == old(jobs) + [job]
    {
      job.next := null;
      if tail != null {
        tail.next := job;
      } else {
        head := job;
      }
      tail := job;
      jobs := jobs + [job];
    }

    /** Waiting for work is over: the queue holds a job, or it is closed and the result is null. */
    method Pop() returns (job: Job?)
      requires Valid() && (head != null || closed)
      modifies this`head, this`tail, this`jobs
      ensures Valid()
      ensures job == null <==> old(jobs) == []
      ensures job == null ==> closed && jobs == []
      ensures job != null ==> old(jobs) == [job] + jobs
    {
      job := head;
      if job != null {
        head := job.next;
        if head == null {
          tail := null;
        }
        jobs := jobs[1..];
      }
    }

    method Close()
      requires Valid()
      modifies this`closed
      ensures Valid() && closed
    {
      closed := true;
    }

    /** Mark every queued request with the id; nothing leaves the queue or changes place. */
    method MarkCancelledById(cancelId: int)
      requires Valid()
      modifies jobs`isCancelled
      ensures Valid()
      ensures forall i :: 0 <= i < |jobs| ==>
                jobs[i].isCancelled ==
                  (old(jobs[i].isCancelled) || (!jobs[i].isNotification && jobs[i].id.Some? && jobs[i].id.value == cancelId))
    {
      var j := head;
      ghost var k := 0;
      while j != null
        invariant 0 <= k <= |jobs|
        invariant j == At(jobs, k)
        invariant forall i :: 0 <= i < k ==>
                    jobs[i].isCancelled == (old(jobs[i].isCancelled) || (!jobs[i].isNotification && jobs[i].id == Some(cancelId)))
        invariant forall i :: k <= i < |jobs| ==> jobs[i].isCancelled == old(jobs[i].isCancelled)
        decreases |jobs| - k
      {
        assert j == jobs[k] && j.next == At(jobs, k + 1);
        if !j.isNotification && j.id == Some(cancelId) {
          j.isCancelled := true;
        }
        j, k := j.next, k + 1;
      }
    }
  }
}
