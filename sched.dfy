/**
 * `QueueScheduler`, a FIFO run queue. `fetch` takes the front task and
 * hands it out only if it is runnable; a task found sleeping goes to the
 * back. The model is of a build without the `test` feature, where an empty
 * queue is not refilled from the test list.
 */
module Sched {
  import opened Wrappers
  import opened Tasks

  /** What `fetch` does: hand out a task, requeue the front one, or panic on `unwrap`. */
  datatype Fetched = Run(task: Task) | Requeued | Panicked

  class QueueScheduler {
    var queue: seq<Task>

    constructor ()
      ensures queue == []
    {
      queue := [];
    }

    /** `add`: the task joins the back of the queue. */
    method Add(task: Task)
      modifies this
      ensures queue == old(queue) + [task]
    {
      queue := queue + [task];
    }

    /** `fetch` as written: `pop_front().unwrap()` panics when the queue is empty. */
    method FetchAsWritten() returns (r: Fetched)
      modifies this
      ensures old(queue) == [] ==> r == Panicked && queue == old(queue)
      ensures old(queue) != [] ==> r == FetchFront(old(queue)).0 && queue == FetchFront(old(queue)).1
    {
      if |queue| == 0 {
        return Panicked;
      }
      var task := queue[0];
      queue := queue[1..];
      if task.state != Runnable {
        queue := queue + [task];
        r := Requeued;
      } else {
        r := Run(task);
      }
    }

    /**
     * `fetch` with the empty queue answered by `None`, as the test-mode
     * branch does once its list is exhausted: no task, nothing changes.
     */
    method Fetch() returns (r: Option<Task>)
      modifies this
      ensures old(queue) == [] ==> r.None? && queue == []
      ensures old(queue) != [] ==> queue == FetchFront(old(queue)).1
      ensures old(queue) != [] ==> (r.Some? <==> FetchFront(old(queue)).0.Run?)
      ensures old(queue) != [] && r.Some? ==> r.value == FetchFront(old(queue)).0.task
    {
      if |queue| == 0 {
        return None;
      }
      var task := queue[0];
      queue := queue[1..];
      if task.state != Runnable {
        queue := queue + [task];
        r := None;
      } else {
        r := Some(task);
      }
    }
  }

  /**
   * One `fetch` on a non-empty queue, with the front task's state as it is
   * now: a runnable front task leaves the queue; any other is rotated to the
   * back.
   */
  function FetchFront(q: seq<Task>): (r: (Fetched, seq<Task>))
    requires q != []
    reads q[0]
    ensures r.0 != Panicked && (r.0.Run? <==> q[0].state == Runnable)
    ensures r.0.Run? ==> r.0.task == q[0] && r.1 == q[1..]
    ensures r.0.Requeued? ==> r.1 == q[1..] + [q[0]]
  {
    if q[0].state != Runnable then (Requeued, q[1..] + [q[0]]) else (Run(q[0]), q[1..])
  }

  /**
   * `fetch` loses no task: when it hands out none the queue holds the same
   * tasks, and when it hands one out that task plus the queue is the old
   * queue.
   */
  lemma {:induction false} FetchKeepsTasks(q: seq<Task>)
    requires q != []
    ensures FetchFront(q).0.Requeued? ==> multiset(FetchFront(q).1) == multiset(q)
    ensures FetchFront(q).0.Run? ==> multiset(FetchFront(q).1) + multiset{FetchFront(q).0.task} == multiset(q)
  {
    assert q == [q[0]] + q[1..];
  }

  /** On an empty queue the written `fetch` panics and the corrected one returns `None`. */
  method EmptyQueueFetch() returns (written: Fetched, intended: Option<Task>)
    ensures written == Panicked && intended == None
  {
    var s := new QueueScheduler();
    written := s.FetchAsWritten();
    var t := new QueueScheduler();
    intended := t.Fetch();
  }
}
