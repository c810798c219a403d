/**
 The shared structure of the thread pool as the source holds it, a record whose fields the lock
 sections update in place. Each method is one lock section and does what its step in PoolQueue says.
 */
module Pool {
  import opened PoolQueue

  class ThreadPool {
    const queue: array<Task>
    const threadCount: nat
    var head: nat
    var tail: nat
    var count: nat
    var shutdown: Shutdown
    var started: int

    ghost function Contents(): Shared
      reads this, queue
    {
      Shared(queue[..], head, tail, count, shutdown, started)
    }

    ghost predicate Valid()
      reads this, queue
    {
      ValidQueue(Contents())
    }

    constructor (threads: nat, queueSize: nat)
      requires 0 < threads <= MAX_THREADS && 0 < queueSize <= MAX_QUEUE
      ensures Valid() && fresh(queue) && queue.Length == queueSize && threadCount == threads
      ensures shutdown == Open && started == threads && Window(Contents()) == []
    {
      threadCount := threads;
      queue := new Task[queueSize](_ => 0);
      head, tail, count := 0, 0, 0;
      shutdown, started := Open, 0;
      new;
      for i := 0 to threads
        invariant Valid() && shutdown == Open && started == i && count == 0
        invariant fresh(queue) && queue.Length == queueSize && threadCount == threads
      {
        started := started + 1;
      }
    }

    /** threadpool_add between lock and unlock. */
    method Add(task: Task) returns (result: AddResult)
      requires Valid()
      modifies this, queue
      ensures Valid() && Contents() == AddTask(old(Contents()), task).0 && result == AddTask(old(Contents()), task).1
      ensures Window(Contents()) ==
              if result == Added then old(Window(Contents())) + [task] else old(Window(Contents()))
      ensures result == QueueFull <==> old(count) == queue.Length
      ensures result == ShuttingDown <==> old(count) < queue.Length && old(shutdown) != Open
    {
      AddAppends(Contents(), task);
      var next := (tail + 1) % queue.Length;
      if count == queue.Length {
        return QueueFull;
      }
      if shutdown != Open {
        return ShuttingDown;
      }
      queue[tail] := task;
      tail := next;
      count := count + 1;
      return Added;
    }

    /** threadpool_thread from the moment it holds the lock to the wait, the exit, or the unlock. */
    method Next() returns (decision: Decision)
      requires Valid()
      modifies this
      ensures Valid() && Contents() == NextTask(old(Contents())).0 && decision == NextTask(old(Contents())).1
      ensures old(Window(Contents())) ==
              if decision.Run? then [decision.task] + Window(Contents()) else Window(Contents())
    {
      NextTakesOldest(Contents());
      if count == 0 && shutdown == Open {
        return Wait;
      }
      if shutdown == Immediate || (shutdown == Graceful && count == 0) {
        started := started - 1;
        return Leave;
      }
      var task := queue[head];
      head := (head + 1) % queue.Length;
      count := count - 1;
      return Run(task);
    }

    /** threadpool_destroy between lock and unlock. */
    method Destroy(graceful: bool) returns (first: bool)
      requires Valid()
      modifies this
      ensures Valid() && (Contents(), first) == BeginShutdown(old(Contents()), graceful)
      ensures Window(Contents()) == old(Window(Contents())) && first == (old(shutdown) == Open)
      ensures first ==> (shutdown == Graceful <==> graceful) && (shutdown == Immediate <==> !graceful)
      ensures !first ==> shutdown == old(shutdown)
    {
      if shutdown != Open {
        return false;
      }
      shutdown := if graceful then Graceful else Immediate;
      return true;
    }
  }

  /** threadpool_create: a null pointer outside the limits. */
  method Create(threadCount: int, queueSize: int) returns (pool: ThreadPool?)
    ensures pool != null <==> 0 < threadCount <= 64 && 0 < queueSize <= 65536
    ensures pool != null ==>
              && fresh(pool) && fresh(pool.queue) && pool.Valid()
              && pool.queue.Length == queueSize && pool.threadCount == threadCount
              && pool.shutdown == Open && pool.started == threadCount && Window(pool.Contents()) == []
  {
    if threadCount <= 0 || threadCount > MAX_THREADS || queueSize <= 0 || queueSize > MAX_QUEUE {
      return null;
    }
    pool := new ThreadPool(threadCount, queueSize);
  }
}
