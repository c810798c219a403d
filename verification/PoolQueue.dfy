/**
 The circular task queue of the thread pool: what each lock section does to the shared structure,
 and the plain queue that the array stands for.
 */
module PoolQueue {
  import opened Common

  /** A function and its argument. */
  type Task = int

  const MAX_THREADS := 64
  const MAX_QUEUE := 65536

  datatype Shutdown = Open | Immediate | Graceful

  /** The fields of the pool that the lock protects. */
  datatype Shared = Shared(queue: seq<Task>, head: nat, tail: nat, count: nat, shutdown: Shutdown, started: int)

  // ----- The lock sections -----

  datatype AddResult = Added | QueueFull | ShuttingDown

  /** The lock section of threadpool_add. A full queue is reported before a shutdown. */
  function AddTask(p: Shared, task: Task): (Shared, AddResult)
    requires p.tail < |p.queue|
  {
    if p.count == |p.queue| then (p, QueueFull)
    else if p.shutdown != Open then (p, ShuttingDown)
    else (p.(queue := p.queue[p.tail := task], tail := (p.tail + 1) % |p.queue|, count := p.count + 1), Added)
  }

  /** What a worker that holds the lock does next. */
  datatype Decision = Wait | Leave | Run(task: Task)

  /** The lock section of threadpool_thread, up to the wait, the exit, or the unlock in front of the task. */
  function NextTask(p: Shared): (Shared, Decision)
    requires p.head < |p.queue|
  {
    if p.count == 0 then
      if p.shutdown == Open then (p, Wait) else (p.(started := p.started - 1), Leave)
    else if p.shutdown == Immediate then (p.(started := p.started - 1), Leave)
    else (p.(head := (p.head + 1) % |p.queue|, count := p.count - 1), Run(p.queue[p.head]))
  }

  /** The lock section of threadpool_destroy; false when the pool is already shutting down. */
  function BeginShutdown(p: Shared, graceful: bool): (Shared, bool) {
    if p.shutdown != Open then (p, false)
    else (p.(shutdown := if graceful then Graceful else Immediate), true)
  }

  // ----- The queue behind the array -----

  ghost predicate ValidQueue(p: Shared) {
    p.head < |p.queue| && p.tail < |p.queue| && p.count <= |p.queue| && p.tail == Lap(p.head + p.count, |p.queue|)
  }

  /** The tail is where the source's invariant puts it. */
  lemma TailFollowsHead(p: Shared)
    requires p.head < |p.queue| && p.count <= |p.queue|
    ensures ValidQueue(p) <==> p.tail == (p.head + p.count) % |p.queue|
  {
    LapIsRemainder(p.head + p.count, |p.queue|);
  }

  /** The pending tasks, oldest first. */
  ghost function Window(p: Shared): (w: seq<Task>)
    requires ValidQueue(p)
    ensures |w| == p.count
  {
    seq(p.count, i requires 0 <= i < p.count => p.queue[Lap(p.head + i, |p.queue|)])
  }

  /** The circular queue is a queue: adding appends to the window, exactly when there is room and no shutdown. */
  lemma AddAppends(p: Shared, task: Task)
    requires ValidQueue(p)
    ensures ValidQueue(AddTask(p, task).0) && |AddTask(p, task).0.queue| == |p.queue|
    ensures AddTask(p, task).1 == Added <==> p.count < |p.queue| && p.shutdown == Open
    ensures AddTask(p, task).1 == QueueFull <==> p.count == |p.queue|
    ensures AddTask(p, task).1 == ShuttingDown <==> p.count < |p.queue| && p.shutdown != Open
    ensures AddTask(p, task).1 != Added ==> AddTask(p, task).0 == p
    ensures AddTask(p, task).1 == Added ==> Window(AddTask(p, task).0) == Window(p) + [task]
  {
    if p.count < |p.queue| && p.shutdown == Open {
      LapIsRemainder(p.tail + 1, |p.queue|);
      var q := AddTask(p, task).0;
      forall i | 0 <= i < q.count
        ensures Window(q)[i] == (Window(p) + [task])[i]
      {
        assert Window(q)[i] == q.queue[Lap(p.head + i, |p.queue|)];
        if i < p.count {
          assert Window(p)[i] == p.queue[Lap(p.head + i, |p.queue|)];
        }
      }
    }
  }

  /** Taking a task removes the oldest one of the window. */
  lemma NextTakesOldest(p: Shared)
    requires ValidQueue(p)
    ensures ValidQueue(NextTask(p).0) && |NextTask(p).0.queue| == |p.queue|
    ensures NextTask(p).1.Wait? <==> p.count == 0 && p.shutdown == Open
    ensures NextTask(p).1.Leave? <==> p.shutdown == Immediate || (p.shutdown == Graceful && p.count == 0)
    ensures NextTask(p).1.Run? ==> Window(p) == [NextTask(p).1.task] + Window(NextTask(p).0)
    ensures !NextTask(p).1.Run? ==> Window(p) == Window(NextTask(p).0)
  {
    if NextTask(p).1.Run? {
      LapIsRemainder(p.head + 1, |p.queue|);
      var q := NextTask(p).0;
      forall i | 0 <= i < p.count
        ensures Window(p)[i] == ([p.queue[p.head]] + Window(q))[i]
      {
        assert Window(p)[i] == p.queue[Lap(p.head + i, |p.queue|)];
        if i > 0 {
          assert Window(q)[i - 1] == q.queue[Lap(q.head + (i - 1), |p.queue|)];
        }
      }
    }
  }
}
