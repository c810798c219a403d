/**
 The thread pool as one concurrent system. A state holds the shared structure, where every worker
 is and how far threadpool_destroy has come; every lock section, every task that returns and every
 join is one step, and the steps interleave freely.
 */
module PoolMachine {
  import opened Common
  import opened PoolQueue

  /** Where a worker is: in front of the lock, on the condition variable, in a task, or gone. */
  datatype Worker =
    | Ready
    | Parked
    | Running(index: nat, task: Task)
    | Exited

  datatype Destroyer =
    | Idle
    | Joining(next: nat)
    | Done(freed: bool)

  /**
   The pool in action. The last three fields are its history: the tasks accepted, the tasks taken by
   a worker, both in that order, and the positions of the tasks that have returned.
   */
  datatype System = System(
    pool: Shared,
    workers: seq<Worker>,
    destroyer: Destroyer,
    accepted: seq<Task>,
    taken: seq<Task>,
    returned: multiset<nat>)

  /** threadpool_create, taken as one step. */
  function Create(threadCount: int, queueSize: int): Option<System> {
    if threadCount <= 0 || threadCount > MAX_THREADS || queueSize <= 0 || queueSize > MAX_QUEUE then None
    else Some(System(
      Shared(seq(queueSize, _ => 0), 0, 0, 0, Open, threadCount),
      seq(threadCount, _ => Ready), Idle, [], [], multiset{}))
  }

  // ----- Steps -----

  datatype Action =
    | Add(task: Task, woken: set<nat>)
    | Look(worker: nat)
    | Spurious(worker: nat)
    | Return(worker: nat)
    | Destroy(graceful: bool)
    | Join
    | Free

  ghost predicate AnyParked(ws: seq<Worker>) {
    exists i :: 0 <= i < |ws| && ws[i].Parked?
  }

  /** A signal wakes at least one waiting worker if there is any; it may wake more. */
  ghost predicate Signals(ws: seq<Worker>, woken: set<nat>) {
    && (forall i :: i in woken ==> i < |ws| && ws[i].Parked?)
    && (AnyParked(ws) ==> woken != {})
  }

  ghost predicate Enabled(s: System, a: Action)
    requires ValidQueue(s.pool)
  {
    !s.destroyer.Done? &&
    match a {
      case Add(task, woken) =>
        if AddTask(s.pool, task).1 == Added then Signals(s.workers, woken) else woken == {}
      case Look(w) => w < |s.workers| && s.workers[w].Ready?
      case Spurious(w) => w < |s.workers| && s.workers[w].Parked?
      case Return(w) => w < |s.workers| && s.workers[w].Running?
      case Destroy(_) => true
      case Join => s.destroyer.Joining? && s.destroyer.next < |s.workers| && s.workers[s.destroyer.next].Exited?
      case Free => s.destroyer == Joining(|s.workers|)
    }
  }

  function Wake(ws: seq<Worker>, woken: set<nat>): (r: seq<Worker>)
    ensures |r| == |ws|
  {
    seq(|ws|, i requires 0 <= i < |ws| => if i in woken then Ready else ws[i])
  }

  function Broadcast(ws: seq<Worker>): (r: seq<Worker>)
    ensures |r| == |ws|
  {
    seq(|ws|, i requires 0 <= i < |ws| => if ws[i].Parked? then Ready else ws[i])
  }

  ghost function Looked(s: System, w: nat): System
    requires ValidQueue(s.pool) && w < |s.workers|
  {
    var (pool, decision) := NextTask(s.pool);
    match decision {
      case Wait => s.(pool := pool, workers := s.workers[w := Parked])
      case Leave => s.(pool := pool, workers := s.workers[w := Exited])
      case Run(task) =>
        s.(pool := pool, workers := s.workers[w := Running(|s.taken|, task)], taken := s.taken + [task])
    }
  }

  ghost function Apply(s: System, a: Action): System
    requires ValidQueue(s.pool) && Enabled(s, a)
  {
    match a {
      case Add(task, woken) =>
        var (pool, result) := AddTask(s.pool, task);
        if result != Added then s
        else s.(pool := pool, workers := Wake(s.workers, woken), accepted := s.accepted + [task])
      case Look(w) => Looked(s, w)
      case Spurious(w) => s.(workers := s.workers[w := Ready])
      case Return(w) =>
        s.(workers := s.workers[w := Ready], returned := s.returned + multiset{s.workers[w].index})
      case Destroy(graceful) =>
        var (pool, first) := BeginShutdown(s.pool, graceful);
        if !first then s
        else s.(pool := pool, workers := Broadcast(s.workers), destroyer := Joining(0))
      case Join => s.(destroyer := Joining(s.destroyer.next + 1))
      case Free => s.(destroyer := Done(s.pool.started <= 0))
    }
  }

  // ----- Counting workers -----

  ghost function Total(ws: seq<Worker>, weight: Worker -> nat): nat {
    if ws == [] then 0 else weight(ws[0]) + Total(ws[1..], weight)
  }

  ghost function Awake(): Worker -> nat {
    (w: Worker) => if w.Ready? then 1 else 0
  }

  ghost function Alive(): Worker -> nat {
    (w: Worker) => if w.Exited? then 0 else 1
  }

  ghost function Executing(k: nat): Worker -> nat {
    (w: Worker) => if w.Running? && w.index == k then 1 else 0
  }

  /** How many more steps a worker takes at most once the pool shuts down, not counting pending tasks. */
  ghost function Effort(): Worker -> nat {
    (w: Worker) => if w.Running? then 2 else if w.Exited? then 0 else 1
  }

  lemma {:induction false} TotalAfterUpdate(ws: seq<Worker>, i: nat, w: Worker, weight: Worker -> nat)
    requires i < |ws|
    ensures Total(ws[i := w], weight) + weight(ws[i]) == Total(ws, weight) + weight(w)
  {
    if i == 0 {
      assert ws[0 := w][1..] == ws[1..];
    } else {
      TotalAfterUpdate(ws[1..], i - 1, w, weight);
      assert ws[i := w][1..] == ws[1..][i - 1 := w];
    }
  }

  lemma {:induction false} TotalGrows(ws: seq<Worker>, vs: seq<Worker>, weight: Worker -> nat)
    requires |ws| == |vs|
    requires forall i :: 0 <= i < |ws| ==> weight(ws[i]) <= weight(vs[i])
    ensures Total(ws, weight) <= Total(vs, weight)
    ensures (exists i :: 0 <= i < |ws| && weight(ws[i]) < weight(vs[i])) ==> Total(ws, weight) < Total(vs, weight)
  {
    if ws != [] {
      TotalGrows(ws[1..], vs[1..], weight);
      if i :| 0 <= i < |ws| && weight(ws[i]) < weight(vs[i]) {
        if i > 0 {
          assert ws[1..][i - 1] == ws[i] && vs[1..][i - 1] == vs[i];
        }
      }
    }
  }

  lemma TotalUnchanged(ws: seq<Worker>, vs: seq<Worker>, weight: Worker -> nat)
    requires |ws| == |vs|
    requires forall i :: 0 <= i < |ws| ==> weight(ws[i]) == weight(vs[i])
    ensures Total(ws, weight) == Total(vs, weight)
  {
    TotalGrows(ws, vs, weight);
    TotalGrows(vs, ws, weight);
  }

  lemma {:induction false} TotalIsZero(ws: seq<Worker>, weight: Worker -> nat)
    ensures Total(ws, weight) == 0 <==> forall i :: 0 <= i < |ws| ==> weight(ws[i]) == 0
  {
    if ws != [] {
      TotalIsZero(ws[1..], weight);
      assert forall i :: 0 < i < |ws| ==> ws[i] == ws[1..][i - 1];
      if forall i :: 0 <= i < |ws| ==> weight(ws[i]) == 0 {
        assert forall i :: 0 <= i < |ws[1..]| ==> ws[1..][i] == ws[i + 1];
      }
    }
  }

  // ----- The invariant -----

  /** The window of the array is what was accepted and not yet taken; tasks are taken in acceptance order. */
  ghost predicate QueueInv(s: System) {
    && ValidQueue(s.pool)
    && s.accepted == s.taken + Window(s.pool)
  }

  /** Every taken task is in exactly one place: in the hands of one worker, or returned once. */
  ghost predicate TaskInv(s: System) {
    && (forall i :: 0 <= i < |s.workers| && s.workers[i].Running? ==>
          s.workers[i].index < |s.taken| && s.workers[i].task == s.taken[s.workers[i].index])
    && (forall k: nat :: s.returned[k] + Total(s.workers, Executing(k)) == if k < |s.taken| then 1 else 0)
  }

  /** No wake-up is lost: while a worker waits, there are at least as many awake workers as pending tasks. */
  ghost predicate WakeInv(s: System) {
    && (s.pool.shutdown == Open && AnyParked(s.workers) ==> s.pool.count <= Total(s.workers, Awake()))
    && (s.pool.shutdown != Open ==> !AnyParked(s.workers))
  }

  ghost predicate AnyExited(ws: seq<Worker>) {
    exists i :: 0 <= i < |ws| && ws[i].Exited?
  }

  ghost predicate ShutdownInv(s: System) {
    && s.pool.started == Total(s.workers, Alive())
    && (s.destroyer.Idle? <==> s.pool.shutdown == Open)
    && (s.pool.shutdown == Open ==> !AnyExited(s.workers))
    && (s.pool.shutdown == Graceful && AnyExited(s.workers) ==> s.pool.count == 0)
    && match s.destroyer {
         case Idle => true
         case Joining(n) => n <= |s.workers| && forall i :: 0 <= i < n ==> s.workers[i].Exited?
         case Done(freed) => freed && forall i :: 0 <= i < |s.workers| ==> s.workers[i].Exited?
       }
  }

  ghost predicate Inv(s: System) {
    |s.workers| > 0 && QueueInv(s) && TaskInv(s) && WakeInv(s) && ShutdownInv(s)
  }

  lemma CreateEstablishes(threadCount: int, queueSize: int)
    ensures Create(threadCount, queueSize).Some? <==> 0 < threadCount <= 64 && 0 < queueSize <= 65536
    ensures var c := Create(threadCount, queueSize);
            c.Some? ==>
              && Inv(c.value) && c.value.accepted == []
              && |c.value.workers| == threadCount && |c.value.pool.queue| == queueSize
  {
    var c := Create(threadCount, queueSize);
    if c.Some? {
      var s := c.value;
      AllAlive(s.workers);
      forall k: nat ensures Total(s.workers, Executing(k)) == 0 {
        TotalIsZero(s.workers, Executing(k));
      }
    }
  }

  lemma {:induction false} AllAlive(ws: seq<Worker>)
    requires forall i :: 0 <= i < |ws| ==> ws[i] == Ready
    ensures Total(ws, Alive()) == |ws|
  {
    if ws != [] {
      AllAlive(ws[1..]);
    }
  }

  // ----- Every step keeps the invariant -----

  lemma AddKeeps(s: System, task: Task, woken: set<nat>)
    requires Inv(s) && Enabled(s, Add(task, woken))
    ensures Inv(Apply(s, Add(task, woken)))
  {
    AddAppends(s.pool, task);
    var t := Apply(s, Add(task, woken));
    if AddTask(s.pool, task).1 == Added {
      assert t.accepted == t.taken + Window(t.pool);
      TotalUnchanged(s.workers, t.workers, Alive());
      TotalGrows(s.workers, t.workers, Awake());
      forall k: nat ensures Total(t.workers, Executing(k)) == Total(s.workers, Executing(k)) {
        TotalUnchanged(s.workers, t.workers, Executing(k));
      }
      if AnyParked(t.workers) {
        assert AnyParked(s.workers);
        var w :| w in woken;
        assert Awake()(s.workers[w]) < Awake()(t.workers[w]);
      }
    }
  }

  lemma LookKeeps(s: System, w: nat)
    requires Inv(s) && Enabled(s, Look(w))
    ensures Inv(Looked(s, w))
  {
    hide Total;
    NextTakesOldest(s.pool);
    var t := Looked(s, w);
    TotalAfterUpdate(s.workers, w, t.workers[w], Alive());
    TotalAfterUpdate(s.workers, w, t.workers[w], Awake());
    forall k: nat
      ensures Total(t.workers, Executing(k)) == Total(s.workers, Executing(k)) + Executing(k)(t.workers[w])
    {
      TotalAfterUpdate(s.workers, w, t.workers[w], Executing(k));
    }
    assert t.accepted == t.taken + Window(t.pool);
  }

  lemma SpuriousKeeps(s: System, w: nat)
    requires Inv(s) && Enabled(s, Spurious(w))
    ensures Inv(Apply(s, Spurious(w)))
  {
    var t := Apply(s, Spurious(w));
    TotalAfterUpdate(s.workers, w, Ready, Alive());
    TotalAfterUpdate(s.workers, w, Ready, Awake());
    forall k: nat ensures Total(t.workers, Executing(k)) == Total(s.workers, Executing(k)) {
      TotalAfterUpdate(s.workers, w, Ready, Executing(k));
    }
  }

  lemma ReturnKeeps(s: System, w: nat)
    requires Inv(s) && Enabled(s, Return(w))
    ensures Inv(Apply(s, Return(w)))
  {
    var t := Apply(s, Return(w));
    TotalAfterUpdate(s.workers, w, Ready, Alive());
    TotalAfterUpdate(s.workers, w, Ready, Awake());
    forall k: nat
      ensures Total(t.workers, Executing(k)) + Executing(k)(s.workers[w]) == Total(s.workers, Executing(k))
    {
      TotalAfterUpdate(s.workers, w, Ready, Executing(k));
    }
  }

  lemma DestroyKeeps(s: System, graceful: bool)
    requires Inv(s) && Enabled(s, Destroy(graceful))
    ensures Inv(Apply(s, Destroy(graceful)))
  {
    var t := Apply(s, Destroy(graceful));
    if s.pool.shutdown == Open {
      TotalUnchanged(s.workers, t.workers, Alive());
      forall k: nat ensures Total(t.workers, Executing(k)) == Total(s.workers, Executing(k)) {
        TotalUnchanged(s.workers, t.workers, Executing(k));
      }
      assert Window(t.pool) == Window(s.pool);
    }
  }

  lemma JoinKeeps(s: System)
    requires Inv(s) && Enabled(s, Join)
    ensures Inv(Apply(s, Join))
  {
  }

  lemma FreeKeeps(s: System)
    requires Inv(s) && Enabled(s, Free)
    ensures Inv(Apply(s, Free))
  {
    TotalIsZero(s.workers, Alive());
  }

  lemma StepKeeps(s: System, a: Action)
    requires Inv(s) && Enabled(s, a)
    ensures Inv(Apply(s, a))
  {
    match a {
      case Add(task, woken) => AddKeeps(s, task, woken);
      case Look(w) => LookKeeps(s, w);
      case Spurious(w) => SpuriousKeeps(s, w);
      case Return(w) => ReturnKeeps(s, w);
      case Destroy(graceful) => DestroyKeeps(s, graceful);
      case Join => JoinKeeps(s);
      case Free => FreeKeeps(s);
    }
  }

  // ----- Whole runs -----

  ghost predicate Possible(s: System, actions: seq<Action>)
    decreases |actions|
  {
    actions == [] || (ValidQueue(s.pool) && Enabled(s, actions[0]) && Possible(Apply(s, actions[0]), actions[1..]))
  }

  ghost function After(s: System, actions: seq<Action>): System
    requires Possible(s, actions)
    decreases |actions|
  {
    if actions == [] then s else After(Apply(s, actions[0]), actions[1..])
  }

  /** Accepted and taken tasks only grow; once the flag is set it stays, and nothing more is accepted. */
  ghost predicate Later(s: System, t: System) {
    && |t.workers| == |s.workers|
    && s.accepted <= t.accepted
    && s.taken <= t.taken
    && (s.pool.shutdown != Open ==> t.pool.shutdown == s.pool.shutdown && t.accepted == s.accepted)
    && (s.pool.shutdown == Immediate ==> t.taken == s.taken)
  }

  lemma StepIsLater(s: System, a: Action)
    requires Inv(s) && Enabled(s, a)
    ensures Later(s, Apply(s, a))
  {
    match a {
      case Add(task, woken) => AddAppends(s.pool, task);
      case Look(w) => NextTakesOldest(s.pool);
      case _ =>
    }
  }

  lemma {:induction false} RunKeeps(s: System, actions: seq<Action>)
    requires Inv(s) && Possible(s, actions)
    ensures Inv(After(s, actions)) && Later(s, After(s, actions))
    decreases |actions|
  {
    if actions != [] {
      StepKeeps(s, actions[0]);
      StepIsLater(s, actions[0]);
      RunKeeps(Apply(s, actions[0]), actions[1..]);
    }
  }

  /**
   No lost wake-up: in every state that a new pool can reach before the flag is set, either nobody
   waits on the condition variable, or the awake workers are at least as many as the pending tasks.
   */
  lemma NoLostWakeup(threadCount: int, queueSize: int, actions: seq<Action>)
    requires Create(threadCount, queueSize).Some?
    requires Possible(Create(threadCount, queueSize).value, actions)
    ensures var t := After(Create(threadCount, queueSize).value, actions);
            t.pool.shutdown == Open ==> !AnyParked(t.workers) || t.pool.count <= Total(t.workers, Awake())
  {
    CreateEstablishes(threadCount, queueSize);
    RunKeeps(Create(threadCount, queueSize).value, actions);
  }

  /** In every reachable state the window of the array is what was accepted and not yet taken, in order. */
  lemma WindowIsAcceptedMinusTaken(threadCount: int, queueSize: int, actions: seq<Action>)
    requires Create(threadCount, queueSize).Some?
    requires Possible(Create(threadCount, queueSize).value, actions)
    ensures var t := After(Create(threadCount, queueSize).value, actions);
            && ValidQueue(t.pool) && t.pool.count <= |t.pool.queue|
            && t.pool.tail == (t.pool.head + t.pool.count) % |t.pool.queue|
            && t.taken <= t.accepted && Window(t.pool) == t.accepted[|t.taken|..]
  {
    CreateEstablishes(threadCount, queueSize);
    RunKeeps(Create(threadCount, queueSize).value, actions);
    var t := After(Create(threadCount, queueSize).value, actions);
    TailFollowsHead(t.pool);
  }

  /** While a task is pending before the flag is set, some worker can move: the pool never sleeps on work. */
  lemma PendingWorkMoves(s: System) returns (w: nat)
    requires Inv(s) && s.pool.shutdown == Open && s.pool.count > 0
    ensures Enabled(s, Look(w)) || Enabled(s, Return(w))
  {
    if AnyParked(s.workers) {
      TotalIsZero(s.workers, Awake());
      var i :| 0 <= i < |s.workers| && Awake()(s.workers[i]) != 0;
      w := i;
    } else {
      assert !AnyExited(s.workers);
      assert !s.workers[0].Parked? && !s.workers[0].Exited?;
      w := 0;
    }
  }

  // ----- Shutdown -----

  /** The steps that make progress after the flag; a refused add or destroy changes nothing. */
  predicate Moves(a: Action) {
    a.Look? || a.Return? || a.Join? || a.Free?
  }

  ghost function CountMoves(actions: seq<Action>): nat {
    if actions == [] then 0 else (if Moves(actions[0]) then 1 else 0) + CountMoves(actions[1..])
  }

  ghost function JoinsLeft(s: System): nat {
    match s.destroyer {
      case Idle => |s.workers| + 1
      case Joining(n) => if n <= |s.workers| then |s.workers| - n + 1 else 0
      case Done(_) => 0
    }
  }

  /** How many progress steps are left once the flag is set. */
  ghost function Rank(s: System): nat {
    (if s.pool.shutdown == Graceful then 2 * s.pool.count else 0) + Total(s.workers, Effort()) + JoinsLeft(s)
  }

  lemma StepLowersRank(s: System, a: Action)
    requires Inv(s) && Enabled(s, a) && s.pool.shutdown != Open
    ensures if Moves(a) then Rank(Apply(s, a)) < Rank(s) else Apply(s, a) == s
  {
    match a {
      case Add(task, woken) => AddAppends(s.pool, task);
      case Look(w) =>
        NextTakesOldest(s.pool);
        TotalAfterUpdate(s.workers, w, Apply(s, a).workers[w], Effort());
      case Spurious(w) => assert false;
      case Return(w) => TotalAfterUpdate(s.workers, w, Ready, Effort());
      case _ =>
    }
  }

  /** Every run after the flag has at most Rank progress steps. */
  lemma {:induction false} ShutdownEnds(s: System, actions: seq<Action>)
    requires Inv(s) && s.pool.shutdown != Open && Possible(s, actions)
    ensures CountMoves(actions) + Rank(After(s, actions)) <= Rank(s)
    decreases |actions|
  {
    if actions != [] {
      StepKeeps(s, actions[0]);
      StepIsLater(s, actions[0]);
      StepLowersRank(s, actions[0]);
      ShutdownEnds(Apply(s, actions[0]), actions[1..]);
    }
  }

  /** And until threadpool_destroy has returned, a progress step is possible. */
  lemma ShutdownNeverSticks(s: System) returns (a: Action)
    requires Inv(s) && s.pool.shutdown != Open && !s.destroyer.Done?
    ensures Moves(a) && Enabled(s, a)
  {
    if i :| 0 <= i < |s.workers| && s.workers[i].Ready? {
      a := Look(i);
    } else if i :| 0 <= i < |s.workers| && s.workers[i].Running? {
      a := Return(i);
    } else {
      assert forall i :: 0 <= i < |s.workers| ==> !s.workers[i].Parked?;
      a := if s.destroyer.next < |s.workers| then Join else Free;
    }
  }

  /** When destroy is done, no worker is left and the tasks that were taken have returned, each once. */
  lemma DoneMeansReturned(s: System)
    requires Inv(s) && s.destroyer.Done?
    ensures s.destroyer.freed && s.pool.started == 0
    ensures forall k: nat :: s.returned[k] == if k < |s.taken| then 1 else 0
  {
    TotalIsZero(s.workers, Alive());
    forall k: nat ensures s.returned[k] == if k < |s.taken| then 1 else 0 {
      TotalIsZero(s.workers, Executing(k));
    }
  }

  /**
   Graceful shutdown is complete: when threadpool_destroy has returned, every accepted task has been
   taken, in acceptance order, and has run exactly once, and the pool was freed with no worker left.
   */
  lemma GracefulShutdownIsComplete(threadCount: int, queueSize: int, actions: seq<Action>)
    requires Create(threadCount, queueSize).Some?
    requires Possible(Create(threadCount, queueSize).value, actions)
    ensures var t := After(Create(threadCount, queueSize).value, actions);
            t.destroyer.Done? && t.pool.shutdown == Graceful ==>
              && t.destroyer.freed && t.pool.started == 0
              && t.taken == t.accepted
              && forall k: nat :: t.returned[k] == if k < |t.accepted| then 1 else 0
  {
    CreateEstablishes(threadCount, queueSize);
    RunKeeps(Create(threadCount, queueSize).value, actions);
    var t := After(Create(threadCount, queueSize).value, actions);
    if t.destroyer.Done? && t.pool.shutdown == Graceful {
      DoneMeansReturned(t);
      assert t.workers[0].Exited?;
      assert Window(t.pool) == [];
    }
  }

  /**
   And the graceful flag is what brings it about: from any open state that a new pool can reach, a destroy with
   the flag and any steps up to its return leave no accepted task behind, each taken in order and run once.
   */
  lemma DestroyGracefullyRunsEverything(threadCount: int, queueSize: int, before: seq<Action>, rest: seq<Action>)
    requires Create(threadCount, queueSize).Some?
    requires Possible(Create(threadCount, queueSize).value, before)
    requires var s := After(Create(threadCount, queueSize).value, before);
             && s.pool.shutdown == Open && ValidQueue(s.pool)
             && Enabled(s, Destroy(true)) && Possible(Apply(s, Destroy(true)), rest)
             && After(Apply(s, Destroy(true)), rest).destroyer.Done?
    ensures var s := After(Create(threadCount, queueSize).value, before);
            var t := After(Apply(s, Destroy(true)), rest);
            && t.destroyer.freed && t.pool.started == 0
            && t.accepted == s.accepted == t.taken
            && forall k: nat :: t.returned[k] == if k < |s.accepted| then 1 else 0
  {
    CreateEstablishes(threadCount, queueSize);
    RunKeeps(Create(threadCount, queueSize).value, before);
    var s := After(Create(threadCount, queueSize).value, before);
    StepKeeps(s, Destroy(true));
    StepIsLater(s, Destroy(true));
    RunKeeps(Apply(s, Destroy(true)), rest);
    var t := After(Apply(s, Destroy(true)), rest);
    DoneMeansReturned(t);
    assert t.workers[0].Exited?;
    assert Window(t.pool) == [];
  }

  lemma {:induction false} OneMore(s: System, actions: seq<Action>, a: Action)
    requires Possible(s, actions) && ValidQueue(After(s, actions).pool) && Enabled(After(s, actions), a)
    ensures Possible(s, actions + [a]) && After(s, actions + [a]) == Apply(After(s, actions), a)
    decreases |actions|
  {
    var more := actions + [a];
    if actions == [] {
      assert more[1..] == [];
    } else {
      OneMore(Apply(s, actions[0]), actions[1..], a);
      assert more[1..] == actions[1..] + [a];
    }
  }

  /** There are such runs: from every state a shutdown can be carried to its end. */
  lemma {:induction false} ShutdownCanFinish(s: System, actions: seq<Action>) returns (more: seq<Action>)
    requires Possible(s, actions) && Inv(After(s, actions)) && After(s, actions).pool.shutdown != Open
    ensures Possible(s, more) && After(s, more).destroyer.Done?
    ensures After(s, more).pool.shutdown == After(s, actions).pool.shutdown
    decreases Rank(After(s, actions))
  {
    var t := After(s, actions);
    if t.destroyer.Done? {
      return actions;
    }
    var a := ShutdownNeverSticks(t);
    OneMore(s, actions, a);
    StepKeeps(t, a);
    StepIsLater(t, a);
    StepLowersRank(t, a);
    more := ShutdownCanFinish(s, actions + [a]);
  }

  /**
   Immediate shutdown drops exactly the tasks that were pending when the flag was set: what was taken
   by then is all that ever runs, each task once, and the window stays behind unread.
   */
  lemma ImmediateShutdownDropsTheWindow(threadCount: int, queueSize: int, before: seq<Action>, rest: seq<Action>)
    requires Create(threadCount, queueSize).Some?
    requires Possible(Create(threadCount, queueSize).value, before)
    requires var s := After(Create(threadCount, queueSize).value, before);
             && s.pool.shutdown == Open && ValidQueue(s.pool)
             && Enabled(s, Destroy(false)) && Possible(Apply(s, Destroy(false)), rest)
             && After(Apply(s, Destroy(false)), rest).destroyer.Done?
    ensures var s := After(Create(threadCount, queueSize).value, before);
            var t := After(Apply(s, Destroy(false)), rest);
            && t.destroyer.freed && t.pool.started == 0
            && t.accepted == s.accepted == t.taken + Window(s.pool)
            && t.taken == s.taken
            && forall k: nat :: t.returned[k] == if k < |s.taken| then 1 else 0
  {
    CreateEstablishes(threadCount, queueSize);
    RunKeeps(Create(threadCount, queueSize).value, before);
    var s := After(Create(threadCount, queueSize).value, before);
    StepKeeps(s, Destroy(false));
    StepIsLater(s, Destroy(false));
    RunKeeps(Apply(s, Destroy(false)), rest);
    DoneMeansReturned(After(Apply(s, Destroy(false)), rest));
  }
}
