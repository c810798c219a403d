/**
 The reply table without the hypothesis that a response is looked up, written and posted in one step: a
 receiving task finds the entry in one lock section, writes through the pointer in another and posts the
 semaphore behind it, and in between the caller may have taken the entry away.
 */
module ReplyRace {
  import opened Common
  import opened ReplyTable

  /** Where a receiving task is: it has a pointer to the entry until it has posted. */
  datatype Stage = Holding | Written | Finished

  datatype Task = Task(response: Response, stage: Stage)

  /**
   The system of the table, the receiving tasks by number, and whether one of them has used a pointer to an
   entry that was gone.
   */
  datatype Race = Race(base: System, tasks: map<nat, Task>, dangling: bool)

  function Start(callback: bool): Race {
    Race(Init(callback), map[], false)
  }

  datatype RaceAction =
    | Calls(action: Action)
    | LooksUp(task: nat, response: Response)
    | Writes(task: nat)
    | Posts(task: nat)

  predicate AtStage(s: Race, task: nat, stage: Stage) {
    task in s.tasks && s.tasks[task].stage == stage
  }

  /** Responses arrive only through the three steps of a task; every response has a task of its own. */
  predicate CanStep(s: Race, a: RaceAction) {
    match a {
      case Calls(c) => !c.Receive? && Enabled(s.base, c)
      case LooksUp(task, _) => task !in s.tasks
      case Writes(task) => AtStage(s, task, Holding)
      case Posts(task) => AtStage(s, task, Written)
    }
  }

  predicate IsThere(s: System, id: int) {
    Find(s.table, id) < |s.table|
  }

  /** The write: the code, the payload and no post yet. */
  function Stored(s: System, r: Response): System
    requires IsThere(s, r.id)
  {
    var i := Find(s.table, r.id);
    var e := Answered(s.table[i], r.code, r.payload, |s.responses|).(posts := s.table[i].posts);
    s.(table := s.table[i := e], responses := s.responses + [r])
  }

  function PostedOnce(s: System, id: int): System
    requires IsThere(s, id)
  {
    var i := Find(s.table, id);
    s.(table := s.table[i := s.table[i].(posts := s.table[i].posts + 1)])
  }

  function Step(s: Race, a: RaceAction): Race
    requires CanStep(s, a)
  {
    match a {
      case Calls(c) => s.(base := Apply(s.base, c))
      case LooksUp(task, r) =>
        if r.payload.Some? && IsThere(s.base, r.id) then s.(tasks := s.tasks[task := Task(r, Holding)])
        else s.(tasks := s.tasks[task := Task(r, Finished)], base := Received(s.base, r))
      case Writes(task) =>
        var r := s.tasks[task].response;
        var t := s.(tasks := s.tasks[task := Task(r, Written)]);
        if IsThere(s.base, r.id) then t.(base := Stored(s.base, r)) else t.(dangling := true)
      case Posts(task) =>
        var r := s.tasks[task].response;
        var t := s.(tasks := s.tasks[task := Task(r, Finished)]);
        if IsThere(s.base, r.id) then t.(base := PostedOnce(s.base, r.id)) else t.(dangling := true)
    }
  }

  /** The state that a run from the start leads to, unless one of its actions is impossible. */
  function Outcome(callback: bool, actions: seq<RaceAction>): Option<Race>
    decreases |actions|
  {
    if actions == [] then Some(Start(callback))
    else
      var before := Outcome(callback, actions[..|actions| - 1]);
      var a := actions[|actions| - 1];
      if before.Some? && CanStep(before.value, a) then Some(Step(before.value, a)) else None
  }

  lemma OneMore(callback: bool, actions: seq<RaceAction>, a: RaceAction)
    requires Outcome(callback, actions).Some? && CanStep(Outcome(callback, actions).value, a)
    ensures Outcome(callback, actions + [a]) == Some(Step(Outcome(callback, actions).value, a))
  {
    assert (actions + [a])[..|actions|] == actions;
  }

  lemma {:induction false} PrefixRuns(callback: bool, actions: seq<RaceAction>, k: nat)
    requires Outcome(callback, actions).Some? && k <= |actions|
    ensures Outcome(callback, actions[..k]).Some?
    ensures k < |actions| ==> CanStep(Outcome(callback, actions[..k]).value, actions[k])
    decreases |actions|
  {
    if k == |actions| {
      assert actions[..k] == actions;
    } else if k < |actions| - 1 {
      PrefixRuns(callback, actions[..|actions| - 1], k);
      assert actions[..|actions| - 1][..k] == actions[..k];
    }
  }

  // ----- The table under the three steps -----

  /** A task with a pointer answers a caller that exists, and has written its entry before it posts. */
  ghost predicate TaskOk(base: System, k: Task) {
    && (!k.stage.Finished? ==> k.response.payload.Some? && k.response.id in base.callers)
    && (k.stage.Written? ==> forall e :: e in base.table && e.id == k.response.id ==> e.source.Some?)
  }

  ghost predicate TasksOk(s: Race) {
    forall task :: task in s.tasks ==> TaskOk(s.base, s.tasks[task])
  }

  /** An entry that was written has its semaphore posted, or its post is still to come. */
  ghost predicate PostedOrPending(s: Race) {
    forall e :: e in s.base.table && e.source.Some? && BeforeWaking(s.base, e.id) ==>
      e.posts > 0 || PostPending(s, e.id)
  }

  ghost predicate PostPending(s: Race, id: int) {
    exists task :: AtStage(s, task, Written) && s.tasks[task].response.id == id
  }

  ghost predicate RaceInv(s: Race) {
    TableInv(s.base) && TasksOk(s) && PostedOrPending(s)
  }

  lemma StoredKeeps(s: System, r: Response)
    requires TableInv(s) && IsThere(s, r.id) && r.payload.Some?
    ensures TableInv(Stored(s, r))
    ensures forall e :: e in Stored(s, r).table && e.id != r.id ==> e in s.table
  {
    var t := Stored(s, r);
    var i := Find(s.table, r.id);
    ReplaceKeepsIds(s.table, i, t.table[i]);
    assert EntryOk(s, s.table[i]) && EntryOk(t, t.table[i]);
    forall e | e in t.table ensures EntryOk(t, e) {
      if e.id != r.id {
        assert EntryOk(s, e);
        NotAnswered(s.responses, r, e);
      }
    }
    forall other | other in t.callers ensures CallerOk(t, other) {
      assert CallerOk(s, other);
    }
  }

  lemma PostedOnceKeeps(s: System, id: int)
    requires TableInv(s) && IsThere(s, id) && s.table[Find(s.table, id)].source.Some?
    ensures TableInv(PostedOnce(s, id))
    ensures forall e :: e in PostedOnce(s, id).table ==> (e.id == id && e.posts > 0) || (e in s.table && e.id != id)
  {
    var t := PostedOnce(s, id);
    var i := Find(s.table, id);
    ReplaceKeepsIds(s.table, i, t.table[i]);
    assert EntryOk(s, s.table[i]);
    forall e | e in t.table ensures EntryOk(t, e) {
      if e != t.table[i] {
        assert EntryOk(s, e);
      }
    }
    forall other | other in t.callers ensures CallerOk(t, other) {
      assert CallerOk(s, other);
    }
  }

  /** A step of a caller keeps what a task relies on. */
  lemma CallKeepsTask(s: System, c: Action, k: Task)
    requires TableInv(s) && !c.Receive? && Enabled(s, c) && TaskOk(s, k)
    ensures TaskOk(Apply(s, c), k)
  {
    var t := Apply(s, c);
    match c {
      case DoInsert(id) =>
        assert forall e :: e in t.table ==> e == t.table[0] || e in s.table;
      case Wakes(id) =>
        ReplaceKeepsIds(s.table, Find(s.table, id), t.table[Find(s.table, id)]);
      case DoRemove(id) =>
        RemoveTakesOne(s.table, id);
      case _ =>
    }
  }

  lemma CallKeepsPosts(s: Race, c: Action)
    requires RaceInv(s) && CanStep(s, Calls(c))
    ensures PostedOrPending(Step(s, Calls(c)))
  {
    hide TableInv, Find, Apply, BeforeWaking, TasksOk;
    var t := Step(s, Calls(c));
    forall e | e in t.base.table && e.source.Some? && BeforeWaking(t.base, e.id)
      ensures e.posts > 0 || PostPending(t, e.id)
    {
      UnwokenStays(s.base, c, e);
      if PostPending(s, e.id) {
        var task :| AtStage(s, task, Written) && s.tasks[task].response.id == e.id;
        assert AtStage(t, task, Written);
      }
    }
  }

  /** A response that no entry waits for, or that cannot be printed, leaves the table alone. */
  lemma LookUpKeeps(s: Race, task: nat, r: Response)
    requires RaceInv(s) && CanStep(s, LooksUp(task, r))
    ensures RaceInv(Step(s, LooksUp(task, r)))
  {
    var t := Step(s, LooksUp(task, r));
    ReceiveKeepsTable(s, r);
    FindsTheEntry(s.base.table, r.id);
    EntriesAreOwned(s.base, r.id);
    forall e | e in t.base.table && e.source.Some? && BeforeWaking(t.base, e.id)
      ensures e.posts > 0 || PostPending(t, e.id)
    {
      PendingStays(s, t, e.id, task);
    }
  }

  lemma ReceiveKeepsTable(s: Race, r: Response)
    requires RaceInv(s)
    ensures TableInv(Received(s.base, r))
    ensures r.payload.None? || !IsThere(s.base, r.id) ==> Received(s.base, r).table == s.base.table
  {
    ReceiveKeeps(s.base, r);
  }

  /** A pending post stays pending while its task does not move. */
  lemma PendingStays(s: Race, t: Race, id: int, moved: nat)
    requires forall task :: task in s.tasks && task != moved ==> task in t.tasks && t.tasks[task] == s.tasks[task]
    requires AtStage(s, moved, Written) ==> s.tasks[moved].response.id != id
    ensures PostPending(s, id) ==> PostPending(t, id)
  {
    if PostPending(s, id) {
      var task :| AtStage(s, task, Written) && s.tasks[task].response.id == id;
      assert AtStage(t, task, Written);
    }
  }

  lemma WriteKeeps(s: Race, task: nat)
    requires RaceInv(s) && CanStep(s, Writes(task))
    ensures RaceInv(Step(s, Writes(task)))
  {
    var t := Step(s, Writes(task));
    var r := s.tasks[task].response;
    FindsTheEntry(s.base.table, r.id);
    if IsThere(s.base, r.id) {
      StoredKeeps(s.base, r);
      ReplaceKeepsIds(s.base.table, Find(s.base.table, r.id), t.base.table[Find(s.base.table, r.id)]);
    }
    forall e | e in t.base.table && e.source.Some? && BeforeWaking(t.base, e.id)
      ensures e.posts > 0 || PostPending(t, e.id)
    {
      if e.id == r.id {
        assert AtStage(t, task, Written);
      } else {
        PendingStays(s, t, e.id, task);
      }
    }
  }

  lemma PostKeeps(s: Race, task: nat)
    requires RaceInv(s) && CanStep(s, Posts(task))
    ensures RaceInv(Step(s, Posts(task)))
  {
    var t := Step(s, Posts(task));
    var r := s.tasks[task].response;
    FindsTheEntry(s.base.table, r.id);
    if IsThere(s.base, r.id) {
      assert TaskOk(s.base, s.tasks[task]);
      PostedOnceKeeps(s.base, r.id);
    }
    forall e | e in t.base.table && e.source.Some? && BeforeWaking(t.base, e.id)
      ensures e.posts > 0 || PostPending(t, e.id)
    {
      if e.id != r.id {
        PendingStays(s, t, e.id, task);
      }
    }
  }

  lemma RaceStepKeeps(s: Race, a: RaceAction)
    requires RaceInv(s) && CanStep(s, a)
    ensures RaceInv(Step(s, a))
  {
    match a {
      case Calls(c) =>
        StepKeepsTable(s.base, c);
        CallKeepsPosts(s, c);
        forall task | task in s.tasks ensures TaskOk(Apply(s.base, c), s.tasks[task]) {
          CallKeepsTask(s.base, c, s.tasks[task]);
        }
      case LooksUp(task, r) => LookUpKeeps(s, task, r);
      case Writes(task) => WriteKeeps(s, task);
      case Posts(task) => PostKeeps(s, task);
    }
  }

  lemma {:induction false} RaceRunKeeps(callback: bool, actions: seq<RaceAction>)
    requires Outcome(callback, actions).Some?
    ensures RaceInv(Outcome(callback, actions).value)
    decreases |actions|
  {
    if actions != [] {
      var before := actions[..|actions| - 1];
      RaceRunKeeps(callback, before);
      RaceStepKeeps(Outcome(callback, before).value, actions[|actions| - 1]);
    }
  }

  // ----- Exactly when a pointer is used too late -----

  /** An id is looked up at i and removed at j, and its task writes or posts at k. */
  predicate Overtakes(actions: seq<RaceAction>, i: nat, j: nat, k: nat)
    requires i < |actions| && j < |actions| && k < |actions|
  {
    && actions[i].LooksUp? && actions[j] == Calls(DoRemove(actions[i].response.id))
    && (actions[k] == Writes(actions[i].task) || actions[k] == Posts(actions[i].task))
  }

  ghost predicate Overtaken(actions: seq<RaceAction>) {
    exists i, j, k :: 0 <= i < j < k < |actions| && Overtakes(actions, i, j, k)
  }

  /** Its last action does so. */
  ghost predicate OvertakenAt(actions: seq<RaceAction>, k: nat)
    requires k < |actions|
  {
    exists i, j :: 0 <= i < j < k && Overtakes(actions, i, j, k)
  }

  ghost predicate Removes(actions: seq<RaceAction>, id: int) {
    exists j :: 0 <= j < |actions| && actions[j] == Calls(DoRemove(id))
  }

  predicate HasReturned(s: System, id: int) {
    id in s.callers && s.callers[id].Returned?
  }

  lemma ReturnsByRemoving(s: Race, a: RaceAction, id: int)
    requires CanStep(s, a)
    ensures HasReturned(Step(s, a).base, id) <==> HasReturned(s.base, id) || a == Calls(DoRemove(id))
  {
    hide Find, Remove, Insert, Answered;
    if a.Calls? {
      CallReturns(s.base, a.action, id);
    }
  }

  lemma CallReturns(s: System, c: Action, id: int)
    requires Enabled(s, c)
    ensures HasReturned(Apply(s, c), id) <==> HasReturned(s, id) || c == DoRemove(id)
  {
    hide Find, Remove, Insert, Answered, SetResult;
  }

  lemma RemovesGrows(actions: seq<RaceAction>, id: int)
    requires actions != []
    ensures var n := |actions| - 1;
            Removes(actions, id) <==> Removes(actions[..n], id) || actions[n] == Calls(DoRemove(id))
  {
    var before := actions[..|actions| - 1];
    assert forall j :: 0 <= j < |before| ==> before[j] == actions[j];
    if Removes(before, id) {
      var j :| 0 <= j < |before| && before[j] == Calls(DoRemove(id));
      assert actions[j] == Calls(DoRemove(id));
    }
  }

  /** A call has returned exactly when it has taken its entry out. */
  lemma {:induction false} ReturnedIffRemoved(callback: bool, actions: seq<RaceAction>, id: int)
    requires Outcome(callback, actions).Some?
    ensures Removes(actions, id) <==> HasReturned(Outcome(callback, actions).value.base, id)
    decreases |actions|
  {
    hide Step, Removes, HasReturned;
    if actions == [] {
      NothingRemoved(callback, id);
    } else {
      var before := actions[..|actions| - 1];
      ReturnedIffRemoved(callback, before, id);
      RemovesGrows(actions, id);
      ReturnsByRemoving(Outcome(callback, before).value, actions[|actions| - 1], id);
    }
  }

  lemma NothingRemoved(callback: bool, id: int)
    ensures !Removes([], id) && !HasReturned(Start(callback).base, id)
  {
  }

  lemma KeepsTasks(s: Race, a: RaceAction)
    requires CanStep(s, a)
    ensures forall task :: task in s.tasks ==>
              task in Step(s, a).tasks && Step(s, a).tasks[task].response == s.tasks[task].response
  {
    hide Received, Stored, PostedOnce, Apply;
  }

  /** Every task is the one of its lookup. */
  lemma {:induction false} LookedUp(callback: bool, actions: seq<RaceAction>, i: nat)
    requires Outcome(callback, actions).Some? && i < |actions| && actions[i].LooksUp?
    ensures var s := Outcome(callback, actions).value;
            actions[i].task in s.tasks && s.tasks[actions[i].task].response == actions[i].response
    decreases |actions|
  {
    if i < |actions| - 1 {
      var before := actions[..|actions| - 1];
      assert before[i] == actions[i];
      LookedUp(callback, before, i);
      KeepsTasks(Outcome(callback, before).value, actions[|actions| - 1]);
    }
  }

  predicate Active(s: Race, task: nat) {
    task in s.tasks && !s.tasks[task].stage.Finished?
  }

  /** A task begins with its lookup and keeps its response. */
  lemma TaskByLookup(s: Race, a: RaceAction, task: nat)
    requires CanStep(s, a) && task in Step(s, a).tasks
    ensures var r := Step(s, a).tasks[task].response;
            if task in s.tasks then s.tasks[task].response == r else a == LooksUp(task, r)
  {
    hide Received, Stored, PostedOnce, Apply;
  }

  /** A task gets its pointer by a lookup that finds the entry, and keeps its response. */
  lemma ActiveByLookup(s: Race, a: RaceAction, task: nat)
    requires CanStep(s, a) && Active(Step(s, a), task)
    ensures var r := Step(s, a).tasks[task].response;
            if Active(s, task) then s.tasks[task].response == r else a == LooksUp(task, r) && IsThere(s.base, r.id)
  {
  }

  /** A task with a pointer looked it up, and its caller had not taken the entry out by then. */
  lemma {:induction false} HeldSince(callback: bool, actions: seq<RaceAction>, task: nat) returns (i: nat)
    requires Outcome(callback, actions).Some? && Active(Outcome(callback, actions).value, task)
    ensures i < |actions| && actions[i] == LooksUp(task, Outcome(callback, actions).value.tasks[task].response)
    ensures !Removes(actions[..i], Outcome(callback, actions).value.tasks[task].response.id)
    decreases |actions|
  {
    hide Step, Removes;
    var before := actions[..|actions| - 1];
    var s := Outcome(callback, before).value;
    ActiveByLookup(s, actions[|actions| - 1], task);
    if Active(s, task) {
      i := HeldSince(callback, before, task);
      assert before[..i] == actions[..i];
    } else {
      i := |actions| - 1;
      ThereIsNotRemoved(callback, before, actions[i].response.id);
    }
  }

  lemma ThereIsNotRemoved(callback: bool, actions: seq<RaceAction>, id: int)
    requires Outcome(callback, actions).Some? && IsThere(Outcome(callback, actions).value.base, id)
    ensures !Removes(actions, id)
  {
    hide Step, Removes;
    RaceRunKeeps(callback, actions);
    FindsTheEntry(Outcome(callback, actions).value.base.table, id);
    EntriesAreOwned(Outcome(callback, actions).value.base, id);
    ReturnedIffRemoved(callback, actions, id);
  }

  /** A task with a pointer finds its entry exactly when the caller has not taken it out. */
  lemma ThereIffNotRemoved(callback: bool, actions: seq<RaceAction>, task: nat)
    requires Outcome(callback, actions).Some? && Active(Outcome(callback, actions).value, task)
    ensures var s := Outcome(callback, actions).value;
            IsThere(s.base, s.tasks[task].response.id) <==> !Removes(actions, s.tasks[task].response.id)
  {
    hide Step, Removes;
    var s := Outcome(callback, actions).value;
    var id := s.tasks[task].response.id;
    RaceRunKeeps(callback, actions);
    assert TaskOk(s.base, s.tasks[task]) && CallerOk(s.base, id);
    FindsTheEntry(s.base.table, id);
    EntriesAreOwned(s.base, id);
    ReturnedIffRemoved(callback, actions, id);
  }

  /** The last action uses its pointer too late exactly when the entry was removed between lookup and use. */
  lemma MissedIffOvertaken(callback: bool, actions: seq<RaceAction>, task: nat)
    requires Outcome(callback, actions).Some? && actions != []
    requires actions[|actions| - 1] == Writes(task) || actions[|actions| - 1] == Posts(task)
    ensures var s := Outcome(callback, actions[..|actions| - 1]).value;
            OvertakenAt(actions, |actions| - 1) <==> !IsThere(s.base, s.tasks[task].response.id)
  {
    hide Step, Removes, OvertakenAt, IsThere;
    var before := actions[..|actions| - 1];
    var id := Outcome(callback, before).value.tasks[task].response.id;
    ThereIffNotRemoved(callback, before, task);
    if Removes(before, id) {
      RemovedOvertakes(callback, actions, task);
    }
    if OvertakenAt(actions, |actions| - 1) {
      OvertakenRemoves(callback, actions, task);
    }
  }

  lemma RemovedOvertakes(callback: bool, actions: seq<RaceAction>, task: nat)
    requires actions != [] && Outcome(callback, actions[..|actions| - 1]).Some?
    requires Active(Outcome(callback, actions[..|actions| - 1]).value, task)
    requires actions[|actions| - 1] == Writes(task) || actions[|actions| - 1] == Posts(task)
    requires var before := actions[..|actions| - 1];
             Removes(before, Outcome(callback, before).value.tasks[task].response.id)
    ensures OvertakenAt(actions, |actions| - 1)
  {
    var before := actions[..|actions| - 1];
    var id := Outcome(callback, before).value.tasks[task].response.id;
    var j :| 0 <= j < |before| && before[j] == Calls(DoRemove(id));
    var since := HeldSince(callback, before, task);
    hide Outcome;
    RemovedEarlier(before, since, j, id);
    assert actions[since] == before[since] && actions[j] == before[j];
    assert Overtakes(actions, since, j, |actions| - 1);
  }

  lemma OvertakenRemoves(callback: bool, actions: seq<RaceAction>, task: nat)
    requires actions != [] && Outcome(callback, actions[..|actions| - 1]).Some?
    requires actions[|actions| - 1] == Writes(task) || actions[|actions| - 1] == Posts(task)
    requires OvertakenAt(actions, |actions| - 1)
    ensures var before := actions[..|actions| - 1];
            var s := Outcome(callback, before).value;
            task in s.tasks && Removes(before, s.tasks[task].response.id)
  {
    hide Outcome;
    var before := actions[..|actions| - 1];
    var i, j :| 0 <= i < j < |actions| - 1 && Overtakes(actions, i, j, |actions| - 1);
    assert actions[i] == before[i] && actions[j] == before[j];
    LookedUp(callback, before, i);
  }

  lemma RemovedEarlier(actions: seq<RaceAction>, i: nat, j: nat, id: int)
    requires i < |actions| && j < |actions| && actions[j] == Calls(DoRemove(id))
    ensures j < i ==> Removes(actions[..i], id)
  {
    if j < i {
      assert actions[..i][j] == actions[j];
    }
  }

  lemma OvertakenGrows(actions: seq<RaceAction>)
    requires actions != []
    ensures var n := |actions| - 1;
            Overtaken(actions) <==> Overtaken(actions[..n]) || OvertakenAt(actions, n)
  {
    var before := actions[..|actions| - 1];
    if Overtaken(actions) {
      var i, j, k :| 0 <= i < j < k < |actions| && Overtakes(actions, i, j, k);
      if k < |actions| - 1 {
        assert Overtakes(before, i, j, k);
      }
    }
    if Overtaken(before) {
      var i, j, k :| 0 <= i < j < k < |before| && Overtakes(before, i, j, k);
      assert Overtakes(actions, i, j, k);
    }
  }

  /**
   In every interleaving, a task writes or posts through a pointer to an entry that is gone if and only if a
   caller takes its entry out between the lookup of a response with its id and that task's write or post.
   */
  lemma {:induction false} DanglingIffOvertaken(callback: bool, actions: seq<RaceAction>)
    requires Outcome(callback, actions).Some?
    ensures Outcome(callback, actions).value.dangling <==> Overtaken(actions)
    decreases |actions|
  {
    if actions != [] {
      var a := actions[|actions| - 1];
      DanglingIffOvertaken(callback, actions[..|actions| - 1]);
      OvertakenGrows(actions);
      if a.Writes? || a.Posts? {
        MissedIffOvertaken(callback, actions, a.task);
      }
    }
  }

  /**
   Without such an overtaking the table is safe: every code returned as an outcome is that of a response with the
   caller's own id, and whenever no task is between its write and its post the invariant of whole steps holds.
   */
  lemma TableWithoutOvertaking(callback: bool, actions: seq<RaceAction>, id: int)
    requires Outcome(callback, actions).Some? && !Overtaken(actions)
    ensures var s := Outcome(callback, actions).value;
            && !s.dangling
            && ((forall task :: task in s.tasks ==> !s.tasks[task].stage.Written?) ==> Inv(s.base))
            && (id in s.base.callers && s.base.callers[id].Returned? ==>
                  ResultOk(s.base, id, s.base.callers[id].result, s.base.callers[id].source))
  {
    DanglingIffOvertaken(callback, actions);
    RaceRunKeeps(callback, actions);
    var s := Outcome(callback, actions).value;
    assert id in s.base.callers ==> CallerOk(s.base, id);
  }

  // ----- A condition on the environment that excludes it -----

  predicate GivesUp(a: RaceAction) {
    a.Calls? && (a.action.SendFails? || a.action.ClockFails? || a.action.TimesOut?)
  }

  /** No caller gives up: sending succeeds, the clock works and no wait times out. */
  predicate Patient(actions: seq<RaceAction>) {
    forall i :: 0 <= i < |actions| ==> !GivesUp(actions[i])
  }

  predicate Printable(a: RaceAction) {
    a.LooksUp? && a.response.payload.Some?
  }

  /** No two printable responses carry one id. */
  predicate Distinct(actions: seq<RaceAction>) {
    forall i, j :: 0 <= i < j < |actions| && Printable(actions[i]) && Printable(actions[j]) ==>
      actions[i].response.id != actions[j].response.id
  }

  /** A printable response with this id has been looked up. */
  ghost predicate Seen(s: Race, id: int) {
    exists task :: task in s.tasks && s.tasks[task].response.payload.Some? && s.tasks[task].response.id == id
  }

  /** The caller of this id is on its way to the wait or in it, and its semaphore is not posted. */
  ghost predicate Unposted(base: System, id: int) {
    BeforeWaking(base, id) && forall e :: e in base.table && e.id == id ==> e.posts == 0
  }

  ghost predicate Calm(s: Race) {
    && (forall task :: Active(s, task) ==> Unposted(s.base, s.tasks[task].response.id))
    && (forall x, y :: Active(s, x) && Active(s, y) && x != y ==> s.tasks[x].response.id != s.tasks[y].response.id)
    && (forall k :: 0 <= k < |s.base.responses| && s.base.responses[k].payload.Some? ==>
        Seen(s, s.base.responses[k].id))
    && (forall id :: id in s.base.callers && s.base.callers[id].Leaving? ==> s.base.callers[id].source.Some?)
  }

  /** A step of a patient caller leaves the entry of a task alone. */
  lemma UnpostedStays(s: System, c: Action, id: int)
    requires TableInv(s) && Enabled(s, c) && !c.Receive? && !GivesUp(Calls(c)) && Unposted(s, id)
    ensures Unposted(Apply(s, c), id)
  {
    var t := Apply(s, c);
    assert CallerOk(s, id);
    FindsTheEntry(s.table, id);
    match c {
      case DoInsert(other) =>
        assert forall e :: e in t.table ==> e == t.table[0] || e in s.table;
      case Wakes(other) =>
        ReplaceKeepsIds(s.table, Find(s.table, other), t.table[Find(s.table, other)]);
      case DoRemove(other) =>
        RemoveTakesOne(s.table, other);
      case _ =>
    }
  }

  lemma CalmCall(s: Race, c: Action)
    requires RaceInv(s) && Calm(s) && CanStep(s, Calls(c)) && !GivesUp(Calls(c))
    ensures Calm(Step(s, Calls(c)))
  {
    hide Unposted, Seen, PostedOrPending, TasksOk;
    var t := Step(s, Calls(c));
    forall task | Active(t, task) ensures Unposted(t.base, t.tasks[task].response.id) {
      assert Active(s, task);
      UnpostedStays(s.base, c, s.tasks[task].response.id);
    }
    SeenStays(s, t);
    if c.ReadsCode? {
      assert CallerOk(s.base, c.id);
      FindsTheEntry(s.base.table, c.id);
      assert EntryOk(s.base, s.base.table[Find(s.base.table, c.id)]);
    }
  }

  lemma SeenStays(s: Race, t: Race)
    requires forall task :: task in s.tasks ==> task in t.tasks && t.tasks[task].response == s.tasks[task].response
    ensures forall id :: Seen(s, id) ==> Seen(t, id)
  {
    forall id | Seen(s, id) ensures Seen(t, id) {
      var task :| task in s.tasks && s.tasks[task].response.payload.Some? && s.tasks[task].response.id == id;
      assert task in t.tasks;
    }
  }

  /** An entry whose id no response has carried belongs to a caller that nothing has posted. */
  lemma FreshIsUnposted(s: Race, id: int)
    requires RaceInv(s) && Calm(s) && !Seen(s, id) && IsThere(s.base, id)
    ensures Unposted(s.base, id)
  {
    forall e | e in s.base.table && e.id == id ensures e.source.None? && Owned(s.base.callers, e) && e.posts == 0 {
      assert EntryOk(s.base, e);
    }
    assert s.base.table[Find(s.base.table, id)] in s.base.table;
    assert CallerOk(s.base, id);
  }

  lemma CalmLookUp(s: Race, task: nat, r: Response)
    requires RaceInv(s) && Calm(s) && CanStep(s, LooksUp(task, r))
    requires r.payload.Some? ==> !Seen(s, r.id)
    ensures Calm(Step(s, LooksUp(task, r)))
  {
    hide Unposted, Find, SetResult, TableInv, PostedOrPending;
    var t := Step(s, LooksUp(task, r));
    SeenStays(s, t);
    if r.payload.Some? {
      assert task in t.tasks && t.tasks[task].response == r;
      assert Seen(t, r.id);
      if IsThere(s.base, r.id) {
        FreshIsUnposted(s, r.id);
      }
    }
    ReceiveKeepsTable(s, r);
    forall other | Active(t, other) ensures Unposted(t.base, t.tasks[other].response.id) {
      assert other == task || Active(s, other);
      UnpostedInTable(s.base, t.base, t.tasks[other].response.id);
    }
  }

  lemma UnpostedInTable(s: System, t: System, id: int)
    requires t.table == s.table && t.callers == s.callers
    ensures Unposted(t, id) <==> Unposted(s, id)
  {
  }

  lemma OthersUnposted(s: System, r: Response, id: int)
    requires TableInv(s) && IsThere(s, r.id) && Unposted(s, id)
    ensures Unposted(Stored(s, r), id) && (id != r.id ==> Unposted(PostedOnce(s, r.id), id))
  {
    var i := Find(s.table, r.id);
    ReplaceKeepsIds(s.table, i, Stored(s, r).table[i]);
    ReplaceKeepsIds(s.table, i, PostedOnce(s, r.id).table[i]);
  }

  lemma CalmUse(s: Race, a: RaceAction)
    requires RaceInv(s) && Calm(s) && CanStep(s, a) && (a.Writes? || a.Posts?)
    ensures Calm(Step(s, a))
  {
    hide Unposted, Stored, PostedOnce, TableInv, PostedOrPending, IsThere, Seen;
    var r := s.tasks[a.task].response;
    var t := Step(s, a);
    SeenStays(s, t);
    assert Active(s, a.task);
    assert TaskOk(s.base, s.tasks[a.task]);
    forall task | Active(t, task) ensures Unposted(t.base, t.tasks[task].response.id) {
      assert Active(s, task);
      if IsThere(s.base, r.id) {
        OthersUnposted(s.base, r, s.tasks[task].response.id);
      }
    }
    if IsThere(s.base, r.id) {
      UseAdds(s, a);
    }
  }

  lemma UseAdds(s: Race, a: RaceAction)
    requires Calm(s) && CanStep(s, a) && (a.Writes? || a.Posts?) && IsThere(s.base, s.tasks[a.task].response.id)
    ensures var r := s.tasks[a.task].response;
            var t := Step(s, a);
            && t.base.callers == s.base.callers && (r.payload.Some? ==> Seen(t, r.id))
            && (t.base.responses == s.base.responses || t.base.responses == s.base.responses + [r])
  {
    assert a.task in Step(s, a).tasks;
  }

  lemma {:induction false} EveryTaskLookedUp(callback: bool, actions: seq<RaceAction>, task: nat) returns (i: nat)
    requires Outcome(callback, actions).Some? && task in Outcome(callback, actions).value.tasks
    ensures i < |actions| && actions[i] == LooksUp(task, Outcome(callback, actions).value.tasks[task].response)
    decreases |actions|
  {
    hide Step;
    var before := actions[..|actions| - 1];
    TaskByLookup(Outcome(callback, before).value, actions[|actions| - 1], task);
    if task in Outcome(callback, before).value.tasks {
      i := EveryTaskLookedUp(callback, before, task);
    } else {
      i := |actions| - 1;
    }
  }

  lemma LookUpIsFresh(callback: bool, actions: seq<RaceAction>)
    requires actions != [] && Outcome(callback, actions[..|actions| - 1]).Some?
    requires Distinct(actions) && Printable(actions[|actions| - 1])
    ensures !Seen(Outcome(callback, actions[..|actions| - 1]).value, actions[|actions| - 1].response.id)
  {
    var before := actions[..|actions| - 1];
    var s := Outcome(callback, before).value;
    forall task | task in s.tasks && s.tasks[task].response.payload.Some?
      ensures s.tasks[task].response.id != actions[|actions| - 1].response.id
    {
      var i := EveryTaskLookedUp(callback, before, task);
      assert actions[i] == before[i] && Printable(actions[i]);
    }
  }

  lemma {:induction false} CalmRuns(callback: bool, actions: seq<RaceAction>)
    requires Outcome(callback, actions).Some? && Patient(actions) && Distinct(actions)
    ensures Calm(Outcome(callback, actions).value)
    decreases |actions|
  {
    hide Step, Calm;
    if actions == [] {
      StartsCalm(callback);
    } else {
      var before := actions[..|actions| - 1];
      var s := Outcome(callback, before).value;
      assert forall i :: 0 <= i < |before| ==> before[i] == actions[i];
      CalmRuns(callback, before);
      RaceRunKeeps(callback, before);
      match actions[|actions| - 1] {
        case Calls(c) =>
          CalmCall(s, c);
        case LooksUp(task, r) =>
          if r.payload.Some? {
            LookUpIsFresh(callback, actions);
          }
          CalmLookUp(s, task, r);
        case _ =>
          CalmUse(s, actions[|actions| - 1]);
      }
    }
  }

  lemma StartsCalm(callback: bool)
    ensures Calm(Start(callback))
  {
  }

  /**
   When no caller gives up and no two printable responses carry one id, no caller overtakes a task, whatever
   the interleaving; so no pointer is used too late.
   */
  lemma NoRaceWithoutGivingUp(callback: bool, actions: seq<RaceAction>)
    requires Outcome(callback, actions).Some? && Patient(actions) && Distinct(actions)
    ensures !Overtaken(actions) && !Outcome(callback, actions).value.dangling
  {
    hide Outcome, Step, Calm;
    forall i, j, k | 0 <= i < j < k < |actions| ensures !Overtakes(actions, i, j, k) {
      if Overtakes(actions, i, j, k) {
        NotOvertaken(callback, actions, i, j, k);
      }
    }
    DanglingIffOvertaken(callback, actions);
  }

  lemma NotOvertaken(callback: bool, actions: seq<RaceAction>, i: nat, j: nat, k: nat)
    requires Outcome(callback, actions).Some? && Patient(actions) && Distinct(actions)
    requires i < j < k < |actions|
    ensures !Overtakes(actions, i, j, k)
  {
    if Overtakes(actions, i, j, k) {
      var before := actions[..k];
      assert forall n :: 0 <= n < k ==> before[n] == actions[n];
      PrefixRuns(callback, actions, k);
      CalmRuns(callback, before);
      LookedUp(callback, before, i);
      assert Removes(before, actions[i].response.id);
      ReturnedIffRemoved(callback, before, actions[i].response.id);
      assert Active(Outcome(callback, before).value, actions[i].task);
      assert false;
    }
  }

  // ----- Both parts of the condition are needed, and the post as much as the write -----

  const ANSWER := Response(1, 0, Some([]))
  const UNANSWERED := Entry(1, LE_ERROR_UNKNOWN, None, 0, 0, None)

  /** Caller 1 waits; task 0 has looked its entry up, and so has task 1 if there are two. */
  function Held(callback: bool, tasks: nat): Race {
    var one := Task(ANSWER, Holding);
    Race(System([UNANSWERED], map[1 := Waiting], [], [], callback),
         if tasks == 0 then map[] else if tasks == 1 then map[0 := one] else map[0 := one, 1 := one], false)
  }

  const SENT := [Calls(DoInsert(1)), Calls(SendSucceeds(1))]
  const LOOKED_UP := SENT + [LooksUp(0, ANSWER)]

  lemma HeldByNone(callback: bool)
    ensures Outcome(callback, SENT) == Some(Held(callback, 0))
  {
    var s := Start(callback);
    OneMore(callback, [], Calls(DoInsert(1)));
    assert [] + [Calls(DoInsert(1))] == [Calls(DoInsert(1))];
    var t := Step(s, Calls(DoInsert(1)));
    assert t.base.table == [UNANSWERED] && t.base.callers == map[1 := Inserted];
    OneMore(callback, [Calls(DoInsert(1))], Calls(SendSucceeds(1)));
    assert SENT == [Calls(DoInsert(1))] + [Calls(SendSucceeds(1))];
    assert Step(t, Calls(SendSucceeds(1))).base.callers == map[1 := Waiting];
  }

  lemma HeldByOne(callback: bool)
    ensures Outcome(callback, LOOKED_UP) == Some(Held(callback, 1))
  {
    HeldByNone(callback);
    OneMore(callback, SENT, LooksUp(0, ANSWER));
  }

  /** Caller 1 times out and takes its entry out; what happened before does not matter. */
  lemma Abandons(callback: bool, actions: seq<RaceAction>) returns (more: seq<RaceAction>)
    requires Outcome(callback, actions).Some?
    requires var s := Outcome(callback, actions).value.base;
             |s.table| == 1 && s.table[0].id == 1 && s.table[0].posts == 0 && At(s, 1, Waiting)
    ensures more == actions + [Calls(TimesOut(1))] + [Calls(DoRemove(1))]
    ensures Outcome(callback, more).Some? && Outcome(callback, more).value.base.table == []
    ensures Outcome(callback, more).value.tasks == Outcome(callback, actions).value.tasks
    ensures Outcome(callback, more).value.dangling == Outcome(callback, actions).value.dangling
  {
    hide Outcome;
    OneMore(callback, actions, Calls(TimesOut(1)));
    OneMore(callback, actions + [Calls(TimesOut(1))], Calls(DoRemove(1)));
    more := actions + [Calls(TimesOut(1))] + [Calls(DoRemove(1))];
  }

  /** A time-out between the lookup and the write: the task writes into an entry that is gone. */
  lemma TimeoutRace(callback: bool) returns (actions: seq<RaceAction>)
    ensures Outcome(callback, actions).Some? && Outcome(callback, actions).value.dangling && Distinct(actions)
  {
    hide Outcome;
    HeldByOne(callback);
    var more := Abandons(callback, LOOKED_UP);
    OneMore(callback, more, Writes(0));
    actions := more + [Writes(0)];
  }

  /** A time-out between the write and the post: the task posts a semaphore that is gone. */
  lemma PostRace(callback: bool) returns (actions: seq<RaceAction>)
    ensures Outcome(callback, actions).Some? && Outcome(callback, actions).value.dangling && Distinct(actions)
    ensures actions[|actions| - 1].Posts? && !Outcome(callback, actions[..|actions| - 1]).value.dangling
  {
    hide Outcome;
    HeldByOne(callback);
    OneMore(callback, LOOKED_UP, Writes(0));
    var more := Abandons(callback, LOOKED_UP + [Writes(0)]);
    OneMore(callback, more, Posts(0));
    actions := more + [Posts(0)];
    assert actions[..|actions| - 1] == more;
  }

  /** An answered caller wakes, reads its code and takes its entry out. */
  lemma Leaves(callback: bool, actions: seq<RaceAction>) returns (more: seq<RaceAction>)
    requires Outcome(callback, actions).Some? && Patient(actions)
    requires var s := Outcome(callback, actions).value.base;
             |s.table| == 1 && s.table[0].id == 1 && s.table[0].posts > 0 && At(s, 1, Waiting)
    ensures Outcome(callback, more).Some? && Patient(more)
    ensures Outcome(callback, more).value.base.table == []
    ensures Outcome(callback, more).value.tasks == Outcome(callback, actions).value.tasks
  {
    hide Outcome;
    OneMore(callback, actions, Calls(Wakes(1)));
    more := actions + [Calls(Wakes(1))];
    OneMore(callback, more, Calls(ReadsCode(1)));
    more := more + [Calls(ReadsCode(1))];
    OneMore(callback, more, Calls(DoRemove(1)));
    more := more + [Calls(DoRemove(1))];
  }

  /** Two responses with one id race in the same way, without anybody giving up. */
  lemma RepeatedResponseRace(callback: bool) returns (actions: seq<RaceAction>)
    ensures Outcome(callback, actions).Some? && Outcome(callback, actions).value.dangling && Patient(actions)
  {
    hide Outcome;
    HeldByOne(callback);
    OneMore(callback, LOOKED_UP, LooksUp(1, ANSWER));
    actions := LOOKED_UP + [LooksUp(1, ANSWER)];
    OneMore(callback, actions, Writes(0));
    actions := actions + [Writes(0)];
    OneMore(callback, actions, Posts(0));
    actions := actions + [Posts(0)];
    actions := Leaves(callback, actions);
    OneMore(callback, actions, Writes(1));
    actions := actions + [Writes(1)];
  }
}
