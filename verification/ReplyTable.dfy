/**
 The table that correlates responses with the callers of leda_send_method: its four operations, and
 the system of callers and responses around it.
 */
module ReplyTable {
  import opened Bytes
  import opened Common

  /**
   An entry of the table. posts is the value of its semaphore; since and source are history: how many
   responses had arrived when it was inserted, and which response wrote it last.
   */
  datatype Entry = Entry(
    id: int,
    code: int,
    payload: Option<seq<byte>>,
    posts: nat,
    since: nat,
    source: Option<nat>)

  // ----- The operations -----

  /** _ws_get_reply_by_msg_id: the first entry with this id, or the end of the table. */
  function Find(t: seq<Entry>, id: int): (i: nat)
    ensures i <= |t|
    ensures i < |t| ==> t[i].id == id
    ensures forall j :: 0 <= j < i ==> t[j].id != id
  {
    if t == [] || t[0].id == id then 0 else 1 + Find(t[1..], id)
  }

  /** _ws_insert_reply: a new entry at the head, with the code for an unknown error. */
  function Insert(t: seq<Entry>, id: int, since: nat): seq<Entry> {
    [Entry(id, LE_ERROR_UNKNOWN, None, 0, since, None)] + t
  }

  /** An entry with this code and, unless the pointer is null, this payload, and its semaphore posted. */
  function Answered(e: Entry, code: int, payload: Option<seq<byte>>, source: nat): Entry {
    Entry(e.id, code, if payload.Some? then payload else e.payload, e.posts + 1, e.since, Some(source))
  }

  /** _ws_set_reply_result, taken as one step. */
  function SetResult(t: seq<Entry>, id: int, code: int, payload: Option<seq<byte>>, source: nat): (seq<Entry>, int) {
    var i := Find(t, id);
    if i == |t| then (t, LE_ERROR_UNKNOWN)
    else (t[i := Answered(t[i], code, payload, source)], LE_SUCCESS)
  }

  /** _ws_remove_reply, taken as one step. */
  function Remove(t: seq<Entry>, id: int): seq<Entry> {
    var i := Find(t, id);
    if i == |t| then t else t[..i] + t[i + 1..]
  }

  ghost predicate Has(t: seq<Entry>, id: int) {
    exists i :: 0 <= i < |t| && t[i].id == id
  }

  ghost predicate DistinctIds(t: seq<Entry>) {
    forall i, j :: 0 <= i < j < |t| ==> t[i].id != t[j].id
  }

  /** Among distinct ids the lookup finds the one entry there is. */
  lemma FindsTheEntry(t: seq<Entry>, id: int)
    ensures Find(t, id) < |t| <==> Has(t, id)
    ensures DistinctIds(t) ==> forall i :: 0 <= i < |t| && t[i].id == id ==> i == Find(t, id)
  {
  }

  lemma WithoutIndex(t: seq<Entry>, i: nat)
    requires DistinctIds(t) && i < |t|
    ensures var r := t[..i] + t[i + 1..];
            && DistinctIds(r) && forall e :: e in r <==> e in t && e.id != t[i].id
  {
    var r := t[..i] + t[i + 1..];
    assert forall j :: 0 <= j < |r| ==> r[j] == if j < i then t[j] else t[j + 1];
    forall e | e in t && e.id != t[i].id ensures e in r {
      var j :| 0 <= j < |t| && t[j] == e;
      assert r[if j < i then j else j - 1] == e;
    }
  }

  /** Removing takes exactly the entry with this id out, and nothing else. */
  lemma RemoveTakesOne(t: seq<Entry>, id: int)
    requires DistinctIds(t)
    ensures DistinctIds(Remove(t, id)) && !Has(Remove(t, id), id)
    ensures forall e :: e in Remove(t, id) <==> e in t && e.id != id
    ensures |Remove(t, id)| == |t| - (if Has(t, id) then 1 else 0)
  {
    FindsTheEntry(t, id);
    var r := Remove(t, id);
    if Has(t, id) {
      WithoutIndex(t, Find(t, id));
    }
    assert forall i :: 0 <= i < |r| ==> r[i] in r;
  }

  // ----- Callers and responses -----

  /** A response as the receiving task sees it; payload is its printed payload, if it could be printed. */
  datatype Response = Response(id: int, code: int, payload: Option<seq<byte>>)

  /** Where a call of leda_send_method is, from the insertion of its entry on. */
  datatype Caller =
    | Inserted
    | Waiting
    | Woken
    | Leaving(result: int, source: Option<nat>)
    | Returned(result: int, source: Option<nat>)

  /**
   The table, the callers by message id, and the history: every response received, in order, and which
   of them were handed to the registered report callback.
   */
  datatype System = System(
    table: seq<Entry>,
    callers: map<int, Caller>,
    responses: seq<Response>,
    reported: seq<nat>,
    callback: bool)

  function Init(callback: bool): System {
    System([], map[], [], [], callback)
  }

  /**
   One step. A caller inserts its entry, sends, waits, and takes its entry out on every path; between
   any two of these steps other callers and receiving tasks run.
   */
  datatype Action =
    | DoInsert(id: int)
    | SendFails(id: int, error: int)
    | SendSucceeds(id: int)
    | ClockFails(id: int)
    | TimesOut(id: int)
    | Wakes(id: int)
    | ReadsCode(id: int)
    | DoRemove(id: int)
    | Receive(response: Response)

  predicate At(s: System, id: int, where: Caller) {
    id in s.callers && s.callers[id] == where
  }

  /** The semaphore of the entry a waiting caller looked up. */
  function Posts(s: System, id: int): nat {
    if Find(s.table, id) < |s.table| then s.table[Find(s.table, id)].posts else 0
  }

  /** Ids are drawn once, from 1 to INT_MAX; sem_timedwait gives up only while the semaphore is 0. */
  predicate Enabled(s: System, a: Action) {
    match a {
      case DoInsert(id) => 1 <= id <= INT_MAX && id !in s.callers
      case SendFails(id, error) => At(s, id, Inserted) && error != LE_SUCCESS
      case SendSucceeds(id) => At(s, id, Inserted)
      case ClockFails(id) => At(s, id, Waiting)
      case TimesOut(id) => At(s, id, Waiting) && Posts(s, id) == 0
      case Wakes(id) => At(s, id, Waiting) && Posts(s, id) > 0
      case ReadsCode(id) => At(s, id, Woken)
      case DoRemove(id) => id in s.callers && s.callers[id].Leaving?
      case Receive(_) => true
    }
  }

  function Received(s: System, r: Response): System {
    var k := |s.responses|;
    var t := s.(responses := s.responses + [r]);
    if r.payload.None? then t
    else
      var (table, found) := SetResult(s.table, r.id, r.code, r.payload, k);
      if found == LE_SUCCESS then t.(table := table)
      else if s.callback then t.(reported := s.reported + [k])
      else t
  }

  function Moved(s: System, id: int, where: Caller): System {
    s.(callers := s.callers[id := where])
  }

  function Apply(s: System, a: Action): System
    requires Enabled(s, a)
  {
    match a {
      case DoInsert(id) => Moved(s, id, Inserted).(table := Insert(s.table, id, |s.responses|))
      case SendFails(id, error) => Moved(s, id, Leaving(error, None))
      case SendSucceeds(id) => Moved(s, id, Waiting)
      case ClockFails(id) => Moved(s, id, Leaving(LE_ERROR_UNKNOWN, None))
      case TimesOut(id) => Moved(s, id, Leaving(LE_ERROR_TIMEOUT, None))
      case Wakes(id) =>
        var i := Find(s.table, id);
        if i == |s.table| then s
        else Moved(s, id, Woken).(table := s.table[i := s.table[i].(posts := s.table[i].posts - 1)])
      case ReadsCode(id) =>
        var i := Find(s.table, id);
        if i == |s.table| then s else Moved(s, id, Leaving(s.table[i].code, s.table[i].source))
      case DoRemove(id) =>
        Moved(s, id, Returned(s.callers[id].result, s.callers[id].source)).(table := Remove(s.table, id))
      case Receive(r) => Received(s, r)
    }
  }

  // ----- The invariant -----

  ghost predicate Answers(responses: seq<Response>, k: nat, id: int) {
    k < |responses| && responses[k].id == id && responses[k].payload.Some?
  }

  /** An entry was written by the last printable response with its id since it was inserted, if there is one. */
  ghost predicate WrittenByLatest(responses: seq<Response>, e: Entry) {
    && e.since <= |responses|
    && (forall k: nat :: e.since <= k && Answers(responses, k, e.id) ==> e.source.Some? && k <= e.source.value)
    && match e.source {
         case None => e.code == LE_ERROR_UNKNOWN && e.posts == 0
         case Some(k) =>
           && e.since <= k && Answers(responses, k, e.id)
           && e.code == responses[k].code && e.payload == responses[k].payload
       }
  }

  /** An entry belongs to a caller that has not returned, and was written if that caller was woken. */
  ghost predicate Owned(callers: map<int, Caller>, e: Entry) {
    && 1 <= e.id <= INT_MAX
    && e.id in callers && !callers[e.id].Returned?
    && (callers[e.id].Woken? ==> e.source.Some?)
  }

  ghost predicate EntryOk(s: System, e: Entry) {
    WrittenByLatest(s.responses, e) && Owned(s.callers, e)
  }

  /** A result that names its response is the code of that response, which carried the caller's id. */
  ghost predicate ResultOk(s: System, id: int, result: int, source: Option<nat>) {
    match source {
      case None => result != LE_SUCCESS
      case Some(k) => Answers(s.responses, k, id) && s.responses[k].code == result
    }
  }

  ghost predicate CallerOk(s: System, id: int)
    requires id in s.callers
  {
    match s.callers[id] {
      case Leaving(result, source) => Has(s.table, id) && ResultOk(s, id, result, source)
      case Returned(result, source) => ResultOk(s, id, result, source)
      case _ => Has(s.table, id)
    }
  }

  ghost predicate TableInv(s: System) {
    && DistinctIds(s.table)
    && (forall e :: e in s.table ==> EntryOk(s, e))
    && (forall id :: id in s.callers ==> CallerOk(s, id))
    && (forall i :: 0 <= i < |s.reported| ==> s.reported[i] < |s.responses|)
  }

  ghost predicate BeforeWaking(s: System, id: int) {
    id in s.callers && (s.callers[id].Inserted? || s.callers[id].Waiting?)
  }

  /** An entry that was written has its semaphore posted, until its caller takes the post. */
  ghost predicate Posted(s: System) {
    forall e :: e in s.table && e.source.Some? && BeforeWaking(s, e.id) ==> e.posts > 0
  }

  ghost predicate Inv(s: System) {
    TableInv(s) && Posted(s)
  }

  lemma EntriesAreOwned(s: System, id: int)
    requires TableInv(s)
    ensures Has(s.table, id) ==> id in s.callers && !s.callers[id].Returned?
  {
    if Has(s.table, id) {
      var i :| 0 <= i < |s.table| && s.table[i].id == id;
      assert EntryOk(s, s.table[i]);
    }
  }

  lemma InsertKeepsIds(t: seq<Entry>, id: int, since: nat)
    requires DistinctIds(t) && !Has(t, id)
    ensures DistinctIds(Insert(t, id, since))
    ensures forall other :: Has(Insert(t, id, since), other) <==> other == id || Has(t, other)
  {
    var r := Insert(t, id, since);
    assert r[0].id == id;
    assert forall i :: 0 <= i < |t| ==> r[i + 1] == t[i];
  }

  lemma InsertKeeps(s: System, id: int)
    requires TableInv(s) && Enabled(s, DoInsert(id))
    ensures TableInv(Apply(s, DoInsert(id)))
  {
    var t := Apply(s, DoInsert(id));
    EntriesAreOwned(s, id);
    InsertKeepsIds(s.table, id, |s.responses|);
    forall e | e in t.table ensures EntryOk(t, e) {
      assert e == t.table[0] || e in s.table;
    }
    forall other | other in t.callers ensures CallerOk(t, other) {
      assert other == id || CallerOk(s, other);
    }
  }

  /** A step of one caller that leaves the table alone. */
  lemma MoveKeeps(s: System, id: int, where: Caller)
    requires TableInv(s) && id in s.callers && Has(s.table, id)
    requires where.Waiting? || where.Leaving?
    requires where.Waiting? ==> s.callers[id].Inserted?
    requires where.Leaving? ==> ResultOk(s, id, where.result, where.source)
    ensures TableInv(Moved(s, id, where))
  {
    var t := Moved(s, id, where);
    forall e | e in t.table ensures EntryOk(t, e) {
      assert EntryOk(s, e);
    }
    forall other | other in t.callers ensures CallerOk(t, other) {
      if other != id {
        assert CallerOk(s, other);
      }
    }
  }

  /** Replacing an entry by one with the same id keeps which ids are in the table. */
  lemma ReplaceKeepsIds(t: seq<Entry>, i: nat, e: Entry)
    requires DistinctIds(t) && i < |t| && e.id == t[i].id
    ensures DistinctIds(t[i := e])
    ensures forall id :: Has(t, id) ==> Has(t[i := e], id)
    ensures forall x :: x in t[i := e] ==> x == e || (x in t && x.id != e.id)
  {
    forall id | Has(t, id) ensures Has(t[i := e], id) {
      var j :| 0 <= j < |t| && t[j].id == id;
      assert t[i := e][j].id == id;
    }
  }

  lemma WakesKeeps(s: System, id: int)
    requires TableInv(s) && Enabled(s, Wakes(id))
    ensures TableInv(Apply(s, Wakes(id)))
  {
    var i := Find(s.table, id);
    var t := Apply(s, Wakes(id));
    ReplaceKeepsIds(s.table, i, t.table[i]);
    assert EntryOk(s, s.table[i]);
    forall e | e in t.table ensures EntryOk(t, e) {
      if e != t.table[i] {
        assert EntryOk(s, e);
      }
    }
    forall other | other in t.callers ensures CallerOk(t, other) {
      assert CallerOk(s, other);
    }
  }

  lemma RemoveKeeps(s: System, id: int)
    requires TableInv(s) && Enabled(s, DoRemove(id))
    ensures TableInv(Apply(s, DoRemove(id)))
  {
    var t := Apply(s, DoRemove(id));
    RemoveTakesOne(s.table, id);
    forall e | e in t.table ensures EntryOk(t, e) {
      assert EntryOk(s, e);
    }
    forall other | other in t.callers ensures CallerOk(t, other) {
      assert CallerOk(s, other);
      if other != id && Has(s.table, other) {
        var i :| 0 <= i < |s.table| && s.table[i].id == other;
        assert s.table[i] in t.table;
        assert Has(t.table, other);
      }
    }
  }

  /** A response that is not for this entry, or cannot be printed, changes nothing about it. */
  lemma NotAnswered(responses: seq<Response>, r: Response, e: Entry)
    requires WrittenByLatest(responses, e) && (r.payload.None? || r.id != e.id)
    ensures WrittenByLatest(responses + [r], e)
  {
    assert forall k: nat :: Answers(responses + [r], k, e.id) <==> Answers(responses, k, e.id);
  }

  lemma ReceiveKeeps(s: System, r: Response)
    requires TableInv(s)
    ensures TableInv(Received(s, r))
  {
    var t := Received(s, r);
    var i := Find(s.table, r.id);
    FindsTheEntry(s.table, r.id);
    if r.payload.Some? && i < |s.table| {
      ReplaceKeepsIds(s.table, i, t.table[i]);
      assert EntryOk(s, s.table[i]) && EntryOk(t, t.table[i]);
    }
    forall e | e in t.table ensures EntryOk(t, e) {
      if r.payload.None? || e.id != r.id {
        assert EntryOk(s, e);
        NotAnswered(s.responses, r, e);
      }
    }
    forall other | other in t.callers ensures CallerOk(t, other) {
      assert CallerOk(s, other);
    }
  }

  lemma StepKeepsTable(s: System, a: Action)
    requires TableInv(s) && Enabled(s, a)
    ensures TableInv(Apply(s, a))
  {
    match a {
      case DoInsert(id) => InsertKeeps(s, id);
      case SendFails(id, error) => assert CallerOk(s, id); MoveKeeps(s, id, Leaving(error, None));
      case SendSucceeds(id) => assert CallerOk(s, id); MoveKeeps(s, id, Waiting);
      case ClockFails(id) => assert CallerOk(s, id); MoveKeeps(s, id, Leaving(LE_ERROR_UNKNOWN, None));
      case TimesOut(id) => assert CallerOk(s, id); MoveKeeps(s, id, Leaving(LE_ERROR_TIMEOUT, None));
      case Wakes(id) => WakesKeeps(s, id);
      case ReadsCode(id) =>
        assert CallerOk(s, id);
        FindsTheEntry(s.table, id);
        var e := s.table[Find(s.table, id)];
        assert EntryOk(s, e);
        MoveKeeps(s, id, Leaving(e.code, e.source));
      case DoRemove(id) => RemoveKeeps(s, id);
      case Receive(r) => ReceiveKeeps(s, r);
    }
  }

  /** No step of a caller touches the written entry of a caller that is not yet woken. */
  lemma UnwokenStays(s: System, a: Action, e: Entry)
    requires TableInv(s) && Enabled(s, a) && !a.Receive?
    requires e in Apply(s, a).table && e.source.Some? && BeforeWaking(Apply(s, a), e.id)
    ensures e in s.table && BeforeWaking(s, e.id)
  {
    var t := Apply(s, a);
    match a {
      case DoInsert(id) =>
        assert e == t.table[0] || e in s.table;
        assert e in s.table ==> EntryOk(s, e);
      case Wakes(id) =>
        ReplaceKeepsIds(s.table, Find(s.table, id), t.table[Find(s.table, id)]);
      case DoRemove(id) =>
        RemoveTakesOne(s.table, id);
      case _ =>
    }
  }

  lemma StepKeepsPosted(s: System, a: Action)
    requires Inv(s) && Enabled(s, a)
    ensures Posted(Apply(s, a))
  {
    hide TableInv, Find, Insert, Remove;
    var t := Apply(s, a);
    if a.Receive? {
      ReceiveKeepsPosted(s, a.response);
    } else {
      forall e | e in t.table && e.source.Some? && BeforeWaking(t, e.id) ensures e.posts > 0 {
        UnwokenStays(s, a, e);
      }
    }
  }

  lemma ReceiveKeepsPosted(s: System, r: Response)
    requires Inv(s)
    ensures Posted(Received(s, r))
  {
    var i := Find(s.table, r.id);
    if r.payload.Some? && i < |s.table| {
      ReplaceKeepsIds(s.table, i, Received(s, r).table[i]);
    }
  }

  lemma StepKeeps(s: System, a: Action)
    requires Inv(s) && Enabled(s, a)
    ensures Inv(Apply(s, a))
  {
    StepKeepsTable(s, a);
    StepKeepsPosted(s, a);
  }

  // ----- Whole runs -----

  ghost predicate Run(s: System, actions: seq<Action>, t: System)
    decreases |actions|
  {
    if actions == [] then s == t
    else Enabled(s, actions[0]) && Run(Apply(s, actions[0]), actions[1..], t)
  }

  lemma {:induction false} RunKeeps(s: System, actions: seq<Action>, t: System)
    requires Inv(s) && Run(s, actions, t)
    ensures Inv(t)
    decreases |actions|
  {
    if actions != [] {
      StepKeeps(s, actions[0]);
      RunKeeps(Apply(s, actions[0]), actions[1..], t);
    }
  }

  /**
   A code that a caller returns as the outcome of its call came from a response that carried its own
   message id; a caller without such a response returns an error.
   */
  lemma ReturnedCodeIsItsOwn(callback: bool, actions: seq<Action>, t: System, id: int)
    requires Run(Init(callback), actions, t)
    requires id in t.callers && t.callers[id].Returned?
    ensures match t.callers[id].source
            case Some(k) =>
              k < |t.responses| && t.responses[k].id == id && t.responses[k].code == t.callers[id].result
            case None => t.callers[id].result != LE_SUCCESS
  {
    RunKeeps(Init(callback), actions, t);
    assert CallerOk(t, id);
  }

  /** A step that ends the call with this id. */
  predicate Ends(a: Action, id: int) {
    a == ClockFails(id) || a == TimesOut(id) || a == ReadsCode(id) || (a.SendFails? && a.id == id)
  }

  /** The code such a step ends it with: the error of sending, 100000 for the clock, 100006 for the time-out. */
  predicate EndsWith(s: System, a: Action, result: int) {
    match a {
      case SendFails(_, error) => result == error
      case ClockFails(_) => result == 100000
      case TimesOut(_) => result == 100006
      case ReadsCode(id) => Find(s.table, id) < |s.table| && result == s.table[Find(s.table, id)].code
      case _ => false
    }
  }

  predicate HasEnded(s: System, id: int) {
    id in s.callers && (s.callers[id].Leaving? || s.callers[id].Returned?)
  }

  lemma EndsOnce(s: System, a: Action, id: int)
    requires TableInv(s) && Enabled(s, a)
    ensures HasEnded(Apply(s, a), id) <==> HasEnded(s, id) || Ends(a, id)
    ensures HasEnded(s, id) ==> !Ends(a, id) && Apply(s, a).callers[id].result == s.callers[id].result
    ensures Ends(a, id) ==> EndsWith(s, a, Apply(s, a).callers[id].result)
  {
    hide Insert, Remove, Answered, SetResult;
    if a.ReadsCode? {
      assert CallerOk(s, a.id);
      FindsTheEntry(s.table, a.id);
    }
    if a.Wakes? {
      assert CallerOk(s, a.id);
      FindsTheEntry(s.table, a.id);
    }
  }

  lemma {:induction false} ResultStays(s: System, actions: seq<Action>, t: System, id: int)
    requires TableInv(s) && Run(s, actions, t) && HasEnded(s, id)
    ensures HasEnded(t, id) && t.callers[id].result == s.callers[id].result
    decreases |actions|
  {
    hide Apply, Enabled, TableInv, HasEnded;
    if actions != [] {
      EndsOnce(s, actions[0], id);
      StepKeepsTable(s, actions[0]);
      ResultStays(Apply(s, actions[0]), actions[1..], t, id);
    }
  }

  lemma {:induction false} EndedByAStep(s: System, actions: seq<Action>, t: System, id: int)
    returns (k: nat, at: System)
    requires TableInv(s) && Run(s, actions, t) && !HasEnded(s, id) && HasEnded(t, id)
    ensures k < |actions| && Ends(actions[k], id) && Run(s, actions[..k], at) && Enabled(at, actions[k])
    ensures EndsWith(at, actions[k], t.callers[id].result)
    decreases |actions|
  {
    hide Apply, Enabled, TableInv, HasEnded, EndsWith, Ends;
    EndsOnce(s, actions[0], id);
    StepKeepsTable(s, actions[0]);
    var next := Apply(s, actions[0]);
    if Ends(actions[0], id) {
      ResultStays(next, actions[1..], t, id);
      k, at := 0, s;
    } else {
      k, at := EndedByAStep(next, actions[1..], t, id);
      assert actions[..k + 1][1..] == actions[1..][..k];
      k := k + 1;
    }
  }

  /**
   What a call returns is decided by the one step that ended it: the error of sending, the code for an unknown
   error when the clock fails, the one for a time-out, or the code its entry held when it was read.
   */
  lemma ExitDecidesCode(callback: bool, actions: seq<Action>, t: System, id: int) returns (k: nat, at: System)
    requires Run(Init(callback), actions, t)
    requires id in t.callers && t.callers[id].Returned?
    ensures k < |actions| && Ends(actions[k], id) && Run(Init(callback), actions[..k], at) && Enabled(at, actions[k])
    ensures EndsWith(at, actions[k], t.callers[id].result)
  {
    k, at := EndedByAStep(Init(callback), actions, t, id);
  }

  /** No response decides the outcome of two callers. */
  lemma NoResponseReachesTwo(callback: bool, actions: seq<Action>, t: System, a: int, b: int)
    requires Run(Init(callback), actions, t)
    requires a in t.callers && t.callers[a].Returned? && t.callers[a].source.Some?
    requires b in t.callers && t.callers[b].Returned? && t.callers[b].source.Some?
    ensures t.callers[a].source == t.callers[b].source ==> a == b
  {
    ReturnedCodeIsItsOwn(callback, actions, t, a);
    ReturnedCodeIsItsOwn(callback, actions, t, b);
  }

  /**
   What a response does, in every reachable state: without a printable payload nothing; otherwise it
   posts exactly the entry with its id, and if there is none it goes to the report callback, if one is
   registered.
   */
  lemma EveryResponseIsMatchedOrReported(callback: bool, actions: seq<Action>, s: System, r: Response)
    requires Run(Init(callback), actions, s)
    ensures var t := Apply(s, Receive(r));
            var k := |s.responses|;
            && t.callers == s.callers
            && (k in t.reported <==> s.callback && r.payload.Some? && !Has(s.table, r.id))
            && (r.payload.None? || !Has(s.table, r.id) ==> t.table == s.table)
            && (r.payload.Some? && Has(s.table, r.id) ==>
                  && |t.table| == |s.table|
                  && forall i :: 0 <= i < |s.table| ==>
                       t.table[i] ==
                       if s.table[i].id == r.id then Answered(s.table[i], r.code, r.payload, k) else s.table[i])
  {
    RunKeeps(Init(callback), actions, s);
    FindsTheEntry(s.table, r.id);
  }

  /**
   A caller that times out has had no printable response with its id since its entry was inserted, and
   a caller that has been answered does not time out: it can wake.
   */
  lemma TimeoutMeansSilence(callback: bool, actions: seq<Action>, s: System, id: int)
    requires Run(Init(callback), actions, s)
    requires At(s, id, Waiting)
    ensures Find(s.table, id) < |s.table|
    ensures Enabled(s, TimesOut(id)) <==>
              forall k: nat :: s.table[Find(s.table, id)].since <= k ==> !Answers(s.responses, k, id)
    ensures Enabled(s, TimesOut(id)) <==> !Enabled(s, Wakes(id))
  {
    RunKeeps(Init(callback), actions, s);
    assert CallerOk(s, id);
    FindsTheEntry(s.table, id);
    assert EntryOk(s, s.table[Find(s.table, id)]);
  }

  /** The code a woken caller reads is that of the last printable response with its id so far. */
  lemma LatestResponseWins(callback: bool, actions: seq<Action>, s: System, id: int)
    requires Run(Init(callback), actions, s)
    requires Enabled(s, ReadsCode(id))
    ensures var t := Apply(s, ReadsCode(id));
            && t.callers[id].Leaving? && t.callers[id].source.Some?
            && var k := t.callers[id].source.value;
               && Answers(s.responses, k, id) && t.callers[id].result == s.responses[k].code
               && forall j: nat :: k < j ==> !Answers(s.responses, j, id)
  {
    RunKeeps(Init(callback), actions, s);
    assert CallerOk(s, id);
    FindsTheEntry(s.table, id);
    assert EntryOk(s, s.table[Find(s.table, id)]);
  }

  /** Every exit path takes exactly the caller's own entry out of the table. */
  lemma LeavingRemovesOnlyItsEntry(callback: bool, actions: seq<Action>, s: System, id: int)
    requires Run(Init(callback), actions, s)
    requires Enabled(s, DoRemove(id))
    ensures Has(s.table, id) && !Has(Apply(s, DoRemove(id)).table, id)
    ensures |Apply(s, DoRemove(id)).table| == |s.table| - 1
    ensures forall e :: e in Apply(s, DoRemove(id)).table <==> e in s.table && e.id != id
  {
    RunKeeps(Init(callback), actions, s);
    assert CallerOk(s, id);
    RemoveTakesOne(s.table, id);
  }

  /** The table holds an entry for exactly the callers that have not returned; when all have, it is empty. */
  lemma TableHoldsTheOpenCalls(callback: bool, actions: seq<Action>, s: System, id: int)
    requires Run(Init(callback), actions, s)
    ensures Has(s.table, id) <==> id in s.callers && !s.callers[id].Returned?
    ensures (forall c :: c in s.callers ==> s.callers[c].Returned?) ==> s.table == []
  {
    RunKeeps(Init(callback), actions, s);
    if id in s.callers {
      assert CallerOk(s, id);
    }
    EntriesAreOwned(s, id);
    if s.table != [] {
      assert s.table[0] in s.table;
    }
  }

  // ----- The table in place -----

  /** The global list of replies; the head of the list is the start of the sequence. */
  class ReplyList {
    var replies: seq<Entry>

    constructor ()
      ensures replies == []
    {
      replies := [];
    }

    /** The lookup loop; an index at the end stands for the null pointer. */
    method GetReplyByMsgId(id: int) returns (index: nat)
      ensures index <= |replies| && (index < |replies| ==> replies[index].id == id)
      ensures forall j :: 0 <= j < index ==> replies[j].id != id
      ensures index == Find(replies, id)
    {
      index := 0;
      while index < |replies| && replies[index].id != id
        invariant index <= |replies|
        invariant forall j :: 0 <= j < index ==> replies[j].id != id
      {
        index := index + 1;
      }
    }

    method InsertReply(id: int, since: nat) returns (code: int)
      modifies this
      ensures code == LE_SUCCESS && replies == Insert(old(replies), id, since)
    {
      var reply := Entry(id, 0, None, 0, since, None);
      reply := reply.(code := LE_ERROR_UNKNOWN);
      replies := [reply] + replies;
      return LE_SUCCESS;
    }

    method RemoveReply(id: int)
      modifies this
      ensures replies == Remove(old(replies), id)
    {
      var index := GetReplyByMsgId(id);
      if index == |replies| {
        return;
      }
      replies := replies[..index] + replies[index + 1..];
    }

    method SetReplyResult(id: int, code: int, payload: Option<seq<byte>>, source: nat) returns (ret: int)
      modifies this
      ensures (replies, ret) == SetResult(old(replies), id, code, payload, source)
      ensures ret == (if Has(old(replies), id) then 0 else 100000)
      ensures Has(old(replies), id) ==>
                var i := Find(old(replies), id);
                var was := old(replies)[i];
                && |replies| == |old(replies)|
                && replies[i].code == code && replies[i].posts == was.posts + 1
                && replies[i].payload == (if payload.None? then was.payload else payload)
    {
      var index := GetReplyByMsgId(id);
      if index == |replies| {
        return LE_ERROR_UNKNOWN;
      }
      var reply := replies[index].(code := code, source := Some(source));
      if payload.Some? {
        reply := reply.(payload := payload);
      }
      reply := reply.(posts := reply.posts + 1);
      replies := replies[index := reply];
      return LE_SUCCESS;
    }

    /**
     _ws_get_reply_result with the list as it is when the wait ends; whether the clock fails and whether
     the wait times out is up to the environment.
     */
    method GetReplyResult(id: int, clockFails: bool, timesOut: bool)
      returns (ret: int, code: Option<int>, payload: Option<seq<byte>>)
      modifies this
      ensures replies == Remove(old(replies), id)
      ensures !Has(old(replies), id) ==> ret == LE_ERROR_INVALID_PARAM && code == None && payload == None
      ensures Has(old(replies), id) ==>
                ret == if clockFails then LE_ERROR_UNKNOWN else if timesOut then LE_ERROR_TIMEOUT else LE_SUCCESS
      ensures Has(old(replies), id) && ret == LE_SUCCESS ==>
                var reply := old(replies)[Find(old(replies), id)]; code == Some(reply.code) && payload == reply.payload
      ensures ret != LE_SUCCESS ==> code == None && payload == None
    {
      FindsTheEntry(replies, id);
      var index := GetReplyByMsgId(id);
      if index == |replies| {
        return LE_ERROR_INVALID_PARAM, None, None;
      }
      if clockFails {
        RemoveReply(id);
        return LE_ERROR_UNKNOWN, None, None;
      }
      if timesOut {
        RemoveReply(id);
        return LE_ERROR_TIMEOUT, None, None;
      }
      code, payload := Some(replies[index].code), replies[index].payload;
      RemoveReply(id);
      return LE_SUCCESS, code, payload;
    }
  }
}
