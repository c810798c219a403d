/**
 The ring of outgoing messages: slots that are empty when their length is 0, and two indices that
 are brought back to 0 only by the next call that finds them at the end.
 */
module SendRing {
  import opened Bytes
  import opened Common

  const MAX_MSG_BUF_COUNT := 8

  /** A slot's message with its NUL; an empty slot has no bytes at all. */
  datatype Slot = Slot(message: seq<byte>, kind: int) {
    predicate Empty() { message == [] }
  }

  datatype Ring = Ring(slots: seq<Slot>, read: nat, write: nat)

  ghost predicate ValidRing(r: Ring) {
    |r.slots| > 0 && r.read <= |r.slots| && r.write <= |r.slots|
  }

  /** An index at the end stands for slot 0. */
  function Wrapped(index: nat, n: nat): nat {
    if index >= n then 0 else index
  }

  function Stored(payload: seq<byte>, kind: int): (s: Slot)
    ensures !s.Empty()
  {
    Slot(payload + [NUL], kind)
  }

  /** client_buf_mgmt_push: the slot is overwritten whether or not it is occupied. */
  function Push(r: Ring, payload: seq<byte>, kind: int): Ring
    requires ValidRing(r)
  {
    var w := Wrapped(r.write, |r.slots|);
    Ring(r.slots[w := Stored(payload, kind)], r.read, w + 1)
  }

  const SIZE_LIMIT := 0x1_0000_0000_0000_0000

  /** A C int converted to size_t for the comparison with a length. */
  function AsSize(x: int): nat {
    x % SIZE_LIMIT
  }

  /** Does this result of the write callback count as a complete write? */
  predicate CountsAsSent(result: int, length: nat) {
    AsSize(result) >= length
  }

  /** A complete write or any error of the callback; only a short non-negative count keeps the message. */
  lemma NegativeCountsAsSent(result: int, length: nat)
    requires INT_MIN <= result <= INT_MAX && length <= SIZE_LIMIT + INT_MIN
    ensures CountsAsSent(result, length) <==> result < 0 || result >= length
  {
    if result < 0 {
      assert result % SIZE_LIMIT == result + SIZE_LIMIT;
    }
  }

  /** client_buf_mgmt_pop, given what the write callback returns when it is called. */
  function Pop(r: Ring, result: int): (Ring, int)
    requires ValidRing(r)
  {
    var i := Wrapped(r.read, |r.slots|);
    if r.slots[i].Empty() then (r.(read := i), LE_SUCCESS)
    else if !CountsAsSent(result, |r.slots[i].message|) then (r.(read := i), LE_ERROR_UNKNOWN)
    else (Ring(r.slots[i := r.slots[i].(message := [])], i + 1, r.write), LE_SUCCESS)
  }

  /** Was the message under the read index taken out by this pop? */
  predicate Retires(r: Ring, result: int)
    requires ValidRing(r)
  {
    var slot := r.slots[Wrapped(r.read, |r.slots|)];
    !slot.Empty() && CountsAsSent(result, |slot.message|)
  }

  /** buf_mgmt_client_clear_msg: the first eight slots, whatever the size of the ring. */
  function Clear(r: Ring): Ring
    requires |r.slots| >= MAX_MSG_BUF_COUNT
  {
    Ring(
      seq(|r.slots|, i requires 0 <= i < |r.slots| =>
        if i < MAX_MSG_BUF_COUNT then r.slots[i].(message := []) else r.slots[i]),
      0, 0)
  }

  // ----- The ring as a queue -----

  /** The slot that is d places behind the read index. */
  function At(r: Ring, d: nat): Slot
    requires ValidRing(r) && d < |r.slots|
  {
    r.slots[Lap(Wrapped(r.read, |r.slots|) + d, |r.slots|)]
  }

  /**
   The ring holds exactly the messages of queue, oldest at the read index and on cyclically to the
   write index, and every other slot is empty.
   */
  ghost predicate Holds(r: Ring, queue: seq<Slot>) {
    && ValidRing(r) && |queue| <= |r.slots|
    && Wrapped(r.write, |r.slots|) == Lap(Wrapped(r.read, |r.slots|) + |queue|, |r.slots|)
    && (forall d {:trigger At(r, d)} :: 0 <= d < |queue| ==> At(r, d) == queue[d] && !At(r, d).Empty())
    && (forall d {:trigger At(r, d)} :: |queue| <= d < |r.slots| ==> At(r, d).Empty())
  }

  /** With room in the ring a push appends. */
  lemma PushAppends(r: Ring, queue: seq<Slot>, payload: seq<byte>, kind: int)
    requires Holds(r, queue) && |queue| < |r.slots|
    ensures Holds(Push(r, payload, kind), queue + [Stored(payload, kind)])
    ensures r.slots[Wrapped(r.write, |r.slots|)].Empty()
  {
    var t := Push(r, payload, kind);
    forall d | 0 <= d < |r.slots|
      ensures At(t, d) == if d == |queue| then Stored(payload, kind) else At(r, d)
    {
    }
    assert At(r, |queue|).Empty();
  }

  /**
   With no room it does not: a push is an append exactly when fewer messages are waiting than the
   ring has slots. On a full ring the newest message takes the place of the oldest, which is lost,
   and is the next one to be offered to the network.
   */
  lemma PushAppendsIffRoom(r: Ring, queue: seq<Slot>, payload: seq<byte>, kind: int)
    requires Holds(r, queue)
    ensures Holds(Push(r, payload, kind), queue + [Stored(payload, kind)]) <==> |queue| < |r.slots|
    ensures |queue| == |r.slots| ==>
              && At(Push(r, payload, kind), 0) == Stored(payload, kind)
              && forall d :: 1 <= d < |queue| ==> At(Push(r, payload, kind), d) == queue[d]
  {
    if |queue| < |r.slots| {
      PushAppends(r, queue, payload, kind);
    } else {
      forall d | 1 <= d < |queue| ensures At(Push(r, payload, kind), d) == queue[d] {
        assert At(r, d) == queue[d];
      }
    }
  }

  /** A pop that counts as sent removes the oldest message; any other pop leaves the queue as it is. */
  lemma PopTakesOldest(r: Ring, queue: seq<Slot>, result: int)
    requires Holds(r, queue)
    ensures Retires(r, result) <==> queue != [] && CountsAsSent(result, |queue[0].message|)
    ensures Retires(r, result) ==> r.slots[Wrapped(r.read, |r.slots|)] == queue[0]
    ensures Holds(Pop(r, result).0, if Retires(r, result) then queue[1..] else queue)
    ensures Pop(r, result).1 == if queue == [] || Retires(r, result) then LE_SUCCESS else LE_ERROR_UNKNOWN
  {
    var t := Pop(r, result).0;
    assert At(r, 0) == r.slots[Wrapped(r.read, |r.slots|)];
    if Retires(r, result) {
      forall d | 0 <= d < |r.slots|
        ensures At(t, d) == if d == |r.slots| - 1 then At(r, 0).(message := []) else At(r, d + 1)
      {
      }
    } else {
      forall d | 0 <= d < |r.slots| ensures At(t, d) == At(r, d) {
      }
    }
  }

  // ----- Runs -----

  datatype Action =
    | DoPush(payload: seq<byte>, kind: int)
    | DoPop(result: int)
    | DoClear

  /**
   The ring with its history: every message pushed so far, which push each slot was written by, which
   pushes were retired by a pop (in order, with what the network was given), and which were
   overwritten or cleared.
   */
  datatype System = System(
    ring: Ring,
    pushed: seq<Slot>,
    writer: seq<nat>,
    retired: seq<nat>,
    delivered: seq<Slot>,
    overwritten: multiset<nat>,
    cleared: multiset<nat>)

  function Init(n: nat): System {
    System(Ring(seq(n, _ => Slot([], 0)), 0, 0), [], seq(n, _ => 0), [], [], multiset{}, multiset{})
  }

  /** The pushes whose messages are in the slots. */
  ghost function Occupants(slots: seq<Slot>, writer: seq<nat>): multiset<nat>
    requires |slots| == |writer|
  {
    if slots == [] then multiset{}
    else (if slots[0].Empty() then multiset{} else multiset{writer[0]}) + Occupants(slots[1..], writer[1..])
  }

  /** How many slots hold the message of push k. */
  ghost function Holders(slots: seq<Slot>, writer: seq<nat>, k: nat): nat
    requires |slots| == |writer|
  {
    if slots == [] then 0
    else (if !slots[0].Empty() && writer[0] == k then 1 else 0) + Holders(slots[1..], writer[1..], k)
  }

  lemma {:induction false} HoldersCount(slots: seq<Slot>, writer: seq<nat>, k: nat)
    requires |slots| == |writer|
    ensures Occupants(slots, writer)[k] == Holders(slots, writer, k)
  {
    if slots != [] {
      HoldersCount(slots[1..], writer[1..], k);
    }
  }

  /** The pushes whose messages a clear throws away. */
  ghost function Doomed(s: System): multiset<nat>
    requires |s.ring.slots| == |s.writer| && |s.ring.slots| >= MAX_MSG_BUF_COUNT
  {
    Occupants(s.ring.slots[..MAX_MSG_BUF_COUNT], s.writer[..MAX_MSG_BUF_COUNT])
  }

  ghost predicate Possible(s: System, a: Action) {
    ValidRing(s.ring) && |s.writer| == |s.ring.slots| && (a.DoClear? ==> |s.ring.slots| >= MAX_MSG_BUF_COUNT)
  }

  ghost function Apply(s: System, a: Action): System
    requires Possible(s, a)
  {
    match a {
      case DoPush(payload, kind) =>
        var w := Wrapped(s.ring.write, |s.writer|);
        s.(ring := Push(s.ring, payload, kind),
           pushed := s.pushed + [Stored(payload, kind)],
           writer := s.writer[w := |s.pushed|],
           overwritten := if s.ring.slots[w].Empty() then s.overwritten else s.overwritten + multiset{s.writer[w]})
      case DoPop(result) =>
        var i := Wrapped(s.ring.read, |s.writer|);
        var t := s.(ring := Pop(s.ring, result).0);
        if !Retires(s.ring, result) then t
        else t.(retired := s.retired + [s.writer[i]], delivered := s.delivered + [s.ring.slots[i]])
      case DoClear =>
        s.(ring := Clear(s.ring), cleared := s.cleared + Doomed(s))
    }
  }

  /** In how many places push k is: retired, overwritten, cleared or in a slot. */
  ghost function Places(s: System, k: nat): nat
    requires |s.writer| == |s.ring.slots|
  {
    multiset(s.retired)[k] + s.overwritten[k] + s.cleared[k] + Holders(s.ring.slots, s.writer, k)
  }

  /** Every push is in exactly one place, and every slot and every delivery holds the message of its push. */
  ghost predicate Inv(s: System) {
    && ValidRing(s.ring) && |s.writer| == |s.ring.slots|
    && (forall k: nat :: Places(s, k) == if k < |s.pushed| then 1 else 0)
    && (forall i :: 0 <= i < |s.writer| && !s.ring.slots[i].Empty() ==>
          s.writer[i] < |s.pushed| && s.ring.slots[i] == s.pushed[s.writer[i]])
    && |s.retired| == |s.delivered|
    && (forall i :: 0 <= i < |s.retired| ==> s.retired[i] < |s.pushed| && s.delivered[i] == s.pushed[s.retired[i]])
  }

  function One(slot: Slot, w: nat, k: nat): nat {
    if !slot.Empty() && w == k then 1 else 0
  }

  lemma {:induction false} HoldersUpdate(slots: seq<Slot>, writer: seq<nat>, i: nat, slot: Slot, w: nat, k: nat)
    requires |slots| == |writer| && i < |slots|
    ensures Holders(slots[i := slot], writer[i := w], k) + One(slots[i], writer[i], k)
         == Holders(slots, writer, k) + One(slot, w, k)
  {
    if i == 0 {
      assert slots[0 := slot][1..] == slots[1..] && writer[0 := w][1..] == writer[1..];
    } else {
      HoldersUpdate(slots[1..], writer[1..], i - 1, slot, w, k);
      assert slots[i := slot][1..] == slots[1..][i - 1 := slot];
      assert writer[i := w][1..] == writer[1..][i - 1 := w];
    }
  }

  lemma {:induction false} HoldersSplit(slots: seq<Slot>, writer: seq<nat>, i: nat, k: nat)
    requires |slots| == |writer| && i <= |slots|
    ensures Holders(slots, writer, k) == Holders(slots[..i], writer[..i], k) + Holders(slots[i..], writer[i..], k)
  {
    if i == 0 {
      assert slots[0..] == slots && writer[0..] == writer;
    } else {
      HoldersSplit(slots[1..], writer[1..], i - 1, k);
      assert slots[1..][..i - 1] == slots[..i][1..] && writer[1..][..i - 1] == writer[..i][1..];
      assert slots[1..][i - 1..] == slots[i..] && writer[1..][i - 1..] == writer[i..];
    }
  }

  lemma {:induction false} NoHolders(slots: seq<Slot>, writer: seq<nat>, k: nat)
    requires |slots| == |writer| && forall i :: 0 <= i < |slots| ==> slots[i].Empty()
    ensures Holders(slots, writer, k) == 0
  {
    if slots != [] {
      NoHolders(slots[1..], writer[1..], k);
    }
  }

  lemma InitIsValid(n: nat)
    requires n > 0
    ensures Inv(Init(n)) && Holds(Init(n).ring, [])
  {
    var s := Init(n);
    forall k: nat ensures Places(s, k) == 0 {
      NoHolders(s.ring.slots, s.writer, k);
    }
  }

  lemma PushKeeps(s: System, payload: seq<byte>, kind: int)
    requires Inv(s)
    ensures Inv(Apply(s, DoPush(payload, kind)))
  {
    var t := Apply(s, DoPush(payload, kind));
    forall k: nat ensures Places(t, k) == if k < |t.pushed| then 1 else 0 {
      assert Places(s, k) == if k < |s.pushed| then 1 else 0;
      HoldersUpdate(s.ring.slots, s.writer, Wrapped(s.ring.write, |s.writer|), Stored(payload, kind), |s.pushed|, k);
    }
  }

  lemma PopKeeps(s: System, result: int)
    requires Inv(s)
    ensures Inv(Apply(s, DoPop(result)))
  {
    var t := Apply(s, DoPop(result));
    var i := Wrapped(s.ring.read, |s.writer|);
    assert s.writer[i := s.writer[i]] == s.writer;
    forall k: nat ensures Places(t, k) == Places(s, k) {
      if Retires(s.ring, result) {
        HoldersUpdate(s.ring.slots, s.writer, i, s.ring.slots[i].(message := []), s.writer[i], k);
      }
    }
  }

  lemma ClearKeeps(s: System)
    requires Inv(s) && |s.ring.slots| >= MAX_MSG_BUF_COUNT
    ensures Inv(Apply(s, DoClear))
  {
    var t := Apply(s, DoClear);
    var c := MAX_MSG_BUF_COUNT;
    forall k: nat ensures Places(t, k) == Places(s, k) {
      HoldersSplit(s.ring.slots, s.writer, c, k);
      HoldersSplit(t.ring.slots, s.writer, c, k);
      NoHolders(t.ring.slots[..c], s.writer[..c], k);
      assert t.ring.slots[c..] == s.ring.slots[c..];
      HoldersCount(s.ring.slots[..c], s.writer[..c], k);
    }
  }

  ghost predicate Run(s: System, actions: seq<Action>, t: System)
    decreases |actions|
  {
    if actions == [] then s == t
    else Possible(s, actions[0]) && Run(Apply(s, actions[0]), actions[1..], t)
  }

  lemma {:induction false} RunKeeps(s: System, actions: seq<Action>, t: System)
    requires Inv(s) && Run(s, actions, t)
    ensures Inv(t)
    decreases |actions|
  {
    if actions != [] {
      match actions[0] {
        case DoPush(payload, kind) => PushKeeps(s, payload, kind);
        case DoPop(result) => PopKeeps(s, result);
        case DoClear => ClearKeeps(s);
      }
      RunKeeps(Apply(s, actions[0]), actions[1..], t);
    }
  }

  /** The pushes among some actions, in order. */
  function Pushes(actions: seq<Action>): (r: seq<Action>)
    ensures forall k :: 0 <= k < |r| ==> r[k].DoPush?
  {
    if actions == [] then []
    else (if actions[0].DoPush? then [actions[0]] else []) + Pushes(actions[1..])
  }

  /** The slot holds what was pushed: the payload, one NUL behind it, and the type. */
  predicate Carries(slot: Slot, push: Action)
    requires push.DoPush?
  {
    && |slot.message| == |push.payload| + 1
    && (forall i :: 0 <= i < |push.payload| ==> slot.message[i] == push.payload[i])
    && slot.message[|push.payload|] == NUL
    && slot.kind == push.kind
  }

  /** The history of pushes is that of the actions. */
  lemma {:induction false} PushedIsPushes(s: System, actions: seq<Action>, t: System)
    requires Run(s, actions, t)
    ensures |t.pushed| == |s.pushed| + |Pushes(actions)| && s.pushed <= t.pushed
    ensures forall k :: 0 <= k < |Pushes(actions)| ==> Carries(t.pushed[|s.pushed| + k], Pushes(actions)[k])
    decreases |actions|
  {
    if actions != [] {
      var next := Apply(s, actions[0]);
      PushedIsPushes(next, actions[1..], t);
      if actions[0].DoPush? {
        assert next.pushed[|s.pushed|] == t.pushed[|s.pushed|];
        forall k | 0 < k < |Pushes(actions)|
          ensures Carries(t.pushed[|s.pushed| + k], Pushes(actions)[k])
        {
          assert Pushes(actions)[k] == Pushes(actions[1..])[k - 1];
        }
      }
    }
  }

  /**
   In every run of a new ring, overflow and partial clears included: each push is exactly one of
   retired, occupying a slot, overwritten or cleared, and exactly once, so never retired twice; and
   what the network was given is the payload of that push with its NUL, and its type.
   */
  lemma EveryPushHasOneFate(n: nat, actions: seq<Action>, t: System, k: nat)
    requires n > 0 && Run(Init(n), actions, t)
    ensures |t.writer| == |t.ring.slots|
    ensures multiset(t.retired)[k] + t.overwritten[k] + t.cleared[k] + Holders(t.ring.slots, t.writer, k)
         == if k < |t.pushed| then 1 else 0
    ensures |t.retired| == |t.delivered|
    ensures |t.pushed| == |Pushes(actions)|
    ensures forall i :: 0 <= i < |t.retired| ==>
              && t.retired[i] < |t.pushed| && t.delivered[i] == t.pushed[t.retired[i]]
              && Carries(t.delivered[i], Pushes(actions)[t.retired[i]])
  {
    InitIsValid(n);
    RunKeeps(Init(n), actions, t);
    PushedIsPushes(Init(n), actions, t);
    assert Places(t, k) == if k < |t.pushed| then 1 else 0;
  }

  // ----- Runs without overflow -----

  /** How many messages are pushed and not yet retired. */
  function Backlog(s: System): int {
    |s.pushed| - |s.retired|
  }

  /** A run without clears in which a push never finds the ring full. */
  ghost predicate WithinBacklog(s: System, actions: seq<Action>, t: System)
    decreases |actions|
  {
    if actions == [] then s == t
    else
      && Possible(s, actions[0]) && !actions[0].DoClear?
      && Backlog(Apply(s, actions[0])) <= |s.ring.slots|
      && WithinBacklog(Apply(s, actions[0]), actions[1..], t)
  }

  /** The ring is the queue of the messages not yet delivered, and deliveries follow the pushes. */
  ghost predicate InOrder(s: System) {
    && |s.writer| == |s.ring.slots|
    && s.delivered <= s.pushed && |s.delivered| == |s.retired|
    && Holds(s.ring, s.pushed[|s.delivered|..])
  }

  lemma StepKeepsOrder(s: System, a: Action)
    requires InOrder(s) && Possible(s, a) && !a.DoClear? && Backlog(Apply(s, a)) <= |s.ring.slots|
    ensures InOrder(Apply(s, a)) && Apply(s, a).overwritten == s.overwritten
    ensures |Apply(s, a).ring.slots| == |s.ring.slots|
  {
    var queue := s.pushed[|s.delivered|..];
    match a {
      case DoPush(payload, kind) =>
        PushAppends(s.ring, queue, payload, kind);
        assert (s.pushed + [Stored(payload, kind)])[|s.delivered|..] == queue + [Stored(payload, kind)];
      case DoPop(result) =>
        PopTakesOldest(s.ring, queue, result);
        if Retires(s.ring, result) {
          assert s.delivered + [queue[0]] == s.pushed[..|s.delivered| + 1];
          assert queue[1..] == s.pushed[|s.delivered| + 1..];
        }
    }
  }

  lemma {:induction false} RunKeepsOrder(s: System, actions: seq<Action>, t: System)
    requires InOrder(s) && WithinBacklog(s, actions, t)
    ensures InOrder(t) && t.overwritten == s.overwritten && t.cleared == s.cleared
    decreases |actions|
  {
    if actions != [] {
      StepKeepsOrder(s, actions[0]);
      RunKeepsOrder(Apply(s, actions[0]), actions[1..], t);
    }
  }

  predicate ClearFree(actions: seq<Action>) {
    forall i :: 0 <= i < |actions| ==> !actions[i].DoClear?
  }

  /** What was overwritten stays so. */
  lemma {:induction false} OverwrittenGrows(s: System, actions: seq<Action>, t: System)
    requires Run(s, actions, t)
    ensures s.overwritten <= t.overwritten
    decreases |actions|
  {
    if actions != [] {
      OverwrittenGrows(Apply(s, actions[0]), actions[1..], t);
    }
  }

  /** A push onto a full ring overwrites. */
  lemma FullPushOverwrites(s: System, a: Action)
    requires InOrder(s) && Possible(s, a) && !a.DoClear? && Backlog(Apply(s, a)) > |s.ring.slots|
    ensures Apply(s, a).overwritten != multiset{}
  {
    var queue := s.pushed[|s.delivered|..];
    if a.DoPush? {
      assert |queue| == |s.ring.slots| && !At(s.ring, 0).Empty();
      var w := Wrapped(s.ring.write, |s.writer|);
      assert s.ring.slots[w] == At(s.ring, 0);
      assert s.writer[w] in Apply(s, a).overwritten;
    }
  }

  lemma {:induction false} NothingOverwrittenIsWithin(s: System, actions: seq<Action>, t: System)
    requires InOrder(s) && Run(s, actions, t) && ClearFree(actions)
    requires t.overwritten == multiset{}
    ensures WithinBacklog(s, actions, t)
    decreases |actions|
  {
    if actions != [] {
      var next := Apply(s, actions[0]);
      OverwrittenGrows(next, actions[1..], t);
      if Backlog(next) > |s.ring.slots| {
        FullPushOverwrites(s, actions[0]);
      } else {
        StepKeepsOrder(s, actions[0]);
        NothingOverwrittenIsWithin(next, actions[1..], t);
      }
    }
  }

  lemma {:induction false} WithinIsRun(s: System, actions: seq<Action>, t: System)
    requires WithinBacklog(s, actions, t)
    ensures Run(s, actions, t) && ClearFree(actions)
    decreases |actions|
  {
    if actions != [] {
      WithinIsRun(Apply(s, actions[0]), actions[1..], t);
      assert forall i :: 0 < i < |actions| ==> actions[i] == actions[1..][i - 1];
    }
  }

  lemma StartsInOrder(n: nat)
    requires n > 0
    ensures InOrder(Init(n))
  {
    InitIsValid(n);
  }

  /**
   First in, first out: a run of a new ring without clears loses nothing if and only if its backlog stays
   within the ring; and then the network is given the pushed messages in order, each payload with its NUL and
   its type, and the occupied slots are exactly the cyclic window from the read to the write index.
   */
  lemma FirstInFirstOut(n: nat, actions: seq<Action>, t: System)
    requires n > 0 && Run(Init(n), actions, t) && ClearFree(actions)
    ensures t.overwritten == multiset{} <==> WithinBacklog(Init(n), actions, t)
    ensures WithinBacklog(Init(n), actions, t) ==>
              && t.delivered <= t.pushed
              && Holds(t.ring, t.pushed[|t.delivered|..])
              && t.cleared == multiset{}
              && |t.pushed| == |Pushes(actions)|
              && forall i :: 0 <= i < |t.delivered| ==> Carries(t.delivered[i], Pushes(actions)[i])
  {
    hide Run, WithinBacklog, Holds, Carries, Inv;
    InitIsValid(n);
    StartsInOrder(n);
    PushedIsPushes(Init(n), actions, t);
    if WithinBacklog(Init(n), actions, t) {
      RunKeepsOrder(Init(n), actions, t);
    } else if t.overwritten == multiset{} {
      NothingOverwrittenIsWithin(Init(n), actions, t);
    }
  }

  /** The backlog bound is needed: three pushes into a ring of two deliver the third message first. */
  lemma OverflowBreaksOrder(a: seq<byte>, b: seq<byte>, c: seq<byte>, result: int)
    requires a != c && CountsAsSent(result, |c| + 1)
    ensures var s := Apply(Apply(Apply(Init(2), DoPush(a, 0)), DoPush(b, 0)), DoPush(c, 0));
            var t := Apply(s, DoPop(result));
            t.delivered == [Stored(c, 0)] && t.overwritten == multiset{0} && !(t.delivered <= t.pushed)
  {
    var s := Apply(Apply(Apply(Init(2), DoPush(a, 0)), DoPush(b, 0)), DoPush(c, 0));
    assert s.pushed[0] == Stored(a, 0);
    assert Stored(a, 0).message[..|a|] == a && Stored(c, 0).message[..|c|] == c;
    assert s.ring.slots[0] == Stored(c, 0);
  }

  /** A partial clear leaves messages behind: slot 8 of a larger ring is still occupied. */
  lemma ClearKeepsLaterSlots(r: Ring, i: nat)
    requires ValidRing(r) && MAX_MSG_BUF_COUNT <= |r.slots| && i < |r.slots|
    ensures Clear(r).slots[i].Empty() <==> i < 8 || r.slots[i].Empty()
    ensures i >= 8 ==> Clear(r).slots[i] == r.slots[i]
    ensures Holds(Clear(r), []) <==> forall j :: 8 <= j < |r.slots| ==> r.slots[j].Empty()
  {
    var t := Clear(r);
    forall j | 0 <= j < |r.slots| ensures At(t, j) == t.slots[j] {
    }
    if Holds(t, []) {
      forall j | MAX_MSG_BUF_COUNT <= j < |r.slots| ensures r.slots[j].Empty() {
        assert At(t, j).Empty();
      }
    }
  }

  lemma {:induction false} RunOneMore(s: System, actions: seq<Action>, t: System, a: Action)
    requires Run(s, actions, t) && Possible(t, a)
    ensures Run(s, actions + [a], Apply(t, a))
    decreases |actions|
  {
    var more := actions + [a];
    if actions == [] {
      assert more[1..] == [];
    } else {
      RunOneMore(Apply(s, actions[0]), actions[1..], t, a);
      assert more[1..] == actions[1..] + [a];
    }
  }

  /** A new ring after k pushes, with nothing popped. */
  lemma {:induction false} AfterPushes(n: nat, k: nat, payload: seq<byte>, kind: int)
    returns (actions: seq<Action>, t: System)
    requires 0 < n && k <= n
    ensures Run(Init(n), actions, t) && InOrder(t)
    ensures |t.ring.slots| == n && |t.pushed| == k && t.delivered == [] && t.ring.read == 0
  {
    InitIsValid(n);
    actions, t := [], Init(n);
    if k > 0 {
      actions, t := AfterPushes(n, k - 1, payload, kind);
      var a := DoPush(payload, kind);
      StepKeepsOrder(t, a);
      RunOneMore(Init(n), actions, t, a);
      actions, t := actions + [a], Apply(t, a);
    }
  }

  /** So a clear does not empty a ring of more than eight slots that nine pushes have reached. */
  lemma ClearLeavesTheNinth(n: nat, payload: seq<byte>, kind: int) returns (actions: seq<Action>, t: System)
    requires n > MAX_MSG_BUF_COUNT
    ensures Run(Init(n), actions, t) && InOrder(t)
    ensures |t.ring.slots| == n && !Clear(t.ring).slots[MAX_MSG_BUF_COUNT].Empty()
    ensures !Holds(Clear(t.ring), [])
  {
    actions, t := AfterPushes(n, MAX_MSG_BUF_COUNT + 1, payload, kind);
    assert !At(t.ring, MAX_MSG_BUF_COUNT).Empty();
    ClearKeepsLaterSlots(t.ring, MAX_MSG_BUF_COUNT);
  }

  // ----- The ring in place -----

  /** The global slot array and indices, updated in place by push, pop and clear. */
  class MessageBuffer {
    const slots: array<Slot>
    var rdIndex: nat
    var wrIndex: nat

    ghost function Contents(): Ring
      reads this, slots
    {
      Ring(slots[..], rdIndex, wrIndex)
    }

    ghost predicate Valid()
      reads this, slots
    {
      ValidRing(Contents())
    }

    constructor (maxBufCount: nat)
      requires maxBufCount > 0
      ensures Valid() && fresh(slots) && slots.Length == maxBufCount && Holds(Contents(), [])
    {
      slots := new Slot[maxBufCount](_ => Slot([], 0));
      rdIndex, wrIndex := 0, 0;
    }

    /** client_buf_mgmt_push; None is the null buffer. */
    method PushMessage(buf: Option<seq<byte>>, kind: int) returns (code: int)
      requires Valid()
      modifies this, slots
      ensures Valid()
      ensures buf.None? ==> code == LE_ERROR_INVALID_PARAM && Contents() == old(Contents())
      ensures buf.Some? ==>
                && code == LE_SUCCESS && Contents() == Push(old(Contents()), buf.value, kind)
                && slots[Wrapped(old(wrIndex), slots.Length)] == Slot(buf.value + [NUL], kind)
    {
      if buf.None? {
        return LE_ERROR_INVALID_PARAM;
      }
      var index := wrIndex;
      if index >= slots.Length {
        wrIndex := 0;
        index := 0;
      }
      slots[index] := Slot(buf.value + [NUL], kind);
      wrIndex := wrIndex + 1;
      return LE_SUCCESS;
    }

    /** client_buf_mgmt_pop; result is what the callback returns if it is called, offered what it was given. */
    method PopMessage(result: int) returns (code: int, offered: Option<Slot>)
      requires Valid()
      modifies this, slots
      ensures Valid() && (Contents(), code) == Pop(old(Contents()), result)
      ensures var head := old(slots[Wrapped(rdIndex, slots.Length)]);
              offered == if head.Empty() then None else Some(head)
    {
      var index := rdIndex;
      if index >= slots.Length {
        rdIndex := 0;
        index := 0;
      }
      if slots[index].message == [] {
        return LE_SUCCESS, None;
      }
      offered := Some(slots[index]);
      if !CountsAsSent(result, |slots[index].message|) {
        return LE_ERROR_UNKNOWN, offered;
      }
      slots[index] := slots[index].(message := []);
      rdIndex := rdIndex + 1;
      return LE_SUCCESS, offered;
    }

    /** buf_mgmt_client_clear_msg writes eight slots, so the ring must have them. */
    method ClearMessages()
      requires Valid() && slots.Length >= MAX_MSG_BUF_COUNT
      modifies this, slots
      ensures Valid() && Contents() == Clear(old(Contents()))
    {
      wrIndex := 0;
      rdIndex := 0;
      for i := 0 to MAX_MSG_BUF_COUNT
        invariant wrIndex == 0 && rdIndex == 0
        invariant forall j :: 0 <= j < slots.Length ==>
                    slots[j] == if j < i then old(slots[j]).(message := []) else old(slots[j])
      {
        slots[i] := slots[i].(message := []);
      }
    }
  }
}
