/**
 The counter that message ids are drawn from. A call increments it in a lock section and reads it behind the
 lock, so that other calls may increment it in between.
 */
module MessageIds {
  import opened Bytes
  import opened Common

  /** What is left of a number in an unsigned int. */
  function Wrapped(n: nat): nat {
    n % 0x1_0000_0000
  }

  datatype Action = Increments(call: nat) | Reads(call: nat)

  /** The counter, the calls that have incremented it, and the ids read so far. */
  datatype State = State(counter: nat, started: set<nat>, ids: map<nat, nat>)

  predicate CanStep(s: State, a: Action) {
    match a
    case Increments(call) => call !in s.started
    case Reads(call) => call in s.started && call !in s.ids
  }

  function Step(s: State, a: Action): State
    requires CanStep(s, a)
  {
    match a
    case Increments(call) => s.(counter := Wrapped(s.counter + 1), started := s.started + {call})
    case Reads(call) => s.(ids := s.ids[call := s.counter])
  }

  /** The state a run leads to from the counter at 0, unless one of its actions is impossible. */
  function Outcome(actions: seq<Action>): Option<State>
    decreases |actions|
  {
    if actions == [] then Some(State(0, {}, map[]))
    else
      var before := Outcome(actions[..|actions| - 1]);
      var a := actions[|actions| - 1];
      if before.Some? && CanStep(before.value, a) then Some(Step(before.value, a)) else None
  }

  function Count(actions: seq<Action>): (n: nat)
    ensures n <= |actions|
  {
    if actions == [] then 0 else Count(actions[..|actions| - 1]) + if actions[|actions| - 1].Increments? then 1 else 0
  }

  lemma {:induction false} CountConcat(a: seq<Action>, b: seq<Action>)
    ensures Count(a + b) == Count(a) + Count(b)
    decreases |b|
  {
    if b == [] {
      assert a + b == a;
    } else {
      assert (a + b)[..|a + b| - 1] == a + b[..|b| - 1];
      CountConcat(a, b[..|b| - 1]);
    }
  }

  /** Nothing is counted exactly when nothing increments. */
  lemma {:induction false} CountIsZero(actions: seq<Action>)
    ensures Count(actions) == 0 <==> forall i :: 0 <= i < |actions| ==> !actions[i].Increments?
    decreases |actions|
  {
    if actions != [] {
      var before := actions[..|actions| - 1];
      CountIsZero(before);
      assert forall i :: 0 <= i < |before| ==> before[i] == actions[i];
      if forall i :: 0 <= i < |before| ==> !before[i].Increments? {
        assert forall i :: 0 <= i < |actions| ==> i == |actions| - 1 || actions[i] == before[i];
      } else {
        var i :| 0 <= i < |before| && before[i].Increments?;
        assert actions[i].Increments?;
      }
    }
  }

  lemma {:induction false} CounterCounts(actions: seq<Action>)
    requires Outcome(actions).Some?
    ensures Outcome(actions).value.counter == Wrapped(Count(actions))
    decreases |actions|
  {
    if actions != [] {
      CounterCounts(actions[..|actions| - 1]);
    }
  }

  /** A call has read the number of increments in front of its read, wrapped. */
  lemma {:induction false} ReadsTheCount(actions: seq<Action>, i: nat)
    requires Outcome(actions).Some? && i < |actions| && actions[i].Reads?
    ensures actions[i].call in Outcome(actions).value.ids
    ensures Outcome(actions).value.ids[actions[i].call] == Wrapped(Count(actions[..i]))
    decreases |actions|
  {
    var before := actions[..|actions| - 1];
    if i == |actions| - 1 {
      CounterCounts(before);
    } else {
      assert before[i] == actions[i] && before[..i] == actions[..i];
      ReadsTheCount(before, i);
    }
  }

  function IdAt(actions: seq<Action>, i: nat): nat
    requires Outcome(actions).Some? && i < |actions| && actions[i].Reads?
  {
    ReadsTheCount(actions, i);
    Outcome(actions).value.ids[actions[i].call]
  }

  /** An increment falls between two positions. */
  ghost predicate Separated(actions: seq<Action>, i: nat, j: nat)
    requires i < j < |actions|
  {
    exists k :: i < k < j && actions[k].Increments?
  }

  lemma CountBetween(actions: seq<Action>, i: nat, j: nat)
    requires i < j < |actions| && actions[i].Reads?
    ensures Count(actions[..j]) == Count(actions[..i]) + Count(actions[i..j])
    ensures Count(actions[i..j]) > 0 <==> Separated(actions, i, j)
  {
    assert actions[..j] == actions[..i] + actions[i..j];
    CountConcat(actions[..i], actions[i..j]);
    CountIsZero(actions[i..j]);
    assert forall k :: i <= k < j ==> actions[i..j][k - i] == actions[k];
    if k :| i < k < j && actions[k].Increments? {
      assert actions[i..j][k - i].Increments?;
    }
  }

  lemma WrappedAlike(a: nat, b: nat)
    ensures Wrapped(a) == Wrapped(a + b) <==> Wrapped(b) == 0
  {
  }

  /** Two calls read one id if and only if the increments between their reads wrap the counter or there are none. */
  lemma OneIdIffWrapped(actions: seq<Action>, i: nat, j: nat)
    requires Outcome(actions).Some? && i < j < |actions| && actions[i].Reads? && actions[j].Reads?
    ensures IdAt(actions, i) == IdAt(actions, j) <==> Wrapped(Count(actions[i..j])) == 0
  {
    ReadsTheCount(actions, i);
    ReadsTheCount(actions, j);
    CountBetween(actions, i, j);
    WrappedAlike(Count(actions[..i]), Count(actions[i..j]));
  }

  /** Before the counter wraps: two calls read one id if and only if no increment falls between their reads. */
  lemma OneIdIffNotSeparated(actions: seq<Action>, i: nat, j: nat)
    requires Outcome(actions).Some? && i < j < |actions| && actions[i].Reads? && actions[j].Reads?
    requires Count(actions) < 0x1_0000_0000
    ensures IdAt(actions, i) == IdAt(actions, j) <==> !Separated(actions, i, j)
  {
    OneIdIffWrapped(actions, i, j);
    CountBetween(actions, i, j);
    CountOfPrefix(actions, j);
  }

  lemma CountOfPrefix(actions: seq<Action>, j: nat)
    requires j <= |actions|
    ensures Count(actions[..j]) <= Count(actions)
  {
    assert actions == actions[..j] + actions[j..];
    CountConcat(actions[..j], actions[j..]);
  }

  ghost predicate DistinctIds(actions: seq<Action>)
    requires Outcome(actions).Some?
  {
    forall i, j :: 0 <= i < j < |actions| && actions[i].Reads? && actions[j].Reads? ==>
      IdAt(actions, i) != IdAt(actions, j)
  }

  /**
   What the reply table takes for granted: before the counter passes INT_MAX all ids lie between 1 and INT_MAX,
   and they are distinct if and only if an increment falls between any two reads.
   */
  lemma DistinctIffSeparated(actions: seq<Action>)
    requires Outcome(actions).Some? && Count(actions) <= INT_MAX
    ensures forall i :: 0 <= i < |actions| && actions[i].Reads? ==> 1 <= IdAt(actions, i) <= INT_MAX
    ensures DistinctIds(actions) <==>
              forall i, j :: 0 <= i < j < |actions| && actions[i].Reads? && actions[j].Reads? ==>
                Separated(actions, i, j)
  {
    hide Outcome, Separated;
    forall i | 0 <= i < |actions| && actions[i].Reads? ensures 1 <= IdAt(actions, i) <= INT_MAX {
      ReadsTheCount(actions, i);
      CountOfPrefix(actions, i);
      ReadIsBehindIncrement(actions, i);
    }
    SeparatedAll(actions);
  }

  lemma SeparatedAll(actions: seq<Action>)
    requires Outcome(actions).Some? && Count(actions) < 0x1_0000_0000
    ensures forall i, j :: 0 <= i < j < |actions| && actions[i].Reads? && actions[j].Reads? ==>
              (IdAt(actions, i) == IdAt(actions, j) <==> !Separated(actions, i, j))
  {
    hide Outcome, IdAt, Separated;
    forall i, j | 0 <= i < j < |actions| && actions[i].Reads? && actions[j].Reads?
      ensures IdAt(actions, i) == IdAt(actions, j) <==> !Separated(actions, i, j)
    {
      OneIdIffNotSeparated(actions, i, j);
    }
  }

  lemma {:induction false} ReadIsBehindIncrement(actions: seq<Action>, i: nat)
    requires Outcome(actions).Some? && i < |actions| && actions[i].Reads?
    ensures Count(actions[..i]) > 0
    decreases |actions|
  {
    var before := actions[..|actions| - 1];
    if i == |actions| - 1 {
      StartedIsCounted(before);
    } else {
      assert before[i] == actions[i] && before[..i] == actions[..i];
      ReadIsBehindIncrement(before, i);
    }
  }

  lemma {:induction false} StartedIsCounted(actions: seq<Action>)
    requires Outcome(actions).Some?
    ensures Outcome(actions).value.started != {} ==> Count(actions) > 0
    decreases |actions|
  {
    if actions != [] {
      StartedIsCounted(actions[..|actions| - 1]);
    }
  }

  /** Reading inside the lock section would be enough: a read right behind its own increment gets an id of its own. */
  lemma ReadingAtOnceIsDistinct(actions: seq<Action>)
    requires Outcome(actions).Some? && Count(actions) <= INT_MAX
    requires forall i :: 0 <= i < |actions| && actions[i].Reads? ==> i > 0 && actions[i - 1].Increments?
    ensures DistinctIds(actions)
  {
    DistinctIffSeparated(actions);
    forall i, j | 0 <= i < j < |actions| && actions[i].Reads? && actions[j].Reads? ensures Separated(actions, i, j) {
      assert actions[j - 1].Increments?;
    }
  }

  /** Behind the lock it is not: both calls increment, then both read the same id. */
  lemma TwoCallsOneId()
    ensures var actions := [Increments(0), Increments(1), Reads(0), Reads(1)];
            Outcome(actions).Some? && IdAt(actions, 2) == IdAt(actions, 3) && !DistinctIds(actions)
  {
    var actions := [Increments(0), Increments(1), Reads(0), Reads(1)];
    assert actions[..3] == [Increments(0), Increments(1), Reads(0)];
    assert actions[..3][..2] == [Increments(0), Increments(1)];
    assert [Increments(0), Increments(1)][..1] == [Increments(0)];
    assert [Increments(0)][..0] == [];
    assert Outcome([Increments(0)]).Some?;
    assert Outcome([Increments(0), Increments(1)]).Some?;
    assert Outcome([Increments(0), Increments(1), Reads(0)]).Some?;
    OneIdIffWrapped(actions, 2, 3);
    assert actions[2..3] == [Reads(0)];
    assert actions[2..3][..0] == [];
  }
}
