/**
 The memory behind the slots of the send ring: a block per slot, grown or cut to the size of a message that
 is too long for the common size, and the bytes that a push writes into it.
 */
module SlotMemory {
  import opened Bytes
  import opened SendRing

  /** The common size of a block, and how many bytes of it lie in front of the payload (LWS_PRE). */
  datatype Layout = Layout(single: nat, pad: nat)

  ghost predicate ValidLayout(m: Layout) {
    m.pad <= m.single
  }

  /** realloc on the way of a push, for a message with its NUL of this length. */
  function BlockFor(m: Layout, block: nat, length: nat): nat
    requires m.pad <= m.single
  {
    if length > m.single - m.pad then length + m.pad else block
  }

  function PushedBlocks(m: Layout, r: Ring, blocks: seq<nat>, payload: seq<byte>): (b: seq<nat>)
    requires ValidLayout(m) && ValidRing(r) && |blocks| == |r.slots|
    ensures |b| == |blocks|
  {
    var w := Wrapped(r.write, |r.slots|);
    blocks[w := BlockFor(m, blocks[w], |payload| + 1)]
  }

  /**
   The stores of a push: zeros over as many bytes as the old message had, from the start of the block, and the
   new message with its NUL behind the padding.
   */
  ghost predicate InBounds(m: Layout, r: Ring, blocks: seq<nat>, payload: seq<byte>)
    requires ValidLayout(m) && ValidRing(r) && |blocks| == |r.slots|
  {
    var w := Wrapped(r.write, |r.slots|);
    var block := PushedBlocks(m, r, blocks, payload)[w];
    |r.slots[w].message| <= block && m.pad + |payload| + 1 <= block
  }

  /** Every block has the common size at least, and holds the message of its slot behind the padding. */
  ghost predicate Fits(m: Layout, r: Ring, blocks: seq<nat>) {
    && |blocks| == |r.slots|
    && forall i :: 0 <= i < |blocks| ==>
        m.single <= blocks[i] && (!r.slots[i].Empty() ==> m.pad + |r.slots[i].message| <= blocks[i])
  }

  /** client_buf_mgmt_init. */
  lemma InitFits(m: Layout, n: nat)
    ensures Fits(m, Init(n).ring, seq(n, _ => m.single))
  {
  }

  function BlocksAfter(m: Layout, s: System, blocks: seq<nat>, a: Action): seq<nat>
    requires m.pad <= m.single && |s.ring.slots| > 0 && s.ring.write <= |s.ring.slots| && s.ring.read <= |s.ring.slots|
    requires |blocks| == |s.ring.slots|
  {
    if a.DoPush? then PushedBlocks(m, s.ring, blocks, a.payload) else blocks
  }

  lemma StepFits(m: Layout, s: System, blocks: seq<nat>, a: Action)
    requires ValidLayout(m) && Possible(s, a) && Fits(m, s.ring, blocks)
    ensures Fits(m, Apply(s, a).ring, BlocksAfter(m, s, blocks, a))
  {
  }

  /**
   A push writes outside its block exactly when it overwrites an occupied slot with a message that is too long
   for the common size, but whose new block is still shorter than the old message.
   */
  lemma PushInBoundsIff(m: Layout, r: Ring, blocks: seq<nat>, payload: seq<byte>)
    requires ValidLayout(m) && ValidRing(r) && Fits(m, r, blocks)
    ensures var slot := r.slots[Wrapped(r.write, |r.slots|)];
            InBounds(m, r, blocks, payload) <==>
            !(!slot.Empty() && m.pad + |payload| + 1 > m.single && |slot.message| > m.pad + |payload| + 1)
  {
  }

  /** Does every push of the run stay in its block? */
  ghost predicate StaysInBounds(m: Layout, s: System, blocks: seq<nat>, actions: seq<Action>)
    requires ValidLayout(m)
    decreases |actions|
  {
    actions == [] ||
    (&& Possible(s, actions[0]) && |blocks| == |s.ring.slots|
     && (actions[0].DoPush? ==> InBounds(m, s.ring, blocks, actions[0].payload))
     && StaysInBounds(m, Apply(s, actions[0]), BlocksAfter(m, s, blocks, actions[0]), actions[1..]))
  }

  lemma {:induction false} RunStaysInBounds(m: Layout, s: System, blocks: seq<nat>, actions: seq<Action>, t: System)
    requires ValidLayout(m) && InOrder(s) && Fits(m, s.ring, blocks) && WithinBacklog(s, actions, t)
    ensures StaysInBounds(m, s, blocks, actions)
    decreases |actions|
  {
    if actions != [] {
      var a := actions[0];
      if a.DoPush? {
        PushAppends(s.ring, s.pushed[|s.delivered|..], a.payload, a.kind);
        PushInBoundsIff(m, s.ring, blocks, a.payload);
      }
      StepKeepsOrder(s, a);
      StepFits(m, s, blocks, a);
      RunStaysInBounds(m, Apply(s, a), BlocksAfter(m, s, blocks, a), actions[1..], t);
    }
  }

  /** So a run of a new ring that loses no message writes inside its blocks throughout. */
  lemma LosslessRunsStayInBounds(m: Layout, n: nat, actions: seq<Action>, t: System)
    requires ValidLayout(m) && n > 0 && Run(Init(n), actions, t) && ClearFree(actions) && t.overwritten == multiset{}
    ensures StaysInBounds(m, Init(n), seq(n, _ => m.single), actions)
  {
    InitIsValid(n);
    InitFits(m, n);
    FirstInFirstOut(n, actions, t);
    RunStaysInBounds(m, Init(n), seq(n, _ => m.single), actions, t);
  }

  /**
   Two pushes into a ring of one slot, the first long and the second shorter but still too long for the common
   size.
   */
  lemma OverflowCanLeaveTheBlock(m: Layout, long: seq<byte>, short: seq<byte>, kind: int)
    requires ValidLayout(m)
    requires |short| + 1 > m.single - m.pad && |long| > |short| + m.pad
    ensures !StaysInBounds(m, Init(1), [m.single], [DoPush(long, kind), DoPush(short, kind)])
  {
    var actions := [DoPush(long, kind), DoPush(short, kind)];
    InitIsValid(1);
    var s := Apply(Init(1), actions[0]);
    var blocks := BlocksAfter(m, Init(1), [m.single], actions[0]);
    assert actions[1..] == [DoPush(short, kind)];
    assert s.ring.slots[0] == Stored(long, kind);
    assert !InBounds(m, s.ring, blocks, short);
    assert !StaysInBounds(m, s, blocks, actions[1..]);
  }
}
