/** The reply slots of `ThreadBase`: places in the outgoing queue that are reserved first and
    filled later, by any thread, through the pointer that the reservation returned.  `queue` and
    `maps` of the original are two instances of the same structure.  Every method runs under one lock. */
module Slots {
  import opened Bytes
  import opened Options

  /** The meaning of a slot queue: what has left it, then the places still in it.  A handle is the
      absolute position of its place, so it keeps its value while places in front of it leave. */
  datatype Ledger = Ledger(taken: seq<seq<byte>>, cells: seq<Option<seq<byte>>>) {

    function Next(): nat {
      |taken| + |cells|
    }

    predicate Live(ticket: nat) {
      |taken| <= ticket < Next()
    }

    /** Reserved, still in the queue, and not yet activated. */
    predicate Awaiting(ticket: nat) {
      Live(ticket) && cells[ticket - |taken|].None?
    }

    function Reserve(): Ledger {
      this.(cells := cells + [None])
    }

    function Append(v: seq<byte>): Ledger {
      this.(cells := cells + [Some(v)])
    }

    function Fill(ticket: nat, v: seq<byte>): Ledger
      requires Live(ticket)
    {
      this.(cells := cells[ticket - |taken| := Some(v)])
    }

    predicate HeadReady() {
      cells != [] && cells[0].Some?
    }

    function Take(): Ledger
      requires HeadReady()
    {
      Ledger(taken + [cells[0].value], cells[1..])
    }

    /** Every place ever reserved, in order, with what it holds or held. */
    function History(): (h: seq<Option<seq<byte>>>)
      ensures |h| == Next()
    {
      seq(|taken|, i requires 0 <= i < |taken| => Some(taken[i])) + cells
    }
  }

  const EMPTY := Ledger([], [])

  lemma TakeKeepsHistory(l: Ledger)
    requires l.HeadReady()
    ensures l.Take().History() == l.History()
  {
    var h, h' := l.History(), l.Take().History();
    assert forall k | 0 <= k < |h| :: h'[k] == h[k];
  }

  datatype Op = Reserve | Append(v: seq<byte>) | Activate(ticket: nat, v: seq<byte>) | Try

  /** Each slot is activated once, through a handle that was reserved. */
  predicate Legal(l: Ledger, op: Op) {
    op.Activate? ==> l.Awaiting(op.ticket)
  }

  function Apply(l: Ledger, op: Op): Ledger
    requires Legal(l, op)
  {
    match op
    case Reserve => l.Reserve()
    case Append(v) => l.Append(v)
    case Activate(ticket, v) => l.Fill(ticket, v)
    case Try => if l.HeadReady() then l.Take() else l
  }

  predicate LegalRun(l: Ledger, ops: seq<Op>)
    decreases |ops|
  {
    ops == [] || (Legal(l, ops[0]) && LegalRun(Apply(l, ops[0]), ops[1..]))
  }

  function Run(l: Ledger, ops: seq<Op>): Ledger
    requires LegalRun(l, ops)
    decreases |ops|
  {
    if ops == [] then l else Run(Apply(l, ops[0]), ops[1..])
  }

  /** Places keep their order and their contents: nothing is skipped, repeated or replaced. */
  ghost predicate Extends(l: Ledger, l': Ledger) {
    && l.taken <= l'.taken
    && l.Next() <= l'.Next()
    && forall k | 0 <= k < l.Next() && l.History()[k].Some? :: l'.History()[k] == l.History()[k]
  }

  lemma ApplyExtends(l: Ledger, op: Op)
    requires Legal(l, op)
    ensures Extends(l, Apply(l, op))
  {
    var l' := Apply(l, op);
    forall k | 0 <= k < l.Next() && l.History()[k].Some?
      ensures l'.History()[k] == l.History()[k]
    {
      if op.Try? && l.HeadReady() {
        assert l'.taken == l.taken + [l.cells[0].value];
      }
    }
  }

  /** Over any run of reservations, activations and writer attempts, what left the queue stays left,
      in reservation order, and what a place was given is what it keeps and what finally leaves. */
  lemma {:induction false} RunExtends(l: Ledger, ops: seq<Op>)
    requires LegalRun(l, ops)
    ensures Extends(l, Run(l, ops))
    decreases |ops|
  {
    if ops != [] {
      ApplyExtends(l, ops[0]);
      RunExtends(Apply(l, ops[0]), ops[1..]);
    }
  }

  /** The activation of ticket `k` decides the `k`-th thing to leave the queue. */
  lemma ActivationIsWhatLeaves(l: Ledger, ticket: nat, v: seq<byte>, ops: seq<Op>)
    requires l.Awaiting(ticket) && LegalRun(l.Fill(ticket, v), ops)
    ensures var l' := Run(l.Fill(ticket, v), ops);
            if ticket < |l'.taken| then l'.taken[ticket] == v
            else l'.Live(ticket) && l'.cells[ticket - |l'.taken|] == Some(v)
  {
    var filled := l.Fill(ticket, v);
    assert filled.History()[ticket] == Some(v);
    RunExtends(filled, ops);
    var l' := Run(filled, ops);
    assert l'.History()[ticket] == Some(v);
  }

  /** A handle denotes a live, empty slot until it is activated: the writer cannot pass it. */
  lemma {:induction false} HandleOutlivesRun(l: Ledger, ticket: nat, ops: seq<Op>)
    requires l.Awaiting(ticket) && LegalRun(l, ops)
    requires forall op | op in ops :: op.Activate? ==> op.ticket != ticket
    ensures Run(l, ops).Awaiting(ticket)
    decreases |ops|
  {
    if ops != [] {
      assert ops[0] in ops;
      var l1 := Apply(l, ops[0]);
      assert l1.Awaiting(ticket);
      HandleOutlivesRun(l1, ticket, ops[1..]);
    }
  }

  class Slot {
    var ready: bool
    var message: seq<byte>
    ghost const ticket: nat

    constructor (ready: bool, message: seq<byte>, ghost ticket: nat)
      ensures this.ready == ready && this.message == message && this.ticket == ticket
    {
      this.ready, this.message, this.ticket := ready, message, ticket;
    }
  }

  class SlotQueue {
    var queue: seq<Slot>
    ghost var taken: seq<seq<byte>>

    ghost predicate Valid()
      reads this, queue
    {
      forall i | 0 <= i < |queue| :: queue[i].ticket == |taken| + i
    }

    ghost function Cell(slot: Slot): Option<seq<byte>>
      reads slot
    {
      if slot.ready then Some(slot.message) else None
    }

    ghost function View(): (l: Ledger)
      reads this, queue
      ensures |l.cells| == |queue|
    {
      Ledger(taken, seq(|queue|, i requires 0 <= i < |queue| reads this, queue => Cell(queue[i])))
    }

    /** A pointer to an unready slot of the queue is a handle that awaits its activation. */
    lemma UnreadyAwaits(slot: Slot)
      requires Valid() && slot in queue && !slot.ready
      ensures View().Awaiting(slot.ticket)
    {
      var k :| 0 <= k < |queue| && queue[k] == slot;
      assert View().cells[k] == Cell(queue[k]);
    }

    predicate HeadReady()
      reads this, queue
    {
      queue != [] && queue[0].ready
    }

    constructor ()
      ensures Valid() && View() == EMPTY && queue == []
    {
      queue, taken := [], [];
    }

    /** Appends an unready slot and returns the pointer to it. */
    method QueueWrite() returns (slot: Slot)
      requires Valid()
      modifies this
      ensures Valid() && View() == old(View()).Reserve()
      ensures fresh(slot) && queue == old(queue) + [slot] && slot.ticket == old(View()).Next()
      ensures View().Awaiting(slot.ticket)
    {
      slot := new Slot(false, [], |taken| + |queue|);
      queue := queue + [slot];
    }

    /** Fills the slot behind a pointer that is still in the queue. */
    method ActivateWrite(slot: Slot, v: seq<byte>)
      requires Valid() && slot in queue
      modifies slot
      ensures Valid() && View() == old(View()).Fill(slot.ticket, v)
    {
      slot.message := v;
      slot.ready := true;
      assert queue[slot.ticket - |taken|] == slot;
    }

    method AsyncWrite(v: seq<byte>)
      requires Valid()
      modifies this
      ensures Valid() && View() == old(View()).Append(v)
      ensures exists slot: Slot :: fresh(slot) && queue == old(queue) + [slot]
    {
      var slot := new Slot(true, v, |taken| + |queue|);
      queue := queue + [slot];
    }

    /** The writer's view: only a ready head may leave. */
    method TryWrite() returns (ok: bool, v: seq<byte>)
      requires Valid()
      modifies this
      ensures Valid() && ok == old(HeadReady()) && ok == old(View()).HeadReady()
      ensures ok ==> View() == old(View()).Take() && v == old(View()).cells[0].value && taken == old(taken) + [v]
      ensures !ok ==> unchanged(this)
      ensures ok ==> old(queue) != [] && queue == old(queue)[1..]
    {
      if |queue| == 0 || !queue[0].ready {
        return false, [];
      }
      v := queue[0].message;
      queue, taken := queue[1..], taken + [v];
      ok := true;
    }
  }
}
