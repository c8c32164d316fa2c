/** The two ends of the multiplexed protocol as the objects the source has: the server side that
    hands slot pointers to event threads, and the client side that pairs replies with callbacks.
    Each method is proved to make exactly the step of the state machine in `Multiplex`. */
module Endpoints {
  import opened Bytes
  import opened Options
  import opened Slots
  import M = Multiplex

  /** An event as it sits in the thread pool's queue: a pointer to a slot, and the request. */
  datatype QueuedEvent = QueuedEvent(slot: Slot, request: seq<byte>)

  ghost function Meaning(e: QueuedEvent): M.Event {
    M.Event(e.slot.ticket, e.request)
  }

  ghost function Meanings(es: seq<QueuedEvent>): (r: seq<M.Event>)
    ensures |r| == |es|
  {
    seq(|es|, i requires 0 <= i < |es| => Meaning(es[i]))
  }

  lemma MeaningsAppend(es: seq<QueuedEvent>, e: QueuedEvent)
    ensures Meanings(es + [e]) == Meanings(es) + [Meaning(e)]
  {
  }

  lemma MeaningsRemove(es: seq<QueuedEvent>, i: nat)
    requires i < |es|
    ensures Meanings(es[..i] + es[i + 1..]) == Meanings(es)[..i] + Meanings(es)[i + 1..]
  {
  }

  /** No two events hold the same pointer. */
  ghost predicate NoneTwice(es: seq<QueuedEvent>) {
    forall i, j | 0 <= i < j < |es| :: es[i].slot != es[j].slot
  }

  ghost predicate Holds(es: seq<QueuedEvent>, slot: Slot) {
    exists i :: 0 <= i < |es| && es[i].slot == slot
  }

  lemma NoneTwiceAppend(es: seq<QueuedEvent>, e: QueuedEvent)
    requires NoneTwice(es) && !Holds(es, e.slot)
    ensures NoneTwice(es + [e])
  {
  }

  lemma NoneTwiceRemove(es: seq<QueuedEvent>, i: nat)
    requires i < |es| && NoneTwice(es)
    ensures NoneTwice(es[..i] + es[i + 1..]) && !Holds(es[..i] + es[i + 1..], es[i].slot)
    ensures forall e | e in es[..i] + es[i + 1..] :: e in es && e.slot != es[i].slot
  {
    var rest := es[..i] + es[i + 1..];
    assert forall k | 0 <= k < |rest| :: rest[k] == es[if k < i then k else k + 1];
  }

  class MultiplexServer {
    const slots: SlotQueue
    /** The queue of `ThreadQueue`, and the events its threads have taken. */
    var events: seq<QueuedEvent>
    var running: seq<QueuedEvent>
    var messages: nat
    var pending: nat
    var closed: bool

    /** Every pointer a thread holds or will hold is to a live slot that nobody has filled, and no
        two of them are the same. */
    ghost predicate Valid()
      reads this, slots, slots.queue
    {
      && slots.Valid()
      && pending == |running + events|
      && (forall e | e in running + events :: e.slot in slots.queue && !e.slot.ready)
      && NoneTwice(running + events)
    }

    /** The part of the protocol state this object holds. */
    ghost predicate Shows(s: M.System)
      reads this, slots, slots.queue
    {
      && s.slots == slots.View() && s.events == Meanings(events) && s.running == Meanings(running)
      && s.failed == closed
    }

    constructor ()
      ensures Valid() && fresh(slots) && events == [] && running == [] && slots.View() == EMPTY && !closed
    {
      slots := new SlotQueue();
      events, running, messages, pending, closed := [], [], 0, 0, false;
    }

    /** `TcpServer::RawMessage` on a multiplexed connection. */
    method RawMessage(v: seq<byte>, ghost s: M.System)
      requires Valid() && Shows(s)
      modifies this, slots
      ensures Valid() && Shows(M.Dispatch(s, v))
    {
      if |v| == 0 {
        closed := true;
        return;
      }
      hide Meanings, NoneTwice;
      messages := messages + 1;
      var slot := slots.QueueWrite();
      assert forall e | e in running + events :: e.slot != slot;
      AddEvent(slot, v);
    }

    /** `TcpServer::Event` hands the slot and the request to the thread pool. */
    method AddEvent(slot: Slot, v: seq<byte>)
      requires slots.Valid() && pending == |running + events| && NoneTwice(running + events)
      requires forall e | e in running + events :: e.slot in slots.queue && !e.slot.ready
      requires slot in slots.queue && !slot.ready && forall e | e in running + events :: e.slot != slot
      modifies `events, `pending
      ensures Valid() && Meanings(events) == Meanings(old(events)) + [M.Event(slot.ticket, v)]
    {
      ghost var flight := running + events;
      var e := QueuedEvent(slot, v);
      MeaningsAppend(events, e);
      assert !Holds(flight, slot);
      NoneTwiceAppend(flight, e);
      hide Meanings, NoneTwice, Holds;
      pending := pending + 1;
      events := events + [e];
      assert running + events == flight + [e];
    }

    /** `ThreadQueue::Next`: a thread takes the oldest event, if there is one. */
    method Take() returns (ok: bool)
      requires Valid()
      modifies `events, `running
      ensures Valid() && ok == (old(events) != [])
      ensures ok ==> Meanings(events) == Meanings(old(events))[1..]
      ensures ok ==> Meanings(running) == Meanings(old(running)) + [Meanings(old(events))[0]]
      ensures !ok ==> unchanged(this)
    {
      if events == [] {
        return false;
      }
      running, events := running + [events[0]], events[1..];
      assert running + events == old(running + events);
      ok := true;
    }

    /** A handler answers through the pointer it was given, and `RawEvent` finishes.  That the pointer
        is still good is part of `Valid`, not asked of the handler. */
    method RawEvent(i: nat, reply: seq<byte>, ghost s: M.System)
      requires Valid() && i < |running| && Shows(s)
      modifies `running, `pending, slots.queue
      ensures Valid() && s.slots.Awaiting(s.running[i].ticket)
      ensures Shows(M.Activate(s.(running := s.running[..i] + s.running[i + 1..]), s.running[i], reply))
    {
      ghost var flight := running + events;
      var e := running[i];
      assert flight[i] == e;
      slots.UnreadyAwaits(e.slot);
      MeaningsRemove(running, i);
      assert s.running[i] == Meaning(e);
      NoneTwiceRemove(flight, i);
      hide Meanings, NoneTwice, Holds;
      slots.ActivateWrite(e.slot, reply);
      running := running[..i] + running[i + 1..];
      pending := pending - 1;
      assert running + events == flight[..i] + flight[i + 1..];
    }

    /** The writer's `TryWrite` cannot invalidate a pointer that is still to be used. */
    method TryWrite() returns (ok: bool, v: seq<byte>)
      requires Valid()
      modifies slots
      ensures Valid() && ok == old(slots.View()).HeadReady()
      ensures ok ==> slots.View() == old(slots.View()).Take() && v == old(slots.View()).cells[0].value
      ensures !ok ==> unchanged(slots)
    {
      ghost var was := slots.queue;
      ok, v := slots.TryWrite();
      if ok {
        forall e | e in running + events
          ensures e.slot in slots.queue
        {
          var k :| 0 <= k < |was| && was[k] == e.slot;
          assert k != 0;
          assert slots.queue[k - 1] == e.slot;
        }
      }
    }
  }

  class EventClient {
    const slots: SlotQueue
    /** Callbacks waiting for replies, named by their position in the order they were queued, and a
        record of the calls made. */
    var readEvents: seq<nat>
    var calls: seq<M.Call>
    /** A reply came when no callback was waiting: `front` of an empty queue was looked at. */
    var undefined: bool

    constructor ()
      ensures slots.Valid() && fresh(slots) && slots.View() == EMPTY && readEvents == [] && calls == [] && !undefined
    {
      slots := new SlotQueue();
      readEvents, calls, undefined := [], [], false;
    }

    ghost predicate Shows(s: M.System)
      reads this
    {
      s.callbacks == readEvents && s.calls == calls && s.failed == undefined
    }

    /** Request and callback enter their queues under one lock, so positions agree. */
    method AsyncWriteCallback(v: seq<byte>, f: nat)
      requires slots.Valid()
      modifies `readEvents, slots
      ensures slots.Valid() && slots.View() == old(slots.View()).Append(v)
      ensures readEvents == old(readEvents) + [f]
    {
      slots.AsyncWrite(v);
      readEvents := readEvents + [f];
    }

    /** The reader thread's lambda. */
    method OnMessage(v: seq<byte>, ghost s: M.System)
      requires Shows(s)
      modifies `readEvents, `calls, `undefined
      ensures Shows(M.CallBack(s, v))
    {
      if |v| == 0 {
        return;
      }
      if readEvents == [] {
        undefined := true;
        return;
      }
      var cb := readEvents[0];
      readEvents := readEvents[1..];
      calls := calls + [M.Call(cb, v)];
    }
  }
}
