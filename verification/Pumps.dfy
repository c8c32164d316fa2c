/** The three pump threads and the event threads of a `TcpServer` as the loops they are.  Each method is
    one locked pass, proved to be the corresponding step of `Lifecycle`. */
module Pumps {
  import opened Lifecycle

  class Server {
    var connections: seq<nat>
    var store: map<nat, Conn>
    var historic: nat
    var readers: seq<nat>
    var writers: seq<nat>
    var events: seq<Event>
    var running: seq<Event>
    ghost var joiningWriter: set<nat>
    ghost var joiningReader: set<nat>
    ghost var served: seq<Event>

    ghost function View(): Hub
      reads this
    {
      Hub(connections, store, historic, joiningWriter, joiningReader, readers, writers, events, running, served)
    }

    ghost predicate Valid()
      reads this
    {
      Inv(View())
    }

    constructor ()
      ensures View() == EMPTY && Valid()
    {
      connections, store, historic := [], map[], 0;
      readers, writers, events, running := [], [], [], [];
      joiningWriter, joiningReader, served := {}, {}, [];
    }

    /** `TcpConnections::Create`, called by the accepting thread. */
    method Create(multiplex: bool) returns (u: nat)
      requires Valid()
      modifies this
      ensures View() == Next(old(View()), Step.Create(multiplex)) && Valid()
      ensures u == old(historic) && u !in old(store)
    {
      hide Inv, Survivors, Arrivals, AfterReads, AfterWrites, CountIn, ReaderFaulted, WriterFaulted, DeadOnes;
      ListsAreSound(View());
      NextKeeps(View(), Step.Create(multiplex));
      u := historic;
      connections := connections + [u];
      store := store[u := Conn(multiplex, false, false, false, 0, 0, 0)];
      historic := historic + 1;
      joiningWriter, joiningReader := joiningWriter + {u}, joiningReader + {u};
    }

    method ManageWriter(u: nat)
      requires Valid() && u in joiningWriter
      modifies this
      ensures View() == Next(old(View()), JoinWriter(u)) && Valid()
    {
      hide Inv, Survivors, Arrivals, AfterReads, AfterWrites, CountIn, ReaderFaulted, WriterFaulted, DeadOnes;
      ListsAreSound(View());
      NextKeeps(View(), JoinWriter(u));
      writers := writers + [u];
      joiningWriter := joiningWriter - {u};
    }

    method ManageReader(u: nat)
      requires Valid() && u in joiningReader
      modifies this
      ensures View() == Next(old(View()), JoinReader(u)) && Valid()
    {
      hide Inv, Survivors, Arrivals, AfterReads, AfterWrites, CountIn, ReaderFaulted, WriterFaulted, DeadOnes;
      ListsAreSound(View());
      NextKeeps(View(), JoinReader(u));
      readers := readers + [u];
      joiningReader := joiningReader - {u};
    }

    /** `RawMessage` for `k` requests of one connection, as `DoRead` delivers them. */
    method RawMessages(u: nat, k: nat)
      requires u in store && (!store[u].multiplex ==> k <= 1)
      modifies `store, `events
      ensures var c := old(store)[u];
              && store == old(store)[u := c.(pending := c.pending + k, arrived := c.arrived + k, readLock := c.readLock || (!c.multiplex && k > 0))]
              && events == old(events) + seq(k, (i: nat) => Event(u, c.arrived + i))
    {
      var c := store[u];
      var j := 0;
      while j < k
        invariant 0 <= j <= k
        invariant store == old(store)[u := c.(pending := c.pending + j, arrived := c.arrived + j, readLock := c.readLock || (!c.multiplex && j > 0))]
        invariant events == old(events) + seq(j, (i: nat) => Event(u, c.arrived + i))
      {
        var now := store[u];
        events := events + [Event(u, now.arrived)];
        store := store[u := now.(readLock := now.readLock || !now.multiplex, pending := now.pending + 1, arrived := now.arrived + 1)];
        j := j + 1;
      }
    }

    /** One visit of the reader to one connection; the result says whether it counted a fault. */
    method Visit(u: nat, o: Outcome) returns (fault: bool)
      requires u in store && !store[u].readerFault && Plausible(store[u], o)
      modifies `store, `events
      ensures store == old(store)[u := ReadVisit(old(store)[u], o)]
      ensures events == old(events) + NewEvents(u, old(store)[u], o)
      ensures fault == store[u].readerFault
    {
      var i := store[u];
      if i.writerFault {
        store := store[u := i.(readerFault := true)];
        return true;
      }
      if !i.multiplex && i.readLock {
        return false;
      }
      RawMessages(u, o.messages);
      if !o.ok {
        store := store[u := store[u].(readerFault := true)];
      }
      fault := !o.ok;
    }

    /** The first loop of the reader's pass: it visits every listed connection and counts the faults. */
    method VisitReaders(outcomes: nat -> Outcome) returns (faults: nat)
      requires Distinct(readers) && forall u | u in readers :: u in store && !store[u].readerFault && Plausible(store[u], outcomes(u))
      modifies `store, `events
      ensures store == AfterReads(readers, old(store), outcomes)
      ensures events == old(events) + Arrivals(readers, old(store), outcomes)
      ensures faults == CountIn(readers, ReaderFaulted(store))
    {
      hide ReadVisit, NewEvents, Arrivals, AfterReads, CountIn, ReaderFaulted;
      ghost var was := store;
      ghost var faulty := ReaderFaulted(AfterReads(readers, was, outcomes));
      faults := 0;
      NoneRead(was, faulty, outcomes);
      for i := 0 to |readers|
        invariant store == AfterReads(readers[..i], was, outcomes)
        invariant events == old(events) + Arrivals(readers[..i], was, outcomes)
        invariant faults == CountIn(readers[..i], faulty)
      {
        var u := readers[i];
        assert readers[..i + 1] == readers[..i] + [u];
        OneRead(readers, i, was, outcomes);
        CountNext(readers[..i], u, faulty);
        ArrivalsNext(readers[..i], u, was, outcomes);
        assert events + NewEvents(u, was[u], outcomes(u)) == old(events) + Arrivals(readers[..i + 1], was, outcomes);
        var fault := Visit(u, outcomes(u));
        if fault {
          faults := faults + 1;
        }
      }
      assert readers[..|readers|] == readers;
    }

    method ReaderPass(outcomes: nat -> Outcome)
      requires Valid() && forall u | u in readers && u in store :: Plausible(store[u], outcomes(u))
      modifies `store, `events, `readers
      ensures View() == Next(old(View()), Step.ReaderPass(outcomes)) && Valid()
    {
      hide Inv, Survivors, Arrivals, AfterReads, AfterWrites, CountIn, ReaderFaulted, WriterFaulted, DeadOnes;
      ListsAreSound(View());
      NextKeeps(View(), Step.ReaderPass(outcomes));
      var faults := VisitReaders(outcomes);
      readers := EraseFaulted(readers, ReaderFaulted(store), faults);
    }

    method VisitWriters(sends: nat -> bool) returns (faults: nat)
      requires Distinct(writers) && forall u | u in writers :: u in store && !store[u].writerFault
      modifies `store
      ensures store == AfterWrites(writers, old(store), sends)
      ensures faults == CountIn(writers, WriterFaulted(store))
    {
      hide AfterWrites, CountIn, WriterFaulted;
      ghost var was := store;
      ghost var faulty := WriterFaulted(AfterWrites(writers, was, sends));
      faults := 0;
      NoneWritten(was, faulty, sends);
      for i := 0 to |writers|
        invariant store == AfterWrites(writers[..i], was, sends)
        invariant faults == CountIn(writers[..i], faulty)
      {
        var u := writers[i];
        assert writers[..i + 1] == writers[..i] + [u];
        OneWritten(writers, i, was, sends);
        CountNext(writers[..i], u, faulty);
        var c := store[u];
        if c.readerFault || !sends(u) {
          store := store[u := c.(writerFault := true)];
          faults := faults + 1;
        } else {
          assert store[u := store[u]] == store;
        }
      }
      assert writers[..|writers|] == writers;
    }

    method WriterPass(sends: nat -> bool)
      requires Valid()
      modifies `store, `writers
      ensures View() == Next(old(View()), Step.WriterPass(sends)) && Valid()
    {
      hide Inv, Survivors, Arrivals, AfterReads, AfterWrites, CountIn, ReaderFaulted, WriterFaulted, DeadOnes;
      ListsAreSound(View());
      NextKeeps(View(), Step.WriterPass(sends));
      var faults := VisitWriters(sends);
      writers := EraseFaulted(writers, WriterFaulted(store), faults);
    }

    /** `ThreadQueue::Next`. */
    method TakeEvent() returns (ok: bool)
      requires Valid()
      modifies this
      ensures Valid() && ok == (old(events) != [])
      ensures View() == if ok then Next(old(View()), Take) else old(View())
    {
      if events == [] {
        return false;
      }
      hide Inv, Survivors, Arrivals, AfterReads, AfterWrites, CountIn, ReaderFaulted, WriterFaulted, DeadOnes;
      ListsAreSound(View());
      NextKeeps(View(), Take);
      running, events := running + [events[0]], events[1..];
      ok := true;
    }

    /** The tail of `RawEvent`, after the handler has returned. */
    method FinishEvent(i: nat)
      requires Valid() && i < |running|
      modifies this
      ensures Enabled(old(View()), Finish(i))
      ensures View() == Next(old(View()), Finish(i)) && Valid()
    {
      hide Inv, Next, Enabled;
      var e := running[i];
      RunningIsStored(View(), i);
      NextKeeps(View(), Finish(i));
      FinishIs(View(), i);
      var c := store[e.uid];
      c := c.(pending := c.pending - 1, finished := c.finished + 1);
      if !c.multiplex {
        c := c.(readLock := false);
      }
      store := store[e.uid := c];
      running := running[..i] + running[i + 1..];
      served := served + [e];
    }

    /** The loop of the sweep: it walks the store and erases every dead connection. */
    method EraseDead()
      requires Distinct(connections) && forall u :: u in connections <==> u in store
      modifies `connections, `store
      ensures connections == Survivors(old(connections), DeadOnes(old(store)))
      ensures store == old(store) - DeadOnes(old(store))
    {
      ghost var list, was := connections, store;
      ghost var dead := DeadOnes(was);
      hide Survivors, CountIn, DeadOnes;
      ghost var done := 0;
      var i := 0;
      WalkStarts(list, dead);
      NoneSwept(was, list, dead);
      while i < |connections|
        invariant 0 <= i <= |connections| && 0 <= done <= |list|
        invariant connections[..i] == Survivors(list[..done], dead) && connections[i..] == list[done..]
        invariant store == Unswept(was, list[..done], dead)
        decreases |connections| - i
      {
        var u := connections[i];
        assert u == connections[i..][0] == list[done..][0] == list[done];
        WalkOne(list, dead, done);
        OneSwept(was, list, done, dead);
        IsDead(was, u);
        ghost var kept, after := connections[..i], list[done + 1..];
        assert connections[i + 1..] == connections[i..][1..] == list[done..][1..] == after;
        done := done + 1;
        if store[u].readerFault && store[u].writerFault && store[u].pending == 0 {
          store := store - {u};
          connections := connections[..i] + connections[i + 1..];
          assert connections[..i] == kept && connections[i..] == after;
        } else {
          assert connections[..i + 1] == kept + [u];
          i := i + 1;
        }
      }
      assert list[done..] == [] && list[..done] == list && connections[..i] == connections;
      AllSwept(was, list, dead);
    }

    /** One pass of the sweep. */
    method SweepPass()
      requires Valid()
      modifies `connections, `store
      ensures View() == Next(old(View()), Sweep) && Valid()
    {
      hide Inv, Survivors, Arrivals, AfterReads, AfterWrites, CountIn, ReaderFaulted, WriterFaulted, DeadOnes;
      ListsAreSound(View());
      NextKeeps(View(), Sweep);
      EraseDead();
    }
  }

  /** The store when the sweep has walked past `walked`. */
  ghost function Unswept(was: map<nat, Conn>, walked: seq<nat>, dead: set<nat>): map<nat, Conn> {
    map u | u in was && !(u in walked && u in dead) :: was[u]
  }

  lemma NoneSwept(was: map<nat, Conn>, list: seq<nat>, dead: set<nat>)
    ensures Unswept(was, list[..0], dead) == was
  {
  }

  lemma OneSwept(was: map<nat, Conn>, list: seq<nat>, done: nat, dead: set<nat>)
    requires Distinct(list) && done < |list| && list[done] in was
    ensures var u, before := list[done], Unswept(was, list[..done], dead);
            && u in before && before[u] == was[u]
            && Unswept(was, list[..done + 1], dead) == if u in dead then before - {u} else before
  {
    assert list[..done + 1] == list[..done] + [list[done]];
  }

  lemma AllSwept(was: map<nat, Conn>, list: seq<nat>, dead: set<nat>)
    requires forall u :: u in list <==> u in was
    ensures Unswept(was, list, dead) == was - dead
  {
  }

  lemma IsDead(store: map<nat, Conn>, u: nat)
    requires u in store
    ensures u in DeadOnes(store) <==> Dead(store[u])
  {
  }

  /** What the pumps rely on when they start a pass. */
  lemma ListsAreSound(h: Hub)
    requires Inv(h)
    ensures h.historic !in h.store
    ensures Distinct(h.connections) && forall u :: u in h.connections <==> u in h.store
    ensures Distinct(h.readers) && forall u | u in h.readers :: u in h.store && !h.store[u].readerFault
    ensures Distinct(h.writers) && forall u | u in h.writers :: u in h.store && !h.store[u].writerFault
  {
  }

  lemma NoneRead(store: map<nat, Conn>, faulty: set<nat>, outcomes: nat -> Outcome)
    ensures AfterReads([], store, outcomes) == store && Arrivals([], store, outcomes) == [] && CountIn([], faulty) == 0
  {
  }

  lemma NoneWritten(store: map<nat, Conn>, faulty: set<nat>, sends: nat -> bool)
    ensures AfterWrites([], store, sends) == store && CountIn([], faulty) == 0
  {
  }

  /** The visit at position `i` finds its connection untouched, and what it does to it is final. */
  lemma OneRead(list: seq<nat>, i: nat, store: map<nat, Conn>, outcomes: nat -> Outcome)
    requires Distinct(list) && i < |list| && list[i] in store
    ensures var u := list[i];
            && u in AfterReads(list[..i], store, outcomes) && AfterReads(list[..i], store, outcomes)[u] == store[u]
            && AfterReads(list[..i + 1], store, outcomes) == AfterReads(list[..i], store, outcomes)[u := ReadVisit(store[u], outcomes(u))]
            && (u in ReaderFaulted(AfterReads(list, store, outcomes)) <==> ReadVisit(store[u], outcomes(u)).readerFault)
  {
    hide ReadVisit;
    assert list[..i + 1] == list[..i] + [list[i]];
  }

  lemma OneWritten(list: seq<nat>, i: nat, store: map<nat, Conn>, sends: nat -> bool)
    requires Distinct(list) && i < |list| && list[i] in store
    ensures var u := list[i];
            && u in AfterWrites(list[..i], store, sends) && AfterWrites(list[..i], store, sends)[u] == store[u]
            && AfterWrites(list[..i + 1], store, sends) == AfterWrites(list[..i], store, sends)[u := WriteVisit(store[u], sends(u))]
            && (u in WriterFaulted(AfterWrites(list, store, sends)) <==> WriteVisit(store[u], sends(u)).writerFault)
  {
    hide WriteVisit;
    assert list[..i + 1] == list[..i] + [list[i]];
  }

  lemma CountNext(list: seq<nat>, u: nat, faulty: set<nat>)
    ensures CountIn(list + [u], faulty) == CountIn(list, faulty) + if u in faulty then 1 else 0
  {
    assert (list + [u])[..|list|] == list;
  }

  lemma ArrivalsNext(list: seq<nat>, u: nat, store: map<nat, Conn>, o: nat -> Outcome)
    requires u in store && forall v | v in list :: v in store
    ensures forall v | v in list + [u] :: v in store
    ensures Arrivals(list + [u], store, o) == Arrivals(list, store, o) + NewEvents(u, store[u], o(u))
  {
    assert (list + [u])[..|list|] == list;
  }

  /** What the finish step changes. */
  lemma FinishIs(h: Hub, i: nat)
    requires Enabled(h, Finish(i))
    ensures var e := h.running[i];
            && e.uid in h.store && h.store[e.uid].pending > 0
            && Next(h, Finish(i)) == h.(running := h.running[..i] + h.running[i + 1..],
                                        store := h.store[e.uid := Returned(h.store[e.uid])],
                                        served := h.served + [e])
  {
  }

  /** The connection of a running event is still in the store, and knows about the event. */
  lemma RunningIsStored(h: Hub, i: nat)
    requires Inv(h) && i < |h.running|
    ensures Enabled(h, Finish(i))
  {
    assert InFlight(h)[i] == h.running[i];
    assert InFlight(h)[i] in InFlight(h);
    EventsOfPositive(InFlight(h), i);
    assert Consistent(h.store[h.running[i].uid], h.running[i].uid, InFlight(h), h.served);
  }
}
