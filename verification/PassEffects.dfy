/** Where faults come from: what a pass of a pump does to every connection, told from the state before the pass and
    from what the reads and sends reported. */
module PassEffects {
  import opened Lifecycle

  /** The reader may take something from the connection: its writer is well, and no request is being handled unless
      the connection is multiplexed. */
  predicate Readable(c: Conn) {
    !c.writerFault && (c.multiplex || !c.readLock)
  }

  /** The reader gives the connection up: its writer had, or the read failed. */
  predicate GivenUp(c: Conn, o: Outcome) {
    c.writerFault || (Readable(c) && !o.ok)
  }

  /** What a visit of the reader makes of a listed connection. */
  ghost predicate Visited(c: Conn, o: Outcome, c': Conn) {
    var taken := if Readable(c) then o.messages else 0;
    && (c'.readerFault <==> GivenUp(c, o))
    && c'.pending == c.pending + taken && c'.arrived == c.arrived + taken && c'.finished == c.finished
    && (c'.readLock <==> c.readLock || (!c.multiplex && taken > 0))
    && c'.writerFault == c.writerFault && c'.multiplex == c.multiplex
  }

  lemma VisitMeans(c: Conn, o: Outcome)
    requires !c.readerFault
    ensures Visited(c, o, ReadVisit(c, o))
    ensures Taken(c, o) == if Readable(c) then o.messages else 0
  {
  }

  /** The numbers of the requests taken from one connection. */
  function Numbers(first: nat, n: nat): seq<nat> {
    seq(n, i => first + i)
  }

  lemma {:induction false} FinishedAppend(a: seq<Event>, b: seq<Event>, u: nat)
    ensures Finished(a + b, u) == Finished(a, u) + Finished(b, u)
    decreases |b|
  {
    if b == [] {
      assert a + b == a;
    } else {
      assert (a + b)[..|a + b| - 1] == a + b[..|b| - 1];
      FinishedAppend(a, b[..|b| - 1], u);
    }
  }

  lemma {:induction false} NumbersOf(v: nat, first: nat, n: nat, u: nat)
    ensures Finished(seq(n, (i: nat) => Event(v, first + i)), u) == if u == v then Numbers(first, n) else []
    decreases n
  {
    if n > 0 {
      var es := seq(n, (i: nat) => Event(v, first + i));
      assert es[..n - 1] == seq(n - 1, (i: nat) => Event(v, first + i));
      assert Numbers(first, n) == Numbers(first, n - 1) + [first + n - 1];
      NumbersOf(v, first, n - 1, u);
    }
  }

  lemma {:induction false} QueuedNumbers(list: seq<nat>, store: map<nat, Conn>, o: nat -> Outcome, u: nat)
    requires Distinct(list) && forall v | v in list :: v in store
    ensures Finished(Arrivals(list, store, o), u)
            == if u in list then Numbers(store[u].arrived, Taken(store[u], o(u))) else []
  {
    ArrivalsStep(list, store, o);
    hide Finished, Taken, Numbers, NewEvents, Arrivals;
    NothingFinished(u);
    if list != [] {
      var v, init := list[|list| - 1], list[..|list| - 1];
      LastIsNew(list);
      hide Distinct;
      QueuedNumbers(init, store, o, u);
      FinishedAppend(Arrivals(init, store, o), NewEvents(v, store[v], o(v)), u);
      NewNumbers(v, store[v], o(v), u);
    }
  }

  lemma ArrivalsStep(list: seq<nat>, store: map<nat, Conn>, o: nat -> Outcome)
    requires forall v | v in list :: v in store
    ensures Arrivals(list, store, o) ==
            if list == [] then []
            else var v := list[|list| - 1]; Arrivals(list[..|list| - 1], store, o) + NewEvents(v, store[v], o(v))
  {
    hide NewEvents;
  }

  lemma LastIsNew(list: seq<nat>)
    requires Distinct(list) && list != []
    ensures var v, init := list[|list| - 1], list[..|list| - 1];
            Distinct(init) && v !in init && forall u :: u in list <==> u in init || u == v
  {
    assert list == list[..|list| - 1] + [list[|list| - 1]];
  }

  lemma NewNumbers(v: nat, c: Conn, o: Outcome, u: nat)
    ensures Finished(NewEvents(v, c, o), u) == if u == v then Numbers(c.arrived, Taken(c, o)) else []
  {
    hide Finished, Taken;
    NumbersOf(v, c.arrived, Taken(c, o), u);
  }

  lemma NothingFinished(u: nat)
    ensures Finished([], u) == []
  {
  }

  /** One pass of the reader.  A listed connection loses its place, with its fault set, exactly when its writer has given
      it up or it was readable and the read failed; every request the read reports is counted and queued behind those
      in the queue, numbered on from the last; a connection that is locked or not listed is left alone. */
  lemma ReaderPassMeans(h: Hub, outcomes: nat -> Outcome)
    requires Inv(h) && Enabled(h, ReaderPass(outcomes))
    ensures var h' := Next(h, ReaderPass(outcomes));
            && h'.store.Keys == h.store.Keys && h.events <= h'.events
            && h'.running == h.running && h'.writers == h.writers && h'.connections == h.connections
            && (forall u | u in h.store && u !in h.readers :: h'.store[u] == h.store[u])
            && (forall u | u in h.readers :: Visited(h.store[u], outcomes(u), h'.store[u]))
            && (forall u :: u in h'.readers <==> u in h.readers && !GivenUp(h.store[u], outcomes(u)))
            && (forall u | u in h.readers && Readable(h.store[u]) ::
                  Finished(h'.events[|h.events|..], u) == Numbers(h.store[u].arrived, outcomes(u).messages))
            && (forall e | e in h'.events[|h.events|..] :: e.uid in h.readers && Readable(h.store[e.uid]))
  {
    var h' := Next(h, ReaderPass(outcomes));
    var more := Arrivals(h.readers, h.store, outcomes);
    assert h'.events[|h.events|..] == more;
    hide Survivors, Arrivals, Finished, ReadVisit, Taken, GivenUp, Visited;
    forall u | u in h.readers
      ensures Visited(h.store[u], outcomes(u), h'.store[u])
    {
      VisitMeans(h.store[u], outcomes(u));
    }
    forall u
      ensures u in h'.readers <==> u in h.readers && !GivenUp(h.store[u], outcomes(u))
    {
      StaysListed(h, outcomes, u);
    }
    forall u | u in h.readers && Readable(h.store[u])
      ensures Finished(more, u) == Numbers(h.store[u].arrived, outcomes(u).messages)
    {
      QueuedNumbers(h.readers, h.store, outcomes, u);
      VisitMeans(h.store[u], outcomes(u));
    }
    forall e | e in more
      ensures e.uid in h.readers && Readable(h.store[e.uid])
    {
      ArrivalsOf(h.readers, h.store, outcomes, e.uid);
      VisitMeans(h.store[e.uid], outcomes(e.uid));
    }
  }

  lemma StaysListed(h: Hub, outcomes: nat -> Outcome, u: nat)
    requires Inv(h) && Enabled(h, ReaderPass(outcomes))
    ensures u in Next(h, ReaderPass(outcomes)).readers <==> u in h.readers && !GivenUp(h.store[u], outcomes(u))
  {
    hide Survivors, Arrivals;
    SurvivorsIn(h.readers, ReaderFaulted(AfterReads(h.readers, h.store, outcomes)), u);
    if u in h.readers {
      VisitMeans(h.store[u], outcomes(u));
    }
  }

  /** One pass of the writer: a listed connection loses its place, with its fault set, exactly when its reader has given
      it up or the send failed.  Nothing else changes. */
  lemma WriterPassMeans(h: Hub, sends: nat -> bool)
    requires Inv(h) && Enabled(h, WriterPass(sends))
    ensures var h' := Next(h, WriterPass(sends));
            && h' == h.(store := h'.store, writers := h'.writers) && h'.store.Keys == h.store.Keys
            && (forall u | u in h.store && u !in h.writers :: h'.store[u] == h.store[u])
            && (forall u | u in h.writers ::
                  var failed := h.store[u].readerFault || !sends(u);
                  h'.store[u] == h.store[u].(writerFault := failed) && (u in h'.writers <==> !failed))
            && (forall u | u in h'.writers :: u in h.writers)
  {
    hide Survivors;
    var h' := Next(h, WriterPass(sends));
    forall u
      ensures u in h'.writers <==> u in h.writers && !(h.store[u].readerFault || !sends(u))
    {
      SurvivorsIn(h.writers, WriterFaulted(AfterWrites(h.writers, h.store, sends)), u);
    }
  }

  /** A connection that was created and handed to both pumps is as it was asked for: of that kind, without faults, with
      nothing read, and on both lists. */
  lemma NewcomerMeans(h: Hub, multiplex: bool)
    requires Inv(h)
    ensures var u, h1 := h.historic, Next(h, Create(multiplex));
            && Enabled(h1, JoinWriter(u)) && Enabled(Next(h1, JoinWriter(u)), JoinReader(u))
            && var h' := Next(Next(h1, JoinWriter(u)), JoinReader(u));
            && u !in h.store && h'.store == h.store[u := Conn(multiplex, false, false, false, 0, 0, 0)]
            && u in h'.readers && u in h'.writers && u in h'.connections
            && (u !in h.joiningReader && u !in h.joiningWriter ==>
                  h'.joiningReader == h.joiningReader && h'.joiningWriter == h.joiningWriter)
  {
    CreateKeeps(h, multiplex);
  }

  /** So a peer that goes away is noticed: an idle connection whose read fails is marked by the reader's pass, then by
      the writer's, and erased by the next sweep, however the other connections fare. */
  lemma GoneIsSwept(h: Hub, outcomes: nat -> Outcome, sends: nat -> bool, u: nat)
    requires Inv(h) && Enabled(h, ReaderPass(outcomes)) && u in h.readers && u in h.writers
    requires Readable(h.store[u]) && h.store[u].pending == 0 && outcomes(u) == Outcome(false, 0)
    ensures var h1 := Next(h, ReaderPass(outcomes));
            && h1.store[u].readerFault && u !in h1.readers && Enabled(h1, WriterPass(sends))
            && u !in Next(Next(h1, WriterPass(sends)), Sweep).store
  {
    hide Next, Finished, Inv, Numbers, Survivors, Arrivals, AfterReads, AfterWrites;
    var h1 := Next(h, ReaderPass(outcomes));
    ReaderPassMeans(h, outcomes);
    NextKeeps(h, ReaderPass(outcomes));
    WritersAreStored(h1);
    WriterPassMeans(h1, sends);
    assert Visited(h.store[u], outcomes(u), h1.store[u]);
    SweepErases(Next(h1, WriterPass(sends)), u);
  }

  lemma WritersAreStored(h: Hub)
    requires Inv(h)
    ensures forall u | u in h.writers :: u in h.store
  {
  }

  lemma SweepErases(h: Hub, u: nat)
    ensures u in h.store && Dead(h.store[u]) ==> u !in Next(h, Sweep).store
  {
    hide Survivors;
  }
}
