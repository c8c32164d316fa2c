/** When a server connection may be forgotten.  The reader's, the writer's and the sweeper's thread
    share per-connection fault flags and a count of pending events.  One locked pass of a thread is one
    step, and so is the tail of `RawEvent` (the decrement of `pending` and the release of `read_lock`):
    the source protects the lists and the store with different locks, and that granularity is the
    assumption of this model.  Connections are named by uid; the pointers in the lists and in events
    are uids, so following a pointer to an erased connection would be a missing key. */
module Lifecycle {
  datatype Conn = Conn(
    multiplex: bool,
    readerFault: bool,
    writerFault: bool,
    readLock: bool,
    pending: nat,
    // history: requests handed to the event threads, and requests whose handler has returned
    arrived: nat,
    finished: nat)

  /** A request waiting for or held by an event thread: its connection, and its number there. */
  datatype Event = Event(uid: nat, number: nat)

  /** What `DoRead` did: how many requests it delivered, and whether the connection survived. */
  datatype Outcome = Outcome(ok: bool, messages: nat)

  datatype Hub = Hub(
    connections: seq<nat>,          // the store's list order
    store: map<nat, Conn>,
    historic: nat,
    joiningWriter: set<nat>,        // created, not yet handed to TcpWriter::Manage
    joiningReader: set<nat>,        // created, not yet handed to TcpReader::Manage
    readers: seq<nat>,
    writers: seq<nat>,
    events: seq<Event>,
    running: seq<Event>,
    served: seq<Event>)             // history of finished events

  const EMPTY := Hub([], map[], 0, {}, {}, [], [], [], [], [])

  // ----- lists with counted erasure

  function Survivors(list: seq<nat>, faulty: set<nat>): (r: seq<nat>) {
    if list == [] then []
    else Survivors(list[..|list| - 1], faulty) + if list[|list| - 1] in faulty then [] else [list[|list| - 1]]
  }

  function CountIn(list: seq<nat>, faulty: set<nat>): (n: nat)
    ensures n <= |list|
  {
    if list == [] then 0
    else CountIn(list[..|list| - 1], faulty) + if list[|list| - 1] in faulty then 1 else 0
  }

  lemma {:induction false} SurvivorsAppend(a: seq<nat>, b: seq<nat>, faulty: set<nat>)
    ensures Survivors(a + b, faulty) == Survivors(a, faulty) + Survivors(b, faulty)
    ensures CountIn(a + b, faulty) == CountIn(a, faulty) + CountIn(b, faulty)
    decreases |b|
  {
    if b == [] {
      assert a + b == a;
    } else {
      assert (a + b)[..|a + b| - 1] == a + b[..|b| - 1];
      SurvivorsAppend(a, b[..|b| - 1], faulty);
    }
  }

  lemma {:induction false} NoneFaulty(list: seq<nat>, faulty: set<nat>)
    requires CountIn(list, faulty) == 0
    ensures Survivors(list, faulty) == list
    ensures forall u | u in list :: u !in faulty
  {
    if list != [] {
      NoneFaulty(list[..|list| - 1], faulty);
      assert list == list[..|list| - 1] + [list[|list| - 1]];
    }
  }

  ghost predicate Distinct(list: seq<nat>) {
    forall i, j | 0 <= i < j < |list| :: list[i] != list[j]
  }

  lemma {:induction false} SurvivorsIn(list: seq<nat>, faulty: set<nat>, u: nat)
    ensures u in Survivors(list, faulty) <==> u in list && u !in faulty
  {
    if list != [] {
      SurvivorsIn(list[..|list| - 1], faulty, u);
      assert list == list[..|list| - 1] + [list[|list| - 1]];
    }
  }

  lemma {:induction false} SurvivorsDistinct(list: seq<nat>, faulty: set<nat>)
    requires Distinct(list)
    ensures Distinct(Survivors(list, faulty))
  {
    if list != [] {
      var init, last := list[..|list| - 1], list[|list| - 1];
      SurvivorsDistinct(init, faulty);
      SurvivorsIn(init, faulty, last);
      assert last !in init;
    }
  }

  /** Survivors are exactly the listed, unfaulted ones, still without repetition. */
  lemma SurvivorsMembers(list: seq<nat>, faulty: set<nat>)
    ensures forall u :: u in Survivors(list, faulty) <==> u in list && u !in faulty
    ensures Distinct(list) ==> Distinct(Survivors(list, faulty))
  {
    forall u {
      SurvivorsIn(list, faulty, u);
    }
    if Distinct(list) {
      SurvivorsDistinct(list, faulty);
    }
  }

  /** Walking past the element at position `i`. */
  lemma WalkOne(list: seq<nat>, faulty: set<nat>, i: nat)
    requires i < |list|
    ensures Survivors(list[..i + 1], faulty) == Survivors(list[..i], faulty) + if list[i] in faulty then [] else [list[i]]
    ensures CountIn(list[i..], faulty) == (if list[i] in faulty then 1 else 0) + CountIn(list[i + 1..], faulty)
  {
    assert list[..i + 1][..i] == list[..i];
    assert list[i..] == [list[i]] + list[i + 1..];
    SurvivorsAppend([list[i]], list[i + 1..], faulty);
    assert CountIn([list[i]], faulty) == CountIn([list[i]][..0], faulty) + if list[i] in faulty then 1 else 0;
  }

  /** The erase loop of both pumps: it walks the list, erases faulted entries, and stops as soon as the
      counter says that none is left. */
  method EraseFaulted(list: seq<nat>, faulty: set<nat>, counted: nat) returns (rest: seq<nat>)
    requires counted == CountIn(list, faulty)
    ensures rest == Survivors(list, faulty)
  {
    hide Survivors, CountIn;
    rest := list;
    var faults := counted;
    if faults == 0 {
      NoneFaulty(list, faulty);
      return;
    }
    var i := 0;
    ghost var done := 0;
    WalkStarts(list, faulty);
    while i < |rest|
      invariant 0 <= i <= |rest| && 0 <= done <= |list|
      invariant rest[..i] == Survivors(list[..done], faulty) && rest[i..] == list[done..]
      invariant faults == CountIn(list[done..], faulty)
      decreases |rest| - i
    {
      assert rest[i] == list[done];
      WalkOne(list, faulty, done);
      ghost var kept, after := rest[..i], list[done + 1..];
      assert rest[i + 1..] == rest[i..][1..] == list[done..][1..] == after;
      done := done + 1;
      if rest[i] in faulty {
        rest := rest[..i] + rest[i + 1..];
        assert rest[..i] == kept && rest[i..] == after;
        faults := faults - 1;
        if faults == 0 {
          break;
        }
      } else {
        assert rest[..i + 1] == kept + [rest[i]];
        i := i + 1;
      }
    }
    WalkEnds(list, faulty, done, rest, i);
  }

  lemma WalkStarts(list: seq<nat>, faulty: set<nat>)
    ensures Survivors(list[..0], faulty) == [] && list[0..] == list
  {
  }

  /** Nothing faulted is left behind the point where the walk stopped. */
  lemma WalkEnds(list: seq<nat>, faulty: set<nat>, done: nat, rest: seq<nat>, i: nat)
    requires done <= |list| && i <= |rest|
    requires rest[..i] == Survivors(list[..done], faulty) && rest[i..] == list[done..]
    requires i == |rest| || CountIn(list[done..], faulty) == 0
    ensures rest == Survivors(list, faulty)
  {
    assert rest == rest[..i] + rest[i..] && list == list[..done] + list[done..];
    SurvivorsAppend(list[..done], list[done..], faulty);
    NoneFaulty(list[done..], faulty);
  }

  // ----- what one visit does to a connection

  /** What a call of a reader that stops after one request can have done, unless the connection is multiplexed. */
  predicate Plausible(c: Conn, o: Outcome) {
    c.multiplex || o.messages <= 1
  }

  /** `TcpReader` reads nothing from a faulted or locked connection. */
  function Taken(c: Conn, o: Outcome): nat {
    if c.writerFault || (!c.multiplex && c.readLock) then 0 else o.messages
  }

  function ReadVisit(c: Conn, o: Outcome): Conn {
    if c.writerFault then c.(readerFault := true)
    else if !c.multiplex && c.readLock then c
    else c.(pending := c.pending + Taken(c, o),
            arrived := c.arrived + Taken(c, o),
            readLock := c.readLock || (!c.multiplex && Taken(c, o) > 0),
            readerFault := c.readerFault || !o.ok)
  }

  function WriteVisit(c: Conn, ok: bool): Conn {
    if c.readerFault || !ok then c.(writerFault := true) else c
  }

  /** The events that `RawMessage` queues during one visit. */
  function NewEvents(u: nat, c: Conn, o: Outcome): (r: seq<Event>)
    ensures |r| == Taken(c, o)
  {
    seq(Taken(c, o), (i: nat) => Event(u, c.arrived + i))
  }

  function Arrivals(list: seq<nat>, store: map<nat, Conn>, o: nat -> Outcome): seq<Event>
    requires forall u | u in list :: u in store
  {
    if list == [] then []
    else
      var u := list[|list| - 1];
      Arrivals(list[..|list| - 1], store, o) + NewEvents(u, store[u], o(u))
  }

  function ReaderFaulted(store: map<nat, Conn>): set<nat> {
    set u | u in store && store[u].readerFault
  }

  function WriterFaulted(store: map<nat, Conn>): set<nat> {
    set u | u in store && store[u].writerFault
  }

  predicate Dead(c: Conn) {
    c.readerFault && c.writerFault && c.pending == 0
  }

  function DeadOnes(store: map<nat, Conn>): set<nat> {
    set u | u in store && Dead(store[u])
  }

  // ----- the steps

  datatype Step =
    | Create(multiplex: bool)               // TcpConnections::Create
    | JoinWriter(uid: nat)                  // TcpWriter::Manage
    | JoinReader(uid: nat)                  // TcpReader::Manage
    | ReaderPass(outcomes: nat -> Outcome)
    | WriterPass(sends: nat -> bool)
    | Take                                  // ThreadQueue::Next
    | Finish(i: nat)                        // the tail of RawEvent
    | Sweep                                 // TcpConnections::Pump

  /** Every pointer a step would follow is to a connection in the store. */
  predicate Enabled(h: Hub, step: Step) {
    match step
    case Create(_) => true
    case JoinWriter(u) => u in h.joiningWriter
    case JoinReader(u) => u in h.joiningReader
    case ReaderPass(outcomes) => forall u | u in h.readers :: u in h.store && Plausible(h.store[u], outcomes(u))
    case WriterPass(_) => forall u | u in h.writers :: u in h.store
    case Take => h.events != []
    case Finish(i) => i < |h.running| && h.running[i].uid in h.store && h.store[h.running[i].uid].pending > 0
    case Sweep => true
  }

  function AfterReads(list: seq<nat>, store: map<nat, Conn>, outcomes: nat -> Outcome): map<nat, Conn> {
    map u | u in store :: if u in list then ReadVisit(store[u], outcomes(u)) else store[u]
  }

  function AfterWrites(list: seq<nat>, store: map<nat, Conn>, sends: nat -> bool): map<nat, Conn> {
    map u | u in store :: if u in list then WriteVisit(store[u], sends(u)) else store[u]
  }

  function Returned(c: Conn): Conn
    requires c.pending > 0
  {
    c.(pending := c.pending - 1, finished := c.finished + 1, readLock := c.multiplex && c.readLock)
  }

  function Next(h: Hub, step: Step): Hub
    requires Enabled(h, step)
  {
    match step
    case Create(multiplex) =>
      h.(connections := h.connections + [h.historic],
         store := h.store[h.historic := Conn(multiplex, false, false, false, 0, 0, 0)],
         joiningWriter := h.joiningWriter + {h.historic},
         joiningReader := h.joiningReader + {h.historic},
         historic := h.historic + 1)
    case JoinWriter(u) =>
      h.(writers := h.writers + [u], joiningWriter := h.joiningWriter - {u})
    case JoinReader(u) =>
      h.(readers := h.readers + [u], joiningReader := h.joiningReader - {u})
    case ReaderPass(outcomes) =>
      var store := AfterReads(h.readers, h.store, outcomes);
      h.(store := store,
         events := h.events + Arrivals(h.readers, h.store, outcomes),
         readers := Survivors(h.readers, ReaderFaulted(store)))
    case WriterPass(sends) =>
      var store := AfterWrites(h.writers, h.store, sends);
      h.(store := store, writers := Survivors(h.writers, WriterFaulted(store)))
    case Take =>
      h.(events := h.events[1..], running := h.running + [h.events[0]])
    case Finish(i) =>
      var e := h.running[i];
      h.(running := h.running[..i] + h.running[i + 1..],
         store := h.store[e.uid := Returned(h.store[e.uid])],
         served := h.served + [e])
    case Sweep =>
      h.(connections := Survivors(h.connections, DeadOnes(h.store)), store := h.store - DeadOnes(h.store))
  }

  // ----- the invariant

  function EventsOf(es: seq<Event>, u: nat): nat {
    if es == [] then 0 else EventsOf(es[..|es| - 1], u) + if es[|es| - 1].uid == u then 1 else 0
  }

  lemma {:induction false} EventsOfAppend(a: seq<Event>, b: seq<Event>, u: nat)
    ensures EventsOf(a + b, u) == EventsOf(a, u) + EventsOf(b, u)
    decreases |b|
  {
    if b == [] {
      assert a + b == a;
    } else {
      assert (a + b)[..|a + b| - 1] == a + b[..|b| - 1];
      EventsOfAppend(a, b[..|b| - 1], u);
    }
  }

  lemma {:induction false} EventsOfPositive(es: seq<Event>, i: nat)
    requires i < |es|
    ensures 0 < EventsOf(es, es[i].uid)
  {
    if i < |es| - 1 {
      EventsOfPositive(es[..|es| - 1], i);
    }
  }

  function InFlight(h: Hub): seq<Event> {
    h.running + h.events
  }

  /** The numbers of the finished events of one connection, in the order they finished. */
  function Finished(served: seq<Event>, u: nat): seq<nat> {
    if served == [] then []
    else Finished(served[..|served| - 1], u)
         + if served[|served| - 1].uid == u then [served[|served| - 1].number] else []
  }

  function UpTo(n: nat): seq<nat> {
    seq(n, i => i)
  }

  ghost predicate ListsSound(h: Hub) {
    && Distinct(h.connections) && Distinct(h.readers) && Distinct(h.writers)
    && (forall u :: u in h.connections <==> u in h.store)
    && (forall u | u in h.store :: u < h.historic)
    && (forall u | u in h.readers :: u in h.store && !h.store[u].readerFault)
    && (forall u | u in h.writers :: u in h.store && !h.store[u].writerFault)
    && (forall u | u in h.joiningReader :: u in h.store && !h.store[u].readerFault && u !in h.readers)
    && (forall u | u in h.joiningWriter :: u in h.store && !h.store[u].writerFault && u !in h.writers)
  }

  /** A connection and the events in flight agree. */
  ghost predicate Consistent(c: Conn, u: nat, flight: seq<Event>, served: seq<Event>) {
    && c.pending == EventsOf(flight, u)
    && c.arrived == c.finished + c.pending
    && (!c.multiplex ==>
          && c.pending == (if c.readLock then 1 else 0)
          && Finished(served, u) == UpTo(c.finished)
          && forall e | e in flight && e.uid == u :: e.number == c.finished)
  }

  ghost predicate CountsSound(h: Hub) {
    && (forall e | e in InFlight(h) :: e.uid in h.store)
    && (forall u | u in h.store :: Consistent(h.store[u], u, InFlight(h), h.served))
    && (forall e | e in h.served :: e.uid < h.historic)
  }

  ghost predicate Inv(h: Hub) {
    ListsSound(h) && CountsSound(h)
  }

  // ----- every step keeps it

  lemma {:induction false} ArrivalsOf(list: seq<nat>, store: map<nat, Conn>, o: nat -> Outcome, u: nat)
    requires Distinct(list) && forall v | v in list :: v in store
    ensures EventsOf(Arrivals(list, store, o), u) == if u in list then Taken(store[u], o(u)) else 0
    ensures forall e | e in Arrivals(list, store, o) :: e.uid in list && e in NewEvents(e.uid, store[e.uid], o(e.uid))
  {
    if list != [] {
      var v := list[|list| - 1];
      var init := list[..|list| - 1];
      assert list == init + [v];
      assert v !in init;
      ArrivalsOf(init, store, o, u);
      EventsOfAppend(Arrivals(init, store, o), NewEvents(v, store[v], o(v)), u);
      EventsOfOne(NewEvents(v, store[v], o(v)), v, u);
    }
  }

  lemma {:induction false} EventsOfOne(es: seq<Event>, v: nat, u: nat)
    requires forall e | e in es :: e.uid == v
    ensures EventsOf(es, u) == if u == v then |es| else 0
  {
    if es != [] {
      EventsOfOne(es[..|es| - 1], v, u);
      assert es[|es| - 1] in es;
    }
  }

  lemma CreateKeeps(h: Hub, multiplex: bool)
    requires Inv(h)
    ensures Inv(Next(h, Create(multiplex)))
  {
    CreateCounts(h, multiplex);
    CreateLists(h, multiplex);
    hide CountsSound, ListsSound, Next;
  }

  lemma CreateLists(h: Hub, multiplex: bool)
    requires ListsSound(h)
    ensures ListsSound(Next(h, Create(multiplex)))
  {
    assert h.historic !in h.store;
    assert h.historic !in h.connections && h.historic !in h.readers && h.historic !in h.writers;
  }

  lemma CreateCounts(h: Hub, multiplex: bool)
    requires Inv(h)
    ensures CountsSound(Next(h, Create(multiplex)))
  {
    hide EventsOf, Finished;
    var h' := Next(h, Create(multiplex));
    assert InFlight(h') == InFlight(h);
    NoEventsOf(h, h.historic);
  }

  /** A uid that was never issued has no events and no history. */
  lemma NoEventsOf(h: Hub, u: nat)
    requires CountsSound(h) && u !in h.store && h.historic <= u
    ensures EventsOf(InFlight(h), u) == 0 && Finished(h.served, u) == []
  {
    NoneInFlight(InFlight(h), u);
    NoneServed(h.served, u);
  }

  lemma {:induction false} NoneInFlight(es: seq<Event>, u: nat)
    requires forall e | e in es :: e.uid != u
    ensures EventsOf(es, u) == 0
  {
    if es != [] {
      assert es[|es| - 1] in es;
      NoneInFlight(es[..|es| - 1], u);
    }
  }

  lemma {:induction false} NoneServed(es: seq<Event>, u: nat)
    requires forall e | e in es :: e.uid != u
    ensures Finished(es, u) == []
  {
    if es != [] {
      assert es[|es| - 1] in es;
      NoneServed(es[..|es| - 1], u);
    }
  }

  lemma {:induction false} NoneLeft(es: seq<Event>, u: nat)
    requires EventsOf(es, u) == 0
    ensures forall e | e in es :: e.uid != u
  {
    if es != [] {
      NoneLeft(es[..|es| - 1], u);
      assert es == es[..|es| - 1] + [es[|es| - 1]];
    }
  }

  lemma JoinWriterKeeps(h: Hub, u: nat)
    requires Inv(h) && Enabled(h, JoinWriter(u))
    ensures Inv(Next(h, JoinWriter(u)))
  {
    hide EventsOf, Finished;
    assert InFlight(Next(h, JoinWriter(u))) == InFlight(h);
  }

  lemma JoinReaderKeeps(h: Hub, u: nat)
    requires Inv(h) && Enabled(h, JoinReader(u))
    ensures Inv(Next(h, JoinReader(u)))
  {
    hide EventsOf, Finished;
    assert InFlight(Next(h, JoinReader(u))) == InFlight(h);
  }

  lemma ReaderPassKeepsLists(h: Hub, outcomes: nat -> Outcome)
    requires ListsSound(h) && Enabled(h, ReaderPass(outcomes))
    ensures ListsSound(Next(h, ReaderPass(outcomes)))
  {
    hide EventsOf, Finished, Survivors, Arrivals;
    SurvivorsMembers(h.readers, ReaderFaulted(AfterReads(h.readers, h.store, outcomes)));
  }

  lemma ReaderPassKeepsCounts(h: Hub, outcomes: nat -> Outcome)
    requires Inv(h) && Enabled(h, ReaderPass(outcomes))
    ensures CountsSound(Next(h, ReaderPass(outcomes)))
  {
    hide EventsOf, Finished, Survivors, Arrivals;
    var h' := Next(h, ReaderPass(outcomes));
    var more := Arrivals(h.readers, h.store, outcomes);
    assert InFlight(h') == InFlight(h) + more;
    ArrivalsOf(h.readers, h.store, outcomes, 0);
    forall u | u in h'.store
      ensures Consistent(h'.store[u], u, InFlight(h'), h'.served)
    {
      ArrivalsOf(h.readers, h.store, outcomes, u);
      EventsOfAppend(InFlight(h), more, u);
      assert Consistent(h.store[u], u, InFlight(h), h.served);
      VisitConsistent(h.store[u], u, InFlight(h), more, h.served, u in h.readers, outcomes(u));
    }
  }

  /** One connection across one reader pass. */
  lemma VisitConsistent(c: Conn, u: nat, flight: seq<Event>, more: seq<Event>, served: seq<Event>, listed: bool, o: Outcome)
    requires Consistent(c, u, flight, served)
    requires EventsOf(flight + more, u) == EventsOf(flight, u) + if listed then Taken(c, o) else 0
    requires forall e | e in more && e.uid == u :: listed && e in NewEvents(u, c, o)
    requires listed ==> Plausible(c, o)
    ensures Consistent(if listed then ReadVisit(c, o) else c, u, flight + more, served)
  {
    hide EventsOf, Finished;
    var c' := if listed then ReadVisit(c, o) else c;
    if !c.multiplex {
      forall e | e in flight + more && e.uid == u
        ensures e.number == c'.finished
      {
        if e in more {
          assert e in NewEvents(u, c, o);
          assert Taken(c, o) == 1 && e == Event(u, c.arrived + 0);
        }
      }
    }
  }

  lemma WriterPassKeeps(h: Hub, sends: nat -> bool)
    requires Inv(h) && Enabled(h, WriterPass(sends))
    ensures Inv(Next(h, WriterPass(sends)))
  {
    hide EventsOf, Finished, Survivors;
    var h' := Next(h, WriterPass(sends));
    SurvivorsMembers(h.writers, WriterFaulted(AfterWrites(h.writers, h.store, sends)));
    assert InFlight(h') == InFlight(h);
    forall u | u in h'.store
      ensures Consistent(h'.store[u], u, InFlight(h'), h'.served)
    {
      assert Consistent(h.store[u], u, InFlight(h), h.served);
    }
  }

  lemma TakeKeeps(h: Hub)
    requires Inv(h) && Enabled(h, Take)
    ensures Inv(Next(h, Take))
  {
    hide EventsOf, Finished;
    assert InFlight(Next(h, Take)) == InFlight(h);
  }

  lemma FinishKeeps(h: Hub, i: nat)
    requires Inv(h) && Enabled(h, Finish(i))
    ensures Inv(Next(h, Finish(i)))
  {
    FinishCounts(h, i);
    FinishLists(h, i);
    hide CountsSound, ListsSound, Next;
  }

  lemma FinishLists(h: Hub, i: nat)
    requires ListsSound(h) && Enabled(h, Finish(i))
    ensures ListsSound(Next(h, Finish(i)))
  {
    hide Distinct;
  }

  lemma FinishCounts(h: Hub, i: nat)
    requires Inv(h) && Enabled(h, Finish(i))
    ensures CountsSound(Next(h, Finish(i)))
  {
    hide EventsOf, Finished;
    var h' := Next(h, Finish(i));
    var flight, e := InFlight(h), h.running[i];
    assert flight[i] == e;
    assert InFlight(h') == flight[..i] + flight[i + 1..];
    assert e in flight;
    forall u | u in h'.store
      ensures Consistent(h'.store[u], u, InFlight(h'), h'.served)
    {
      assert Consistent(h.store[u], u, flight, h.served);
      ReturnConsistent(h.store[u], u, flight, i, h.served);
    }
  }

  /** One connection across the end of the event at position `i`. */
  lemma ReturnConsistent(c: Conn, u: nat, flight: seq<Event>, i: nat, served: seq<Event>)
    requires Consistent(c, u, flight, served) && i < |flight|
    requires flight[i].uid == u ==> c.pending > 0
    ensures Consistent(if flight[i].uid == u then Returned(c) else c, u, flight[..i] + flight[i + 1..], served + [flight[i]])
  {
    hide EventsOf;
    var e := flight[i];
    var rest := flight[..i] + flight[i + 1..];
    WithoutOne(flight, i, u);
    assert (served + [e])[..|served|] == served;
    assert forall d | d in rest :: d in flight;
    if !c.multiplex && e.uid == u {
      assert e in flight;
      NoneLeft(rest, u);
      assert UpTo(c.finished) + [e.number] == UpTo(c.finished + 1);
    }
  }

  lemma WithoutOne(es: seq<Event>, i: nat, u: nat)
    requires i < |es|
    ensures EventsOf(es, u) == EventsOf(es[..i] + es[i + 1..], u) + if es[i].uid == u then 1 else 0
  {
    var e := es[i];
    assert es == es[..i] + [e] + es[i + 1..];
    EventsOfAppend(es[..i] + [e], es[i + 1..], u);
    EventsOfAppend(es[..i], [e], u);
    EventsOfAppend(es[..i], es[i + 1..], u);
    EventsOfOne([e], e.uid, u);
  }

  lemma SweepKeeps(h: Hub)
    requires Inv(h)
    ensures Inv(Next(h, Sweep))
    ensures forall e | e in InFlight(h) :: e.uid !in DeadOnes(h.store)
  {
    hide EventsOf, Finished, Survivors;
    var h' := Next(h, Sweep);
    SurvivorsMembers(h.connections, DeadOnes(h.store));
    assert InFlight(h') == InFlight(h);
    forall e | e in InFlight(h)
      ensures e.uid !in DeadOnes(h.store)
    {
      var i :| 0 <= i < |InFlight(h)| && InFlight(h)[i] == e;
      EventsOfPositive(InFlight(h), i);
      assert Consistent(h.store[e.uid], e.uid, InFlight(h), h.served);
    }
  }

  lemma NextKeeps(h: Hub, step: Step)
    requires Inv(h) && Enabled(h, step)
    ensures Inv(Next(h, step))
  {
    match step
    case Create(multiplex) => CreateKeeps(h, multiplex);
    case JoinWriter(u) => JoinWriterKeeps(h, u);
    case JoinReader(u) => JoinReaderKeeps(h, u);
    case ReaderPass(outcomes) =>
      ReaderPassKeepsLists(h, outcomes);
      ReaderPassKeepsCounts(h, outcomes);
    case WriterPass(sends) => WriterPassKeeps(h, sends);
    case Take => TakeKeeps(h);
    case Finish(i) => FinishKeeps(h, i);
    case Sweep => SweepKeeps(h);
  }

  predicate ValidRun(h: Hub, steps: seq<Step>)
    decreases |steps|
  {
    steps == [] || (Enabled(h, steps[0]) && ValidRun(Next(h, steps[0]), steps[1..]))
  }

  function Run(h: Hub, steps: seq<Step>): Hub
    requires ValidRun(h, steps)
    decreases |steps|
  {
    if steps == [] then h else Run(Next(h, steps[0]), steps[1..])
  }

  lemma {:induction false} RunKeeps(h: Hub, steps: seq<Step>)
    requires Inv(h) && ValidRun(h, steps)
    ensures Inv(Run(h, steps))
    decreases |steps|
  {
    if steps != [] {
      NextKeeps(h, steps[0]);
      RunKeeps(Next(h, steps[0]), steps[1..]);
    }
  }

  // ----- the claims

  lemma ReachableInv(steps: seq<Step>)
    requires ValidRun(EMPTY, steps)
    ensures Inv(Run(EMPTY, steps))
  {
    assert Inv(EMPTY);
    RunKeeps(EMPTY, steps);
  }

  /** In every reachable state every pointer in the reader's list, the writer's list, the event queue
      or a thread's hands is to a stored connection; no listed connection carries its own list's fault;
      `pending` counts the events in flight; and a sweep erases no connection any of them points to. */
  lemma NothingDangles(steps: seq<Step>)
    requires ValidRun(EMPTY, steps)
    ensures var h := Run(EMPTY, steps);
            && (forall u | u in h.readers + h.writers :: u in h.store && u !in DeadOnes(h.store))
            && (forall u | u in h.readers :: !h.store[u].readerFault)
            && (forall u | u in h.writers :: !h.store[u].writerFault)
            && (forall e | e in InFlight(h) :: e.uid in h.store && e.uid !in DeadOnes(h.store))
            && (forall u | u in h.store :: h.store[u].pending == EventsOf(InFlight(h), u))
  {
    ReachableInv(steps);
    var h := Run(EMPTY, steps);
    SweepKeeps(h);
    forall u | u in h.store
      ensures h.store[u].pending == EventsOf(InFlight(h), u)
    {
      assert Consistent(h.store[u], u, InFlight(h), h.served);
    }
  }

  /** So no step is ever blocked by a bad pointer: a pass or a sweep is always possible, and so is the
      end of any running event. */
  lemma NoPointerBlocks(steps: seq<Step>, outcomes: nat -> Outcome, sends: nat -> bool)
    requires ValidRun(EMPTY, steps)
    requires forall u | u in Run(EMPTY, steps).store :: Plausible(Run(EMPTY, steps).store[u], outcomes(u))
    ensures var h := Run(EMPTY, steps);
            && Enabled(h, ReaderPass(outcomes)) && Enabled(h, WriterPass(sends))
            && forall i | 0 <= i < |h.running| :: Enabled(h, Finish(i))
  {
    ReachableInv(steps);
    var h := Run(EMPTY, steps);
    forall i | 0 <= i < |h.running|
      ensures Enabled(h, Finish(i))
    {
      var e := h.running[i];
      assert InFlight(h)[i] == e;
      EventsOfPositive(InFlight(h), i);
      assert e in InFlight(h);
      assert Consistent(h.store[e.uid], e.uid, InFlight(h), h.served);
    }
  }

  /** A non-multiplexed connection never has two requests queued or running, its reader consumes
      nothing while one is, and its requests finish in the order in which they arrived. */
  lemma OneAtATime(steps: seq<Step>, u: nat, o: Outcome)
    requires ValidRun(EMPTY, steps)
    requires u in Run(EMPTY, steps).store && !Run(EMPTY, steps).store[u].multiplex
    ensures var h := Run(EMPTY, steps);
            && EventsOf(InFlight(h), u) <= 1
            && (EventsOf(InFlight(h), u) == 1 ==> Taken(h.store[u], o) == 0)
            && h.store[u].arrived == h.store[u].finished + EventsOf(InFlight(h), u)
            && Finished(h.served, u) == UpTo(h.store[u].finished)
  {
    ReachableInv(steps);
    var h := Run(EMPTY, steps);
    assert Consistent(h.store[u], u, InFlight(h), h.served);
  }

  // ----- how a fault spreads

  /** A connection that both `Manage` calls have reached and that no pump has lost track of. */
  ghost predicate Managed(h: Hub, u: nat) {
    && u in h.store
    && (u in h.readers || h.store[u].readerFault)
    && (u in h.writers || h.store[u].writerFault)
  }

  ghost predicate BothFaults(h: Hub, u: nat) {
    u in h.store && h.store[u].readerFault && h.store[u].writerFault
  }

  lemma StepSpreads(h: Hub, step: Step, u: nat)
    requires Inv(h) && Enabled(h, step) && Managed(h, u)
    ensures var h' := Next(h, step);
            if step.Sweep? && Dead(h.store[u]) then u !in h'.store
            else
              && Managed(h', u)
              && (h.store[u].readerFault ==> h'.store[u].readerFault)
              && (h.store[u].writerFault ==> h'.store[u].writerFault)
              && (step.ReaderPass? && h.store[u].writerFault ==> h'.store[u].readerFault)
              && (step.WriterPass? && h.store[u].readerFault ==> h'.store[u].writerFault)
              && (BothFaults(h, u) ==> h'.store[u].pending <= h.store[u].pending)
  {
    hide EventsOf, Finished, Survivors, Arrivals;
    match step
    case ReaderPass(outcomes) =>
      SurvivorsMembers(h.readers, ReaderFaulted(AfterReads(h.readers, h.store, outcomes)));
    case WriterPass(sends) =>
      SurvivorsMembers(h.writers, WriterFaulted(AfterWrites(h.writers, h.store, sends)));
    case _ =>
  }

  predicate HasReaderPass(steps: seq<Step>) {
    exists i :: 0 <= i < |steps| && steps[i].ReaderPass?
  }

  predicate HasWriterPass(steps: seq<Step>) {
    exists i :: 0 <= i < |steps| && steps[i].WriterPass?
  }

  /** From a fault on either side, any run that contains a pass of the pump on the other side ends with the
      connection faulted on both sides and off both lists, or already erased. */
  lemma {:induction false} FaultSpreads(h: Hub, steps: seq<Step>, u: nat)
    requires Inv(h) && ValidRun(h, steps) && Managed(h, u)
    requires h.store[u].readerFault || h.store[u].writerFault
    requires !h.store[u].readerFault ==> HasReaderPass(steps)
    requires !h.store[u].writerFault ==> HasWriterPass(steps)
    ensures var h' := Run(h, steps);
            u !in h'.store || (BothFaults(h', u) && u !in h'.readers && u !in h'.writers)
    decreases |steps|
  {
    if steps != [] {
      var h1 := Next(h, steps[0]);
      NextKeeps(h, steps[0]);
      StepSpreads(h, steps[0], u);
      assert forall i | 0 < i < |steps| :: steps[i] == steps[1..][i - 1];
      if u !in h1.store {
        Gone(h1, steps[1..], u);
      } else {
        LaterPass(steps);
        FaultSpreads(h1, steps[1..], u);
      }
    }
  }

  lemma LaterPass(steps: seq<Step>)
    requires steps != []
    ensures HasReaderPass(steps) && !steps[0].ReaderPass? ==> HasReaderPass(steps[1..])
    ensures HasWriterPass(steps) && !steps[0].WriterPass? ==> HasWriterPass(steps[1..])
  {
    if i :| 0 <= i < |steps| && steps[i].ReaderPass? && !steps[0].ReaderPass? {
      assert steps[1..][i - 1].ReaderPass?;
    }
    if i :| 0 <= i < |steps| && steps[i].WriterPass? && !steps[0].WriterPass? {
      assert steps[1..][i - 1].WriterPass?;
    }
  }

  /** Uids are not reused, so an erased connection stays erased. */
  lemma {:induction false} Gone(h: Hub, steps: seq<Step>, u: nat)
    requires Inv(h) && ValidRun(h, steps) && u !in h.store && u < h.historic
    ensures u !in Run(h, steps).store
    decreases |steps|
  {
    if steps != [] {
      NextKeeps(h, steps[0]);
      Gone(Next(h, steps[0]), steps[1..], u);
    }
  }

  /** Once both faults are up they stay up, pending only goes down, and the first sweep that finds it at
      zero erases the connection. */
  lemma {:induction false} FaultedDrains(h: Hub, steps: seq<Step>, u: nat)
    requires Inv(h) && ValidRun(h, steps) && BothFaults(h, u)
    ensures var h' := Run(h, steps);
            && (u in h'.store ==> BothFaults(h', u) && h'.store[u].pending <= h.store[u].pending)
            && (u in h'.store && h'.store[u].pending == 0 ==> u !in Next(h', Sweep).store)
    decreases |steps|
  {
    if steps != [] {
      var h1 := Next(h, steps[0]);
      NextKeeps(h, steps[0]);
      StepSpreads(h, steps[0], u);
      if u !in h1.store {
        Gone(h1, steps[1..], u);
      } else {
        FaultedDrains(h1, steps[1..], u);
      }
    }
  }
}
