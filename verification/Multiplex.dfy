/** The multiplexed request/reply protocol as one state machine: an `EventClientT`, two byte streams,
    and a `TcpServer` connection whose requests are handled by any number of event threads.  One step
    is one critical section or one socket transfer, taken in any order.  The reader states are the
    automaton that `Connection.MessageRead` refines, the bytes are those `Connection.WriteMessage`
    sends, and the reply slots are the ledger that `Slots.SlotQueue` implements. */
module Multiplex {
  import opened Bytes
  import opened Framing
  import opened Options
  import opened Slots

  /** A request in the event queue or in the hands of a thread, with its reply slot's handle. */
  datatype Event = Event(ticket: nat, request: seq<byte>)

  /** A callback call on the client: which queued callback, and with what. */
  datatype Call = Call(callback: nat, reply: seq<byte>)

  datatype System = System(
    // client: requests in the order of AsyncWriteCallback, those its writer has not taken, the bytes
    // its writer still owes, the callbacks waiting for replies, and the callbacks called so far
    issued: seq<seq<byte>>,
    outbox: seq<seq<byte>>,
    clientOwes: seq<byte>,
    callbacks: seq<nat>,
    calls: seq<Call>,
    clientReader: Reader,
    // bytes in flight, and the history of what each side has received
    toServer: seq<byte>,
    toClient: seq<byte>,
    serverGot: seq<byte>,
    clientGot: seq<byte>,
    // server: its reader, the reply slots, the event queue, the events being handled, the bytes its
    // writer still owes, and a record of which request each handler answered and how
    serverReader: Reader,
    slots: Ledger,
    events: seq<Event>,
    running: seq<Event>,
    serverOwes: seq<byte>,
    threads: nat,
    answered: map<nat, (seq<byte>, seq<byte>)>,
    // set when a step's behaviour would be undefined, or a connection would be dropped
    failed: bool)

  function Init(threads: nat): System {
    System([], [], [], [], [], START, [], [], [], [], START, EMPTY, [], [], [], threads, map[], false)
  }

  datatype Step =
    | Enqueue(request: seq<byte>)      // AsyncWriteCallback
    | ClientTakes                      // client writer: TryWrite and the size prefix
    | ClientSends(n: nat)
    | ServerReceives(n: nat)           // Message::Read, and RawMessage for a complete request
    | ThreadTakes                      // ThreadQueue::Next
    | ThreadAnswers(i: nat, reply: seq<byte>)  // the handler's ActivateWrite, by whichever thread
    | ServerTakes                      // server writer: TryWrite and the size prefix
    | ServerSends(n: nat)
    | ClientReceives(n: nat)           // Message::Read, and the callback for a complete reply

  /** Both readers are in a state their code can be in. */
  predicate ReadersFormed(s: System) {
    WellFormed(Message, s.serverReader.state) && WellFormed(Message, s.clientReader.state)
  }

  predicate Enabled(s: System, step: Step)
    requires ReadersFormed(s)
  {
    match step
    case Enqueue(request) => Sendable(request)
    case ClientTakes => s.clientOwes == [] && s.outbox != []
    case ClientSends(n) => 0 < n <= |s.clientOwes|
    case ServerReceives(n) => 0 < n <= |s.toServer| && n <= Wanted(Message, s.serverReader.state)
    case ThreadTakes => s.events != [] && |s.running| < s.threads
    case ThreadAnswers(i, reply) => i < |s.running| && Sendable(reply)
    case ServerTakes => s.serverOwes == [] && s.slots.HeadReady()
    case ServerSends(n) => 0 < n <= |s.serverOwes|
    case ClientReceives(n) => 0 < n <= |s.toClient| && n <= Wanted(Message, s.clientReader.state)
  }

  /** `RawMessage`: reserve a slot, then queue the event with the slot's handle.  An empty request
      asks for a disconnect. */
  function Dispatch(s: System, request: seq<byte>): System {
    if request == [] then s.(failed := true)
    else s.(slots := s.slots.Reserve(), events := s.events + [Event(s.slots.Next(), request)])
  }

  /** The client's reader lambda: the oldest waiting callback gets the reply; a ping is ignored.  With
      no callback waiting, `front` of an empty queue is undefined. */
  function CallBack(s: System, reply: seq<byte>): System {
    if reply == [] then s
    else if s.callbacks == [] then s.(failed := true)
    else s.(callbacks := s.callbacks[1..], calls := s.calls + [Call(s.callbacks[0], reply)])
  }

  /** The handler's `ActivateWrite` through its slot pointer, undefined if the slot is gone. */
  function Activate(s: System, e: Event, reply: seq<byte>): System {
    if !s.slots.Live(e.ticket) then s.(failed := true)
    else s.(slots := s.slots.Fill(e.ticket, reply), answered := s.answered[e.ticket := (e.request, reply)])
  }

  function ServerReceive(s: System, n: nat): System
    requires ReadersFormed(s) && n <= |s.toServer|
  {
    var chunk := s.toServer[..n];
    var r := Feed(Message, s.serverReader, chunk);
    var s' := s.(toServer := s.toServer[n..], serverGot := s.serverGot + chunk, serverReader := r);
    if |r.out| > |s.serverReader.out| then Dispatch(s', r.out[|s.serverReader.out|]) else s'
  }

  function ClientReceive(s: System, n: nat): System
    requires ReadersFormed(s) && n <= |s.toClient|
  {
    var chunk := s.toClient[..n];
    var r := Feed(Message, s.clientReader, chunk);
    var s' := s.(toClient := s.toClient[n..], clientGot := s.clientGot + chunk, clientReader := r);
    if |r.out| > |s.clientReader.out| then CallBack(s', r.out[|s.clientReader.out|]) else s'
  }

  function Next(s: System, step: Step): (s': System)
    requires ReadersFormed(s) && Enabled(s, step)
    ensures ReadersFormed(s')
  {
    match step
    case Enqueue(request) =>
      s.(issued := s.issued + [request], outbox := s.outbox + [request], callbacks := s.callbacks + [|s.issued|])
    case ClientTakes =>
      s.(outbox := s.outbox[1..], clientOwes := Frame(0, s.outbox[0]))
    case ClientSends(n) =>
      s.(clientOwes := s.clientOwes[n..], toServer := s.toServer + s.clientOwes[..n])
    case ServerReceives(n) =>
      ServerReceive(s, n)
    case ThreadTakes =>
      s.(events := s.events[1..], running := s.running + [s.events[0]])
    case ThreadAnswers(i, reply) =>
      Activate(s.(running := s.running[..i] + s.running[i + 1..]), s.running[i], reply)
    case ServerTakes =>
      s.(slots := s.slots.Take(), serverOwes := Frame(0, s.slots.cells[0].value))
    case ServerSends(n) =>
      s.(serverOwes := s.serverOwes[n..], toClient := s.toClient + s.serverOwes[..n])
    case ClientReceives(n) =>
      ClientReceive(s, n)
  }

  predicate ValidRun(s: System, steps: seq<Step>)
    requires ReadersFormed(s)
    decreases |steps|
  {
    steps == [] || (Enabled(s, steps[0]) && ValidRun(Next(s, steps[0]), steps[1..]))
  }

  function Run(s: System, steps: seq<Step>): (s': System)
    requires ReadersFormed(s) && ValidRun(s, steps)
    ensures ReadersFormed(s')
    decreases |steps|
  {
    if steps == [] then s else Run(Next(s, steps[0]), steps[1..])
  }

  // ----- the invariant

  /** Events queued or being handled; a thread taking an event does not change this list. */
  function InFlight(s: System): seq<Event> {
    s.running + s.events
  }

  ghost predicate AllSendable(ms: seq<seq<byte>>) {
    forall m | m in ms :: Sendable(m)
  }

  /** The request stream: what the server has received, what is under way and what the client still
      owes spell out the requests its writer has taken. */
  ghost predicate RequestStream(s: System) {
    && AllSendable(s.issued)
    && |s.outbox| <= |s.issued|
    && s.outbox == s.issued[|s.issued| - |s.outbox|..]
    && s.serverGot + s.toServer + s.clientOwes == FrameAll(0, s.issued[..|s.issued| - |s.outbox|])
    && s.serverReader == Feed(Message, START, s.serverGot)
    && WellFormed(Message, s.serverReader.state)
  }

  /** The reply stream, likewise, for the replies that have left the slots. */
  ghost predicate ReplyStream(s: System) {
    && AllSendable(s.slots.taken)
    && s.clientGot + s.toClient + s.serverOwes == FrameAll(0, s.slots.taken)
    && s.clientReader == Feed(Message, START, s.clientGot)
    && WellFormed(Message, s.clientReader.state)
  }

  /** Every event in flight holds an unfilled slot, and carries the request that slot stands for. */
  ghost predicate Owned(l: Ledger, flight: seq<Event>, issued: seq<seq<byte>>)
    requires l.Next() <= |issued|
  {
    forall i | 0 <= i < |flight| :: l.Awaiting(flight[i].ticket) && flight[i].request == issued[flight[i].ticket]
  }

  ghost predicate Distinct(flight: seq<Event>) {
    forall i, j | 0 <= i < j < |flight| :: flight[i].ticket != flight[j].ticket
  }

  ghost predicate HasTicket(flight: seq<Event>, k: nat) {
    exists i :: 0 <= i < |flight| && flight[i].ticket == k
  }

  ghost predicate Covered(l: Ledger, flight: seq<Event>) {
    forall k | l.Awaiting(k) :: HasTicket(flight, k)
  }

  /** Ticket `k` belongs to the `k`-th request, and is in flight, once, until it is answered. */
  ghost predicate Tickets(l: Ledger, flight: seq<Event>, issued: seq<seq<byte>>)
    requires l.Next() <= |issued|
  {
    Owned(l, flight, issued) && Distinct(flight) && Covered(l, flight)
  }

  /** The slots hold, or held, exactly the recorded answers to exactly the issued requests. */
  ghost predicate Answers(s: System)
    requires s.slots.Next() <= |s.issued|
  {
    forall k | 0 <= k < s.slots.Next() :: SlotAnswered(s, k)
  }

  ghost predicate SlotAnswered(s: System, k: nat)
    requires k < s.slots.Next() <= |s.issued|
  {
    match s.slots.History()[k]
    case None => true
    case Some(reply) => Sendable(reply) && k in s.answered && s.answered[k] == (s.issued[k], reply)
  }

  /** Callbacks are called in order, each with the reply the client received at its position. */
  ghost predicate Callbacks(s: System) {
    && |s.calls| == |s.clientReader.out|
    && |s.calls| + |s.callbacks| == |s.issued|
    && (forall k | 0 <= k < |s.calls| :: s.calls[k] == Call(k, s.clientReader.out[k]))
    && (forall k | 0 <= k < |s.callbacks| :: s.callbacks[k] == |s.calls| + k)
  }

  ghost predicate Inv(s: System) {
    && !s.failed
    && RequestStream(s) && ReplyStream(s) && Callbacks(s)
    && s.slots.Next() == |s.serverReader.out| <= |s.issued|
    && Tickets(s.slots, InFlight(s), s.issued) && Answers(s)
  }

  /** What the server has dispatched is a prefix of what the client has sent, and what the client has
      been told is a prefix of what the slots have released. */
  lemma RequestPrefix(s: System)
    requires RequestStream(s)
    ensures s.serverReader.out <= s.issued[..|s.issued| - |s.outbox|]
    ensures s.toServer == s.clientOwes == [] ==> s.serverReader == Reader(Head([]), s.issued[..|s.issued| - |s.outbox|])
  {
    var sent := s.issued[..|s.issued| - |s.outbox|];
    assert s.serverGot + (s.toServer + s.clientOwes) == FrameAll(0, sent);
    forall m | m in sent
      ensures Sendable(m)
    {
      assert m in s.issued;
    }
    PrefixRoundTrip(sent, s.serverGot, s.toServer + s.clientOwes);
  }

  lemma ReplyPrefix(s: System)
    requires ReplyStream(s)
    ensures s.clientReader.out <= s.slots.taken
    ensures s.toClient == s.serverOwes == [] ==> s.clientReader == Reader(Head([]), s.slots.taken)
  {
    assert s.clientGot + (s.toClient + s.serverOwes) == FrameAll(0, s.slots.taken);
    PrefixRoundTrip(s.slots.taken, s.clientGot, s.toClient + s.serverOwes);
  }

  /** A receive of at most `Wanted` bytes completes at most one message. */
  lemma AtMostOne(r: Reader, chunk: seq<byte>)
    requires WellFormed(Message, r.state) && |chunk| <= Wanted(Message, r.state)
    ensures |Feed(Message, r, chunk).out| <= |r.out| + 1
  {
    FeedChunk(Message, r, chunk);
  }

  // ----- every step keeps the invariant

  lemma InitInv(threads: nat)
    ensures Inv(Init(threads))
  {
    InitStreams(threads);
    InitTickets(threads);
    hide RequestStream, ReplyStream, Tickets, Answers;
  }

  lemma InitStreams(threads: nat)
    ensures RequestStream(Init(threads)) && ReplyStream(Init(threads))
  {
    hide Feed, FrameAll;
    NothingYet();
  }

  lemma InitTickets(threads: nat)
    ensures var s := Init(threads); Tickets(s.slots, InFlight(s), s.issued) && s.slots.Next() == 0 && Answers(s)
  {
  }

  lemma NothingYet()
    ensures FrameAll(0, []) == [] && Feed(Message, START, []) == START
  {
  }

  lemma EnqueueKeeps(s: System, request: seq<byte>)
    requires Inv(s) && Enabled(s, Enqueue(request))
    ensures Inv(Next(s, Enqueue(request)))
  {
    hide FrameAll, Feed;
    var s' := Next(s, Enqueue(request));
    assert s'.issued[..|s'.issued| - |s'.outbox|] == s.issued[..|s.issued| - |s.outbox|];
    assert InFlight(s') == InFlight(s);
    forall k | 0 <= k < s'.slots.Next()
      ensures SlotAnswered(s', k)
    {
      assert SlotAnswered(s, k);
    }
  }

  lemma ClientTakesKeeps(s: System)
    requires Inv(s) && Enabled(s, ClientTakes)
    ensures Inv(Next(s, ClientTakes))
  {
    hide FrameAll, Feed;
    var s' := Next(s, ClientTakes);
    var c := |s.issued| - |s.outbox|;
    assert s'.issued[..c + 1] == s.issued[..c] + [s.outbox[0]];
    FrameAllSnoc(0, s.issued[..c], s.outbox[0]);
    assert s.serverGot + s.toServer + s.clientOwes == s.serverGot + s.toServer;
    assert InFlight(s') == InFlight(s);
    forall k | 0 <= k < s'.slots.Next()
      ensures SlotAnswered(s', k)
    {
      assert SlotAnswered(s, k);
    }
  }

  lemma ClientSendsKeeps(s: System, n: nat)
    requires Inv(s) && Enabled(s, ClientSends(n))
    ensures Inv(Next(s, ClientSends(n)))
  {
    hide FrameAll, Feed;
    var s' := Next(s, ClientSends(n));
    assert s'.serverGot + s'.toServer + s'.clientOwes == s.serverGot + s.toServer + s.clientOwes;
    assert InFlight(s') == InFlight(s);
    forall k | 0 <= k < s'.slots.Next()
      ensures SlotAnswered(s', k)
    {
      assert SlotAnswered(s, k);
    }
  }

  lemma ServerReceivesKeeps(s: System, n: nat)
    requires Inv(s) && Enabled(s, ServerReceives(n))
    ensures Inv(Next(s, ServerReceives(n)))
  {
    hide FrameAll, Feed;
    var s' := Next(s, ServerReceives(n));
    var chunk := s.toServer[..n];
    var r' := Feed(Message, s.serverReader, chunk);
    FeedAppend(Message, START, s.serverGot, chunk);
    AtMostOne(s.serverReader, chunk);
    var t := s.(toServer := s.toServer[n..], serverGot := s.serverGot + chunk, serverReader := r');
    assert t.serverGot + t.toServer + t.clientOwes == s.serverGot + s.toServer + s.clientOwes;
    assert RequestStream(t);
    RequestPrefix(t);
    if |r'.out| > |s.serverReader.out| {
      var d := s.slots.Next();
      var request := r'.out[d];
      assert request == s.issued[d];
      assert request in s.issued;
      assert s' == Dispatch(t, request);
      assert InFlight(s') == InFlight(s) + [Event(d, request)];
      TicketIssued(s.slots, InFlight(s), s.issued);
      DispatchKeeps(s, s', request);
    } else {
      assert s' == t;
      QuietReceiveKeeps(s, t);
    }
  }

  lemma QuietReceiveKeeps(s: System, t: System)
    requires Inv(s) && RequestStream(t) && |t.serverReader.out| == |s.serverReader.out|
    requires t == s.(toServer := t.toServer, serverGot := t.serverGot, serverReader := t.serverReader)
    ensures Inv(t)
  {
    hide FrameAll, Feed, RequestStream, Tickets;
    assert InFlight(t) == InFlight(s);
    forall k | 0 <= k < t.slots.Next()
      ensures SlotAnswered(t, k)
    {
      assert SlotAnswered(s, k);
    }
  }

  /** Reserving the next slot for the next request. */
  lemma DispatchKeeps(s: System, s': System, request: seq<byte>)
    requires s.slots.Next() < |s.issued| && s.issued == s'.issued && s.answered == s'.answered
    requires Answers(s)
    requires s'.slots == s.slots.Reserve()
    ensures Answers(s')
  {
    forall k | 0 <= k < s'.slots.Next()
      ensures SlotAnswered(s', k)
    {
      if k < s.slots.Next() {
        assert SlotAnswered(s, k);
        assert s'.slots.History()[k] == s.slots.History()[k];
      } else {
        assert s'.slots.History()[k] == None;
      }
    }
  }

  lemma TicketIssued(l: Ledger, flight: seq<Event>, issued: seq<seq<byte>>)
    requires l.Next() < |issued| && Tickets(l, flight, issued)
    ensures Tickets(l.Reserve(), flight + [Event(l.Next(), issued[l.Next()])], issued)
  {
    var now := flight + [Event(l.Next(), issued[l.Next()])];
    forall k | l.Reserve().Awaiting(k)
      ensures HasTicket(now, k)
    {
      if k == l.Next() {
        assert now[|flight|].ticket == k;
      } else {
        assert l.Awaiting(k);
        var i :| 0 <= i < |flight| && flight[i].ticket == k;
        assert now[i].ticket == k;
      }
    }
  }

  /** Filling the slot of the event at position `i` retires that event and no other. */
  lemma TicketRetired(l: Ledger, flight: seq<Event>, issued: seq<seq<byte>>, i: nat, reply: seq<byte>)
    requires l.Next() <= |issued| && Tickets(l, flight, issued)
    requires i < |flight| && l.Live(flight[i].ticket)
    ensures Tickets(l.Fill(flight[i].ticket, reply), flight[..i] + flight[i + 1..], issued)
  {
    var now := flight[..i] + flight[i + 1..];
    var l' := l.Fill(flight[i].ticket, reply);
    assert forall j | 0 <= j < |now| :: now[j] == flight[if j < i then j else j + 1];
    forall k | l'.Awaiting(k)
      ensures HasTicket(now, k)
    {
      assert l.Awaiting(k);
      var j :| 0 <= j < |flight| && flight[j].ticket == k;
      assert now[if j < i then j else j - 1].ticket == k;
    }
  }

  /** The head of the slots leaves; it was not awaiting anything. */
  lemma TicketsPassed(l: Ledger, flight: seq<Event>, issued: seq<seq<byte>>)
    requires l.Next() <= |issued| && Tickets(l, flight, issued) && l.HeadReady()
    ensures Tickets(l.Take(), flight, issued)
  {
    assert forall k | 0 <= k < l.Next() :: l.Take().Awaiting(k) == l.Awaiting(k);
  }

  lemma ThreadTakesKeeps(s: System)
    requires Inv(s) && Enabled(s, ThreadTakes)
    ensures Inv(Next(s, ThreadTakes))
  {
    hide FrameAll, Feed;
    var s' := Next(s, ThreadTakes);
    assert InFlight(s') == InFlight(s);
    forall k | 0 <= k < s'.slots.Next()
      ensures SlotAnswered(s', k)
    {
      assert SlotAnswered(s, k);
    }
  }

  lemma ThreadAnswersKeeps(s: System, i: nat, reply: seq<byte>)
    requires Inv(s) && Enabled(s, ThreadAnswers(i, reply))
    ensures Inv(Next(s, ThreadAnswers(i, reply)))
  {
    hide FrameAll, Feed;
    var s' := Next(s, ThreadAnswers(i, reply));
    var e := s.running[i];
    assert InFlight(s)[i] == e;
    assert InFlight(s') == InFlight(s)[..i] + InFlight(s)[i + 1..];
    TicketRetired(s.slots, InFlight(s), s.issued, i, reply);
    AnswerRecorded(s, s', e, reply);
  }

  lemma AnswerRecorded(s: System, s': System, e: Event, reply: seq<byte>)
    requires s.slots.Next() <= |s.issued| && s.issued == s'.issued
    requires Answers(s) && Sendable(reply) && s.slots.Live(e.ticket) && e.request == s.issued[e.ticket]
    requires s'.slots == s.slots.Fill(e.ticket, reply) && s'.answered == s.answered[e.ticket := (e.request, reply)]
    ensures Answers(s')
  {
    forall k | 0 <= k < s'.slots.Next()
      ensures SlotAnswered(s', k)
    {
      assert SlotAnswered(s, k);
      assert k != e.ticket ==> s'.slots.History()[k] == s.slots.History()[k];
    }
  }

  lemma ServerTakesKeeps(s: System)
    requires Inv(s) && Enabled(s, ServerTakes)
    ensures Inv(Next(s, ServerTakes))
  {
    hide FrameAll, Feed;
    var s' := Next(s, ServerTakes);
    var reply := s.slots.cells[0].value;
    var b := |s.slots.taken|;
    assert SlotAnswered(s, b);
    assert s.slots.History()[b] == Some(reply);
    FrameAllSnoc(0, s.slots.taken, reply);
    assert s.clientGot + s.toClient + s.serverOwes == s.clientGot + s.toClient;
    assert InFlight(s') == InFlight(s);
    TicketsPassed(s.slots, InFlight(s), s.issued);
    forall k | 0 <= k < s'.slots.Next()
      ensures SlotAnswered(s', k)
    {
      assert SlotAnswered(s, k);
      assert s'.slots.History()[k] == s.slots.History()[k];
    }
  }

  lemma ServerSendsKeeps(s: System, n: nat)
    requires Inv(s) && Enabled(s, ServerSends(n))
    ensures Inv(Next(s, ServerSends(n)))
  {
    hide FrameAll, Feed;
    var s' := Next(s, ServerSends(n));
    assert s'.clientGot + s'.toClient + s'.serverOwes == s.clientGot + s.toClient + s.serverOwes;
    assert InFlight(s') == InFlight(s);
    forall k | 0 <= k < s'.slots.Next()
      ensures SlotAnswered(s', k)
    {
      assert SlotAnswered(s, k);
    }
  }

  lemma ClientReceivesKeeps(s: System, n: nat)
    requires Inv(s) && Enabled(s, ClientReceives(n))
    ensures Inv(Next(s, ClientReceives(n)))
  {
    hide FrameAll, Feed;
    var s' := Next(s, ClientReceives(n));
    var chunk := s.toClient[..n];
    var r' := Feed(Message, s.clientReader, chunk);
    FeedAppend(Message, START, s.clientGot, chunk);
    AtMostOne(s.clientReader, chunk);
    var t := s.(toClient := s.toClient[n..], clientGot := s.clientGot + chunk, clientReader := r');
    assert t.clientGot + t.toClient + t.serverOwes == s.clientGot + s.toClient + s.serverOwes;
    ReplyPrefix(t);
    assert InFlight(s') == InFlight(s);
    if |r'.out| > |s.clientReader.out| {
      assert r'.out[|s.clientReader.out|] in s.slots.taken;
    }
    forall k | 0 <= k < s'.slots.Next()
      ensures SlotAnswered(s', k)
    {
      assert SlotAnswered(s, k);
    }
  }

  lemma NextKeeps(s: System, step: Step)
    requires Inv(s) && Enabled(s, step)
    ensures Inv(Next(s, step))
  {
    match step
    case Enqueue(request) => EnqueueKeeps(s, request);
    case ClientTakes => ClientTakesKeeps(s);
    case ClientSends(n) => ClientSendsKeeps(s, n);
    case ServerReceives(n) => ServerReceivesKeeps(s, n);
    case ThreadTakes => ThreadTakesKeeps(s);
    case ThreadAnswers(i, reply) => ThreadAnswersKeeps(s, i, reply);
    case ServerTakes => ServerTakesKeeps(s);
    case ServerSends(n) => ServerSendsKeeps(s, n);
    case ClientReceives(n) => ClientReceivesKeeps(s, n);
  }

  lemma {:induction false} RunKeeps(s: System, steps: seq<Step>)
    requires Inv(s) && ValidRun(s, steps)
    ensures Inv(Run(s, steps))
    decreases |steps|
  {
    if steps != [] {
      NextKeeps(s, steps[0]);
      RunKeeps(Next(s, steps[0]), steps[1..]);
    }
  }

  // ----- the claims

  /** In every reachable state, whatever the interleaving: the callbacks called so far are the first
      ones queued, each exactly once and in order, and callback `k` got what the handler of request `k`
      answered to request `k`.  Nothing undefined has happened on the way. */
  lemma CallbackGetsItsReply(threads: nat, steps: seq<Step>)
    requires ValidRun(Init(threads), steps)
    ensures var s := Run(Init(threads), steps);
            && !s.failed
            && |s.calls| <= |s.issued|
            && forall k | 0 <= k < |s.calls| ::
                 && s.calls[k].callback == k
                 && k in s.answered
                 && s.answered[k] == (s.issued[k], s.calls[k].reply)
  {
    InitInv(threads);
    RunKeeps(Init(threads), steps);
    var s := Run(Init(threads), steps);
    ReplyPrefix(s);
    forall k | 0 <= k < |s.calls|
      ensures s.calls[k].callback == k && k in s.answered && s.answered[k] == (s.issued[k], s.calls[k].reply)
    {
      assert SlotAnswered(s, k);
      assert s.slots.History()[k] == Some(s.slots.taken[k]);
    }
  }

  /** A step the system can take without a new request. */
  ghost predicate CanMove(s: System)
    requires ReadersFormed(s)
  {
    exists step: Step :: !step.Enqueue? && Enabled(s, step)
  }

  /** The protocol cannot get stuck: a reachable state in which no step but a new request is possible
      is one in which every callback has been called. */
  lemma StuckMeansServed(s: System)
    requires Inv(s) && 0 < s.threads && !CanMove(s)
    ensures |s.calls| == |s.issued|
  {
    hide FrameAll, Feed;
    assert !Enabled(s, ClientTakes) && !Enabled(s, ThreadTakes) && !Enabled(s, ServerTakes);
    assert !Enabled(s, ClientSends(1)) && !Enabled(s, ServerSends(1));
    assert !Enabled(s, ThreadAnswers(0, [0]));
    assert s.clientOwes == [] && s.serverOwes == [] && s.outbox == [] && s.running == [] && s.events == [];
    assert s.issued[..|s.issued|] == s.issued;
    RequestPrefix(s);
    ReplyPrefix(s);
    NotOversized(s);
    assert !Enabled(s, ServerReceives(1)) && !Enabled(s, ClientReceives(1));
    assert s.toServer == [] && s.toClient == [];
    assert !s.slots.Awaiting(|s.slots.taken|);
  }

  /** Neither reader has refused its stream. */
  lemma NotOversized(s: System)
    requires RequestStream(s) && ReplyStream(s)
    ensures !s.serverReader.state.Oversized? && !s.clientReader.state.Oversized?
    ensures 0 < Wanted(Message, s.serverReader.state) && 0 < Wanted(Message, s.clientReader.state)
  {
    var sent := s.issued[..|s.issued| - |s.outbox|];
    forall m | m in sent
      ensures Sendable(m)
    {
      assert m in s.issued;
    }
    assert s.serverGot + (s.toServer + s.clientOwes) == FrameAll(0, sent);
    assert s.clientGot + (s.toClient + s.serverOwes) == FrameAll(0, s.slots.taken);
    StreamAccepted(sent, s.serverGot, s.toServer + s.clientOwes);
    StreamAccepted(s.slots.taken, s.clientGot, s.toClient + s.serverOwes);
  }

  // ----- every run finishes

  /** Steps that one reply can still cost from its slot on, and one request from its dispatch on. */
  const REPLY_COST: nat := 1 + 2 * (MAX_MESSAGE + 4)
  const REQUEST_COST: nat := REPLY_COST + 2

  /** An upper bound on the steps left: a byte costs a send and a receive. */
  function Rank(s: System): nat
    requires |s.serverReader.out| <= |s.issued|
  {
    REQUEST_COST * (|s.issued| - |s.serverReader.out|)
    + 2 * |FrameAll(0, s.outbox)| + |s.outbox| + 2 * |s.clientOwes| + |s.toServer|
    + 2 * |s.events| + |s.running|
    + REPLY_COST * |s.slots.cells| + 2 * |s.serverOwes| + |s.toClient|
  }

  lemma ClientTakesRanked(s: System)
    requires ReadersFormed(s) && Enabled(s, ClientTakes) && |s.serverReader.out| <= |s.issued|
    ensures Rank(Next(s, ClientTakes)) < Rank(s)
  {
    hide Frame;
    assert FrameAll(0, s.outbox) == Frame(0, s.outbox[0]) + FrameAll(0, s.outbox[1..]);
  }

  lemma ServerTakesRanked(s: System)
    requires ReadersFormed(s) && Enabled(s, ServerTakes) && |s.serverReader.out| <= |s.issued|
    requires Sendable(s.slots.cells[0].value)
    ensures Rank(Next(s, ServerTakes)) < Rank(s)
  {
    hide FrameAll, SizePrefix;
    var reply := s.slots.cells[0].value;
    assert |Frame(0, reply)| <= MAX_MESSAGE + 4;
    assert |Next(s, ServerTakes).slots.cells| == |s.slots.cells| - 1;
  }

  lemma ServerReceivesRanked(s: System, n: nat)
    requires ReadersFormed(s) && Enabled(s, ServerReceives(n))
    requires |s.serverReader.out| <= |Next(s, ServerReceives(n)).serverReader.out| <= |s.issued|
    ensures Rank(Next(s, ServerReceives(n))) < Rank(s)
  {
    hide FrameAll, Feed;
    AtMostOne(s.serverReader, s.toServer[..n]);
  }

  /** The steps that only move bytes or events. */
  lemma MoveRanked(s: System, step: Step)
    requires ReadersFormed(s) && Enabled(s, step) && |s.serverReader.out| <= |s.issued|
    requires !step.Enqueue? && !step.ClientTakes? && !step.ServerTakes? && !step.ServerReceives?
    ensures Next(s, step).serverReader == s.serverReader && Next(s, step).issued == s.issued
    ensures Rank(Next(s, step)) < Rank(s)
  {
    hide FrameAll, Feed;
    OtherFrame(s, step);
    match step
    case ClientReceives(n) => ClientReceivesRanked(s, n);
    case ThreadAnswers(i, reply) => ThreadAnswersRanked(s, i, reply);
    case _ => hide ClientReceive, Activate;
  }

  lemma ClientReceivesRanked(s: System, n: nat)
    requires ReadersFormed(s) && Enabled(s, ClientReceives(n)) && |s.serverReader.out| <= |s.issued|
    ensures Rank(Next(s, ClientReceives(n))) < Rank(s)
  {
    hide FrameAll, Feed;
  }

  lemma ThreadAnswersRanked(s: System, i: nat, reply: seq<byte>)
    requires ReadersFormed(s) && Enabled(s, ThreadAnswers(i, reply)) && |s.serverReader.out| <= |s.issued|
    ensures Rank(Next(s, ThreadAnswers(i, reply))) < Rank(s)
  {
    hide FrameAll, Feed;
  }

  lemma OtherFrame(s: System, step: Step)
    requires ReadersFormed(s) && Enabled(s, step) && !step.Enqueue? && !step.ServerReceives?
    ensures Next(s, step).issued == s.issued && Next(s, step).threads == s.threads
    ensures Next(s, step).serverReader == s.serverReader
  {
    hide FrameAll, Feed;
  }

  lemma ReceiveFrame(s: System, n: nat)
    requires ReadersFormed(s) && Enabled(s, ServerReceives(n))
    ensures var s' := Next(s, ServerReceives(n));
            s'.issued == s.issued && s'.threads == s.threads && s.serverReader.out <= s'.serverReader.out
  {
    hide FrameAll, Feed;
  }

  lemma StepFrame(s: System, step: Step)
    requires ReadersFormed(s) && Enabled(s, step) && !step.Enqueue?
    ensures Next(s, step).issued == s.issued && Next(s, step).threads == s.threads
    ensures s.serverReader.out <= Next(s, step).serverReader.out
  {
    hide Next, Feed;
    match step
    case ServerReceives(n) => ReceiveFrame(s, n);
    case _ => OtherFrame(s, step);
  }

  lemma StepRanked(s: System, step: Step)
    requires Inv(s) && Enabled(s, step) && !step.Enqueue?
    ensures |Next(s, step).serverReader.out| <= |s.issued| == |Next(s, step).issued|
    ensures Rank(Next(s, step)) < Rank(s)
  {
    NextKeeps(s, step);
    StepFrame(s, step);
    hide FrameAll, Feed, Rank, Next, RequestStream, ReplyStream, Callbacks, Tickets, Answers;
    match step
    case ClientTakes => ClientTakesRanked(s);
    case ServerTakes => SlotSendable(s); ServerTakesRanked(s);
    case ServerReceives(n) => ServerReceivesRanked(s, n);
    case _ => MoveRanked(s, step);
  }

  lemma SlotSendable(s: System)
    requires Inv(s) && s.slots.HeadReady()
    ensures Sendable(s.slots.cells[0].value)
  {
    assert SlotAnswered(s, |s.slots.taken|);
    assert s.slots.History()[|s.slots.taken|] == s.slots.cells[0];
  }

  /** Without new requests, no schedule runs for ever; and when a schedule cannot be continued, every
      callback has been called.  So under any scheduler every callback is eventually called, once. */
  lemma {:induction false} EveryCallbackIsCalled(s: System, steps: seq<Step>)
    requires Inv(s) && 0 < s.threads && ValidRun(s, steps)
    requires forall step | step in steps :: !step.Enqueue?
    ensures |steps| <= Rank(s)
    ensures Run(s, steps).issued == s.issued
    ensures !CanMove(Run(s, steps)) ==> |Run(s, steps).calls| == |s.issued|
    decreases |steps|
  {
    if steps == [] {
      if !CanMove(s) {
        StuckMeansServed(s);
      }
    } else {
      var s' := Next(s, steps[0]);
      NextKeeps(s, steps[0]);
      assert steps[0] in steps;
      StepRanked(s, steps[0]);
      StepFrame(s, steps[0]);
      EveryCallbackIsCalled(s', steps[1..]);
    }
  }
}
