/** Where the state machines meet the readers: a call of a reader on a real connection is a reader visit of
    `Lifecycle`, and a run of receive steps of `Multiplex`. */
module Links {
  import opened Bytes
  import opened Framing
  import C = Connection
  import Map32
  import L = Lifecycle
  import M = Multiplex

  /** The connection types whose reader stops after one request unless multiplexed. */
  datatype Kind = Messages | Pdus | Maps

  ghost predicate InSync(c: C.Connection, kind: Kind)
    reads c
  {
    match kind
    case Messages => c.InSync(Message)
    case Pdus => c.InSync(Iscsi)
    case Maps => c.InSyncMap()
  }

  /** The bytes consumed announce more than the reader accepts. */
  ghost predicate Refused(c: C.Connection, kind: Kind)
    reads c
  {
    match kind
    case Messages => Feed(Message, START, c.consumed).state.Oversized?
    case Pdus => Feed(Iscsi, START, c.consumed).state.Oversized?
    case Maps => false
  }

  lemma {:induction false} RequestsAppend(a: seq<seq<byte>>, b: seq<seq<byte>>)
    ensures C.Requests(a + b) == C.Requests(a) + C.Requests(b)
    decreases |b|
  {
    if b == [] {
      assert a + b == a;
    } else {
      assert (a + b)[..|a + b| - 1] == a + b[..|b| - 1];
      RequestsAppend(a, b[..|b| - 1]);
    }
  }

  /** More bytes never take back a delivery. */
  lemma DeliveriesGrow(p: Protocol, before: seq<byte>, after: seq<byte>)
    requires before <= after
    ensures Feed(p, START, before).out <= Feed(p, START, after).out
  {
    assert after == before + after[|before|..];
    FeedAppend(p, START, before, after[|before|..]);
  }

  /** `DoRead` for these types, and what the pump learns from it: whether the connection survived, and how many
      requests were passed on.  That a connection without multiplexing passes on one at most is the readers' doing. */
  method DoRead(c: C.Connection, kind: Kind, idleIn: bool, ghost conn: L.Conn) returns (ok: bool, idle: bool, ghost o: L.Outcome)
    requires InSync(c, kind) && conn.multiplex == c.multiplex
    modifies c`inbound, c`answers, c`asked, c`consumed, c`readOffset, c`readBuffer, c`readCount, c`delivered
    ensures old(c.delivered) <= c.delivered
    ensures o == L.Outcome(ok, C.Requests(c.delivered[|old(c.delivered)|..])) && L.Plausible(conn, o)
    ensures ok ==> InSync(c, kind)
    ensures ok <==> C.Calm(old(c.answers), old(c.asked), c.answers, c.asked) && !Refused(c, kind)
  {
    hide C.Calm, C.Lost, Feed, C.Requests, Map32.InStep, Spelled, FrameAll;
    match kind {
      case Messages =>
        ok, idle := c.MessageRead(idleIn);
        DeliveriesGrow(Message, old(c.consumed), c.consumed);
      case Pdus =>
        ok, idle := c.IscsiRead(idleIn);
        DeliveriesGrow(Iscsi, old(c.consumed), c.consumed);
      case Maps =>
        ok, idle := c.MapRead(idleIn);
        AtMostOneRequest(c.delivered[|old(c.delivered)|..]);
    }
    ghost var more := c.delivered[|old(c.delivered)|..];
    assert c.delivered == old(c.delivered) + more;
    RequestsAppend(old(c.delivered), more);
    o := L.Outcome(ok, C.Requests(more));
  }

  lemma AtMostOneRequest(more: seq<seq<byte>>)
    ensures |more| <= 1 ==> C.Requests(more) <= 1
  {
  }

  /** Any number of bytes in flight can be received, a byte at a time. */
  lemma {:induction false} ReceiveBytes(s: M.System, n: nat) returns (steps: seq<M.Step>)
    requires M.Inv(s) && n <= |s.toServer|
    ensures forall step | step in steps :: step.ServerReceives?
    ensures M.ValidRun(s, steps) && M.Inv(M.Run(s, steps))
    ensures M.Run(s, steps).serverGot == s.serverGot + s.toServer[..n] && M.Run(s, steps).toServer == s.toServer[n..]
    decreases n
  {
    hide Feed, FrameAll, M.Inv, M.Next, M.Enabled, M.ReadersFormed;
    steps := [];
    if n == 0 {
      assert s.serverGot + s.toServer[..0] == s.serverGot;
    } else {
      OneReceived(s);
      var first := M.ServerReceives(1);
      var rest := ReceiveBytes(M.Next(s, first), n - 1);
      steps := [first] + rest;
      assert steps[1..] == rest;
      assert s.serverGot + s.toServer[..1] + s.toServer[1..][..n - 1] == s.serverGot + s.toServer[..n];
      assert s.toServer[1..][n - 1..] == s.toServer[n..];
    }
  }

  lemma OneReceived(s: M.System)
    requires M.Inv(s) && s.toServer != []
    ensures M.ReadersFormed(s) && M.Enabled(s, M.ServerReceives(1))
    ensures var s1 := M.Next(s, M.ServerReceives(1));
            M.Inv(s1) && s1.serverGot == s.serverGot + s.toServer[..1] && s1.toServer == s.toServer[1..]
  {
    hide Feed, FrameAll, M.Callbacks, M.Tickets, M.Answers, M.Dispatch;
    M.NotOversized(s);
    OneMoved(s);
    hide M.Next;
    M.NextKeeps(s, M.ServerReceives(1));
  }

  lemma OneMoved(s: M.System)
    requires M.ReadersFormed(s) && M.Enabled(s, M.ServerReceives(1))
    ensures var s1 := M.Next(s, M.ServerReceives(1));
            s1.serverGot == s.serverGot + s.toServer[..1] && s1.toServer == s.toServer[1..]
  {
    hide Feed;
  }

  /** The connection holds the server's end of the system. */
  ghost predicate Holds(c: C.Connection, s: M.System)
    reads c
  {
    c.InSync(Message) && c.consumed == s.serverGot && c.inbound == s.toServer
  }

  /** A call of `Message::Read` on the server, however the socket cuts the bytes, is a run of receive steps of the
      protocol: afterwards the connection has delivered what the protocol's reader has, and there is one slot per
      delivered request. */
  method ServerReads(c: C.Connection, idleIn: bool, ghost s: M.System) returns (ok: bool, idle: bool, ghost steps: seq<M.Step>)
    requires M.Inv(s) && Holds(c, s)
    modifies c`inbound, c`answers, c`asked, c`consumed, c`readOffset, c`readBuffer, c`readCount, c`delivered
    ensures M.ValidRun(s, steps) && forall step | step in steps :: step.ServerReceives?
    ensures var s' := M.Run(s, steps);
            && M.Inv(s') && s'.serverGot == c.consumed && s'.toServer == c.inbound
            && s'.serverReader.out == c.delivered && s'.slots.Next() == |c.delivered|
            && (ok ==> Holds(c, s'))
    ensures ok <==> C.Calm(old(c.answers), old(c.asked), c.answers, c.asked)
  {
    hide C.Calm, C.Lost, Feed, FrameAll, C.Requests;
    ok, idle := c.MessageRead(idleIn);
    ghost var n := |c.consumed| - |s.serverGot|;
    assert s.serverGot + s.toServer == c.consumed + c.inbound;
    assert c.consumed == (c.consumed + c.inbound)[..|c.consumed|] == (s.serverGot + s.toServer)[..|s.serverGot| + n];
    assert c.consumed == s.serverGot + s.toServer[..n];
    assert c.inbound == (c.consumed + c.inbound)[|c.consumed|..] == (s.serverGot + s.toServer)[|s.serverGot| + n..] == s.toServer[n..];
    steps := ReceiveBytes(s, n);
    M.NotOversized(M.Run(s, steps));
  }

  // ----- the client's reader

  lemma {:induction false} ClientReceiveBytes(s: M.System, n: nat) returns (steps: seq<M.Step>)
    requires M.Inv(s) && n <= |s.toClient|
    ensures forall step | step in steps :: step.ClientReceives?
    ensures M.ValidRun(s, steps) && M.Inv(M.Run(s, steps))
    ensures M.Run(s, steps).clientGot == s.clientGot + s.toClient[..n] && M.Run(s, steps).toClient == s.toClient[n..]
    decreases n
  {
    hide Feed, FrameAll, M.Inv, M.Next, M.Enabled, M.ReadersFormed;
    steps := [];
    if n == 0 {
      assert s.clientGot + s.toClient[..0] == s.clientGot;
    } else {
      OneTold(s);
      var first := M.ClientReceives(1);
      var rest := ClientReceiveBytes(M.Next(s, first), n - 1);
      steps := [first] + rest;
      assert steps[1..] == rest;
      assert s.clientGot + s.toClient[..1] + s.toClient[1..][..n - 1] == s.clientGot + s.toClient[..n];
      assert s.toClient[1..][n - 1..] == s.toClient[n..];
    }
  }

  lemma OneTold(s: M.System)
    requires M.Inv(s) && s.toClient != []
    ensures M.ReadersFormed(s) && M.Enabled(s, M.ClientReceives(1))
    ensures var s1 := M.Next(s, M.ClientReceives(1));
            M.Inv(s1) && s1.clientGot == s.clientGot + s.toClient[..1] && s1.toClient == s.toClient[1..]
  {
    hide Feed, FrameAll, M.Callbacks, M.Tickets, M.Answers, M.CallBack;
    M.NotOversized(s);
    OneReplied(s);
    hide M.Next;
    M.NextKeeps(s, M.ClientReceives(1));
  }

  lemma OneReplied(s: M.System)
    requires M.ReadersFormed(s) && M.Enabled(s, M.ClientReceives(1))
    ensures var s1 := M.Next(s, M.ClientReceives(1));
            s1.clientGot == s.clientGot + s.toClient[..1] && s1.toClient == s.toClient[1..]
  {
    hide Feed;
  }

  /** The connection holds the client's reading end. */
  ghost predicate ClientHolds(c: C.Connection, s: M.System)
    reads c
  {
    c.InSync(Message) && c.consumed == s.clientGot && c.inbound == s.toClient
  }

  /** The same on the client: one callback has been called per delivered reply. */
  method ClientReads(c: C.Connection, idleIn: bool, ghost s: M.System) returns (ok: bool, idle: bool, ghost steps: seq<M.Step>)
    requires M.Inv(s) && ClientHolds(c, s)
    modifies c`inbound, c`answers, c`asked, c`consumed, c`readOffset, c`readBuffer, c`readCount, c`delivered
    ensures M.ValidRun(s, steps) && forall step | step in steps :: step.ClientReceives?
    ensures var s' := M.Run(s, steps);
            && M.Inv(s') && s'.clientGot == c.consumed && s'.toClient == c.inbound
            && s'.clientReader.out == c.delivered && |s'.calls| == |c.delivered|
            && (ok ==> ClientHolds(c, s'))
    ensures ok <==> C.Calm(old(c.answers), old(c.asked), c.answers, c.asked)
  {
    hide C.Calm, C.Lost, Feed, FrameAll, C.Requests;
    ok, idle := c.MessageRead(idleIn);
    ghost var n := |c.consumed| - |s.clientGot|;
    assert s.clientGot + s.toClient == c.consumed + c.inbound;
    assert c.consumed == (c.consumed + c.inbound)[..|c.consumed|] == (s.clientGot + s.toClient)[..|s.clientGot| + n];
    assert c.consumed == s.clientGot + s.toClient[..n];
    assert c.inbound == (c.consumed + c.inbound)[|c.consumed|..] == (s.clientGot + s.toClient)[|s.clientGot| + n..] == s.toClient[n..];
    steps := ClientReceiveBytes(s, n);
    M.NotOversized(M.Run(s, steps));
  }
}
