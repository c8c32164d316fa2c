/** A call of `Common::WriteMessage` on a real connection is a run of the writer's steps of `Multiplex`, on the server
    and on the client. */
module WriterLinks {
  import opened Bytes
  import opened Options
  import opened Framing
  import opened Slots
  import C = Connection
  import M = Multiplex
  import Map32

  lemma {:induction false} FrameAllGrows(a: seq<seq<byte>>, b: seq<seq<byte>>)
    requires a <= b
    ensures FrameAll(0, a) <= FrameAll(0, b)
    decreases |b|
  {
    if |a| < |b| {
      var front := b[..|b| - 1];
      assert front + [b[|b| - 1]] == b;
      FrameAllSnoc(0, front, b[|b| - 1]);
      FrameAllGrows(a, front);
    } else {
      assert a == b;
    }
  }

  /** What a writer that has sent `wire` and owes the rest of its frames may do next. */
  lemma NextBytes(taken: seq<seq<byte>>, wire: seq<byte>, owes: seq<byte>, taken': seq<seq<byte>>, wire': seq<byte>) returns (n: nat)
    requires wire + owes == FrameAll(0, taken) && SentInOrder(0, taken, wire, taken', wire') && wire' <= FrameAll(0, taken')
    ensures n <= |owes| && wire + owes[..n] <= wire'
    ensures n == 0 ==> owes == [] || (wire == wire' && taken' == taken)
    ensures owes == [] && taken' == taken ==> wire' == wire
  {
    hide FrameAll;
    FrameAllGrows(taken, taken');
    n := if |wire'| - |wire| < |owes| then |wire'| - |wire| else |owes|;
    var all := FrameAll(0, taken');
    assert wire + owes <= all;
    assert wire + owes[..n] == all[..|wire| + n] == wire'[..|wire| + n];
    if taken' != taken {
      FrameAllGrows(taken, taken'[..|taken'| - 1]);
      assert |wire + owes| <= |wire'|;
    }
  }

  // ----- the server's writer

  /** The connection holds the server's writing end of the system. */
  ghost predicate ServerHolds(c: C.Connection, s: M.System)
    reads c, c.slots, c.slots.queue
  {
    c.Sending(0) && c.slots.View() == s.slots && c.wire == s.clientGot + s.toClient
  }

  /** The system can come to have released what `l` has, with `wire` sent. */
  ghost predicate ServerCan(s: M.System, l: Ledger, wire: seq<byte>) {
    && M.Inv(s) && l.History() == s.slots.History()
    && SentInOrder(0, s.slots.taken, s.clientGot + s.toClient, l.taken, wire) && wire <= FrameAll(0, l.taken)
  }

  lemma SameLedger(l: Ledger, l': Ledger)
    requires l.History() == l'.History() && |l.taken| == |l'.taken|
    ensures l == l'
  {
    assert forall i | 0 <= i < |l.taken| :: l.History()[i] == Some(l.taken[i]) && l'.History()[i] == Some(l'.taken[i]);
    assert l.cells == l.History()[|l.taken|..] && l'.cells == l'.History()[|l.taken|..];
  }

  /** The head that the other ledger has released is ready in this one. */
  lemma HeadIsReady(l: Ledger, l': Ledger)
    requires l.History() == l'.History() && l.taken <= l'.taken && l.taken != l'.taken
    ensures l.HeadReady() && l.Take().taken <= l'.taken && l.Take().History() == l.History()
  {
    var k := |l.taken|;
    assert l'.History()[k] == Some(l'.taken[k]);
    assert l.History()[k] == l.cells[0];
    TakeKeepsHistory(l);
  }

  lemma ServerTakesOn(s: M.System, l: Ledger, wire: seq<byte>)
    requires ServerCan(s, l, wire) && s.serverOwes == [] && l.taken != s.slots.taken
    ensures M.ReadersFormed(s) && M.Enabled(s, M.ServerTakes)
    ensures var s1 := M.Next(s, M.ServerTakes);
            ServerCan(s1, l, wire) && |s1.slots.taken| == |s.slots.taken| + 1
  {
    hide Feed, FrameAll, Frame;
    HeadIsReady(s.slots, l);
    M.NextKeeps(s, M.ServerTakes);
    assert s.slots.Take().taken == s.slots.taken + [s.slots.cells[0].value];
  }

  lemma ServerSendsOn(s: M.System, l: Ledger, wire: seq<byte>, n: nat)
    requires ServerCan(s, l, wire) && 0 < n <= |s.serverOwes|
    requires s.clientGot + s.toClient + s.serverOwes[..n] <= wire
    ensures M.ReadersFormed(s) && M.Enabled(s, M.ServerSends(n))
    ensures var s1 := M.Next(s, M.ServerSends(n));
            ServerCan(s1, l, wire) && s1.slots == s.slots && |s1.clientGot + s1.toClient| == |s.clientGot + s.toClient| + n
  {
    hide Feed, FrameAll;
    var s1 := M.Next(s, M.ServerSends(n));
    M.NextKeeps(s, M.ServerSends(n));
    assert s1.clientGot + s1.toClient == s.clientGot + s.toClient + s.serverOwes[..n];
  }

  lemma {:induction false} ServerWriteRun(s: M.System, l: Ledger, wire: seq<byte>) returns (steps: seq<M.Step>)
    requires ServerCan(s, l, wire)
    ensures forall step | step in steps :: step.ServerTakes? || step.ServerSends?
    ensures M.ReadersFormed(s) && M.ValidRun(s, steps) && M.Inv(M.Run(s, steps))
    ensures var s' := M.Run(s, steps); s'.slots == l && s'.clientGot + s'.toClient == wire
    decreases |l.taken| - |s.slots.taken|, |wire| - |s.clientGot + s.toClient|
  {
    hide Feed, FrameAll, M.Next, M.Callbacks, M.Tickets, M.Answers;
    steps := [];
    var n := NextBytes(s.slots.taken, s.clientGot + s.toClient, s.serverOwes, l.taken, wire);
    var first;
    if n > 0 {
      ServerSendsOn(s, l, wire, n);
      first := M.ServerSends(n);
    } else if l.taken != s.slots.taken {
      ServerTakesOn(s, l, wire);
      first := M.ServerTakes;
    } else {
      SameLedger(s.slots, l);
      return;
    }
    hide ServerCan, M.Inv;
    var rest := ServerWriteRun(M.Next(s, first), l, wire);
    steps := [first] + rest;
    assert steps[1..] == rest;
  }

  /** A call of `Common::WriteMessage` on the server, however the socket takes the bytes, is a run of the writer's steps:
      afterwards the protocol has released the same slots and the same bytes are on their way. */
  method ServerWrites(c: C.Connection, ghost s: M.System) returns (ok: bool, ghost steps: seq<M.Step>)
    requires M.Inv(s) && ServerHolds(c, s)
    modifies c.slots, c`answers, c`asked, c`wire, c`writeOffset, c`writeBuffer, c`writeCount, c`writeBytes, c`acknowledged, c`priority
    ensures M.ReadersFormed(s) && M.ValidRun(s, steps) && forall step | step in steps :: step.ServerTakes? || step.ServerSends?
    ensures var s' := M.Run(s, steps);
            && M.Inv(s') && s'.slots == c.slots.View() && s'.clientGot + s'.toClient == c.wire
            && (ok ==> ServerHolds(c, s') && s'.serverOwes == c.writeBuffer[c.writeOffset..])
    ensures ok <==> C.Calm(old(c.answers), old(c.asked), c.answers, c.asked)
  {
    hide C.Calm, C.Lost, Feed, FrameAll, C.Requests, Concat;
    ok := c.WriteMessage(0);
    steps := ServerWriteRun(s, c.slots.View(), c.wire);
    ghost var s' := M.Run(s, steps);
    if ok {
      Map32.SameFront(c.wire, c.writeBuffer[c.writeOffset..], s'.serverOwes);
    }
  }

  // ----- the client's writer

  /** What the client's writer has taken of the requests issued. */
  function Taken(s: M.System): seq<seq<byte>>
    requires |s.outbox| <= |s.issued|
  {
    s.issued[..|s.issued| - |s.outbox|]
  }

  /** A queue of ready places: `AsyncWriteCallback` puts nothing else in. */
  function AllReady(taken: seq<seq<byte>>, waiting: seq<seq<byte>>): Ledger {
    Ledger(taken, seq(|waiting|, i requires 0 <= i < |waiting| => Some(waiting[i])))
  }

  /** The connection holds the client's writing end of the system. */
  ghost predicate ClientHolds(c: C.Connection, s: M.System)
    requires M.Inv(s)
    reads c, c.slots, c.slots.queue
  {
    c.Sending(0) && c.slots.View() == AllReady(Taken(s), s.outbox) && c.wire == s.serverGot + s.toServer
  }

  ghost predicate ClientCan(s: M.System, taken: seq<seq<byte>>, wire: seq<byte>) {
    && M.Inv(s) && taken <= s.issued
    && SentInOrder(0, Taken(s), s.serverGot + s.toServer, taken, wire) && wire <= FrameAll(0, taken)
  }

  lemma ClientTakesOn(s: M.System, taken: seq<seq<byte>>, wire: seq<byte>)
    requires ClientCan(s, taken, wire) && s.clientOwes == [] && taken != Taken(s)
    ensures M.ReadersFormed(s) && M.Enabled(s, M.ClientTakes)
    ensures var s1 := M.Next(s, M.ClientTakes);
            ClientCan(s1, taken, wire) && s1.issued == s.issued && |Taken(s1)| == |Taken(s)| + 1
  {
    hide Feed, FrameAll, Frame;
    var s1 := M.Next(s, M.ClientTakes);
    M.NextKeeps(s, M.ClientTakes);
    assert Taken(s1) == s.issued[..|Taken(s)| + 1];
    assert Taken(s1) <= taken;
  }

  lemma ClientSendsOn(s: M.System, taken: seq<seq<byte>>, wire: seq<byte>, n: nat)
    requires ClientCan(s, taken, wire) && 0 < n <= |s.clientOwes|
    requires s.serverGot + s.toServer + s.clientOwes[..n] <= wire
    ensures M.ReadersFormed(s) && M.Enabled(s, M.ClientSends(n))
    ensures var s1 := M.Next(s, M.ClientSends(n));
            && ClientCan(s1, taken, wire) && s1.issued == s.issued && s1.outbox == s.outbox
            && |s1.serverGot + s1.toServer| == |s.serverGot + s.toServer| + n
  {
    hide Feed, FrameAll;
    var s1 := M.Next(s, M.ClientSends(n));
    M.NextKeeps(s, M.ClientSends(n));
    assert s1.serverGot + s1.toServer == s.serverGot + s.toServer + s.clientOwes[..n];
  }

  lemma {:induction false} ClientWriteRun(s: M.System, taken: seq<seq<byte>>, wire: seq<byte>) returns (steps: seq<M.Step>)
    requires ClientCan(s, taken, wire)
    ensures forall step | step in steps :: step.ClientTakes? || step.ClientSends?
    ensures M.ReadersFormed(s) && M.ValidRun(s, steps) && M.Inv(M.Run(s, steps))
    ensures var s' := M.Run(s, steps); s'.issued == s.issued && Taken(s') == taken && s'.serverGot + s'.toServer == wire
    decreases |taken| - |Taken(s)|, |wire| - |s.serverGot + s.toServer|
  {
    hide Feed, FrameAll, M.Next, M.Callbacks, M.Tickets, M.Answers;
    steps := [];
    var n := NextBytes(Taken(s), s.serverGot + s.toServer, s.clientOwes, taken, wire);
    var first;
    if n > 0 {
      ClientSendsOn(s, taken, wire, n);
      first := M.ClientSends(n);
    } else if taken != Taken(s) {
      ClientTakesOn(s, taken, wire);
      first := M.ClientTakes;
    } else {
      return;
    }
    hide ClientCan, M.Inv;
    var rest := ClientWriteRun(M.Next(s, first), taken, wire);
    steps := [first] + rest;
    assert steps[1..] == rest;
  }

  /** Places that were all ready leave in order, and those left are ready. */
  lemma ReadyLeaves(issued: seq<seq<byte>>, n: nat, l: Ledger)
    requires n <= |issued| && l.History() == AllReady(issued[..n], issued[n..]).History()
    ensures l.taken <= issued && l == AllReady(l.taken, issued[|l.taken|..])
  {
    var h := l.History();
    assert |h| == |issued|;
    forall i | 0 <= i < |issued|
      ensures h[i] == Some(issued[i])
    {
      assert AllReady(issued[..n], issued[n..]).History()[i] == Some(issued[i]);
    }
    assert forall i | 0 <= i < |l.taken| :: h[i] == Some(l.taken[i]);
    assert l.cells == h[|l.taken|..];
    assert l.cells == AllReady(l.taken, issued[|l.taken|..]).cells;
  }

  /** The same on the client. */
  method ClientWrites(c: C.Connection, ghost s: M.System) returns (ok: bool, ghost steps: seq<M.Step>)
    requires M.Inv(s) && ClientHolds(c, s)
    modifies c.slots, c`answers, c`asked, c`wire, c`writeOffset, c`writeBuffer, c`writeCount, c`writeBytes, c`acknowledged, c`priority
    ensures M.ReadersFormed(s) && M.ValidRun(s, steps) && forall step | step in steps :: step.ClientTakes? || step.ClientSends?
    ensures var s' := M.Run(s, steps);
            && M.Inv(s') && c.slots.View() == AllReady(Taken(s'), s'.outbox) && s'.serverGot + s'.toServer == c.wire
            && (ok ==> ClientHolds(c, s') && s'.clientOwes == c.writeBuffer[c.writeOffset..])
    ensures ok <==> C.Calm(old(c.answers), old(c.asked), c.answers, c.asked)
  {
    hide C.Calm, C.Lost, Feed, FrameAll, C.Requests, Concat;
    ok := c.WriteMessage(0);
    ghost var taken := c.slots.taken;
    ReadyLeaves(s.issued, |Taken(s)|, c.slots.View());
    steps := ClientWriteRun(s, taken, c.wire);
    ghost var s' := M.Run(s, steps);
    assert s'.outbox == s.issued[|taken|..];
    if ok {
      Map32.SameFront(c.wire, c.writeBuffer[c.writeOffset..], s'.clientOwes);
    }
  }
}
