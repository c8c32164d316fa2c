/** A buffered connection: a non-blocking socket plus the buffers in which the framing readers and
    writers suspend themselves between calls. */
module Connection {
  import opened Bytes
  import opened Framing
  import opened Options
  import opened Slots
  import Map32

  /** One answer of the operating system to a send or receive: it would block, the connection is
      gone, or up to `n` bytes move (at least one, if there are any). */
  datatype Answer = WouldBlock | Broken | Ready(n: nat)

  /** How many of the messages are not pings. */
  function Requests(ms: seq<seq<byte>>): nat {
    if ms == [] then 0
    else Requests(ms[..|ms| - 1]) + if ms[|ms| - 1] == [] then 0 else 1
  }

  lemma RequestsSnoc(ms: seq<seq<byte>>, m: seq<byte>)
    ensures Requests(ms + [m]) == Requests(ms) + if m == [] then 0 else 1
  {
    assert (ms + [m])[..|ms|] == ms;
  }

  function Min(a: nat, b: nat): (r: nat)
    ensures r <= a && r <= b
  {
    if a < b then a else b
  }

  /** What `resize` adds to a buffer. */
  function Zeros(n: nat): (r: seq<byte>)
    ensures |r| == n
  {
    seq(n, _ => 0)
  }

  // ----- how the socket treated a call

  /** From `before` to `after` every question was answered, and no answer was that the connection is gone. */
  ghost predicate Calm(before: seq<Answer>, was: nat, after: seq<Answer>, now: nat) {
    && |after| <= |before| && after == before[|before| - |after|..]
    && now == was + |before| - |after|
    && Broken !in before[..|before| - |after|]
  }

  /** The connection was gone: the system said so, or had no answer left. */
  ghost predicate Lost(before: seq<Answer>, was: nat, after: seq<Answer>, now: nat) {
    && |after| <= |before| && after == before[|before| - |after|..]
    && !Calm(before, was, after, now)
    && (now == was + |before| - |after| + 1 ==> after == [])
    && was + |before| - |after| <= now <= was + |before| - |after| + 1
  }

  lemma Asks(before: seq<Answer>, was: nat)
    ensures Calm(before, was, before, was)
    ensures before == [] ==> Lost(before, was, before, was + 1)
    ensures before != [] && before[0] == Broken ==> Lost(before, was, before[1..], was + 1)
    ensures before != [] && before[0] != Broken ==> Calm(before, was, before[1..], was + 1)
  {
  }

  lemma CalmThen(a: seq<Answer>, i: nat, b: seq<Answer>, j: nat, c: seq<Answer>, k: nat)
    requires Calm(a, i, b, j)
    ensures Calm(b, j, c, k) ==> Calm(a, i, c, k)
    ensures Lost(b, j, c, k) ==> Lost(a, i, c, k)
  {
    if |c| <= |b| && c == b[|b| - |c|..] {
      assert b[|b| - |c|..] == a[|a| - |b|..][|b| - |c|..] == a[|a| - |c|..];
      assert a[..|a| - |c|] == a[..|a| - |b|] + b[..|b| - |c|] by {
        assert a == a[..|a| - |b|] + b;
      }
    }
  }

  /** The last answer was that nothing can move now. */
  ghost predicate BlockedLast(before: seq<Answer>, after: seq<Answer>) {
    |after| < |before| && before[|before| - |after| - 1].WouldBlock?
  }

  /** What one more step of a loop means for the whole call. */
  lemma Settled(a: seq<Answer>, i: nat, b: seq<Answer>, j: nat, c: seq<Answer>, k: nat)
    requires Calm(a, i, b, j)
    ensures Calm(b, j, c, k) ==> Calm(a, i, c, k)
    ensures Lost(b, j, c, k) ==> !Calm(a, i, c, k)
    ensures Calm(b, j, c, k) && b != [] && b[0].WouldBlock? && c == b[1..] ==> BlockedLast(a, c)
  {
    CalmThen(a, i, b, j, c, k);
  }

  class Connection {
    // The socket: what the peer has sent us, how the system will answer our calls (when the
    // answers run out the peer is gone), and what we have sent.
    var inbound: seq<byte>
    var answers: seq<Answer>
    var wire: seq<byte>
    /** How often the socket was asked. */
    ghost var asked: nat
    ghost var consumed: seq<byte>
    /** Where the map protocol's header reader last took over from a handler, in `consumed` and `delivered`. */
    ghost var mapMark: nat
    ghost var mapBase: nat

    const slots: SlotQueue
    var multiplex: bool
    var priority: int

    var readOffset: nat
    var readBuffer: seq<byte>
    var readCount: nat
    /** The messages passed to the reader's callback, oldest first. */
    var delivered: seq<seq<byte>>

    var writeOffset: nat
    var writeBuffer: seq<byte>
    var writeCount: nat
    var writeBytes: nat
    /** The indices passed to the writer's callback, oldest first. */
    var acknowledged: seq<nat>

    constructor (inbound: seq<byte>, answers: seq<Answer>, multiplex: bool)
      ensures this.inbound == inbound && this.answers == answers && this.multiplex == multiplex
      ensures wire == [] && consumed == [] && delivered == [] && acknowledged == []
      ensures InSync(Message) && InSync(Iscsi) && Sending(0) && SendingRaw()
      ensures InSyncMap() && mapMark == mapBase == 0
      ensures fresh(slots)
    {
      this.inbound, this.answers, this.multiplex := inbound, answers, multiplex;
      wire, asked, consumed, priority, mapMark, mapBase := [], 0, [], 0, 0, 0;
      readOffset, readBuffer, readCount, delivered := 0, [], 0, [];
      writeOffset, writeBuffer, writeCount, writeBytes, acknowledged := 0, [], 0, 0, [];
      slots := new SlotQueue();
    }

    // ----- the socket

    /** The next call will move at least one byte, if there is one to move. */
    predicate Responsive()
      reads `answers
    {
      answers != [] && answers[0].Ready?
    }

    /** The next call will find that nothing can move now. */
    predicate Blocked()
      reads `answers
    {
      answers != [] && answers[0].WouldBlock?
    }

    method Receive(max: nat) returns (r: int, data: seq<byte>)
      requires 0 < max
      modifies `inbound, `answers, `asked, `consumed
      ensures -1 <= r <= max && |data| == if r < 0 then 0 else r
      ensures old(inbound) == data + inbound && consumed == old(consumed) + data
      ensures r != -1 ==> |answers| < |old(answers)|
      ensures |answers| <= |old(answers)|
      ensures old(Responsive()) && old(inbound) != [] ==> 0 < r
      ensures if r == -1 then Lost(old(answers), old(asked), answers, asked) else Calm(old(answers), old(asked), answers, asked)
      ensures old(Blocked()) ==> r == 0 && answers == old(answers)[1..]
      ensures r == 0 ==> old(Blocked()) || inbound == []
    {
      Asks(answers, asked);
      asked := asked + 1;
      r, data := -1, [];
      if answers == [] {
        return;
      }
      var answer := answers[0];
      answers := answers[1..];
      match answer {
        case WouldBlock => r := 0;
        case Broken =>
        case Ready(n) =>
          r := Min(Min(if n == 0 then 1 else n, max), |inbound|);
          data, inbound, consumed := inbound[..r], inbound[r..], consumed + inbound[..r];
      }
    }

    method Send(data: seq<byte>) returns (r: int)
      requires data != []
      modifies `answers, `asked, `wire
      ensures -1 <= r <= |data|
      ensures wire == old(wire) + if r <= 0 then [] else data[..r]
      ensures r != -1 ==> |answers| < |old(answers)|
      ensures |answers| <= |old(answers)|
      ensures old(Responsive()) ==> 0 < r
      ensures if r == -1 then Lost(old(answers), old(asked), answers, asked) else Calm(old(answers), old(asked), answers, asked)
      ensures old(Blocked()) ==> r == 0 && answers == old(answers)[1..]
      ensures r == 0 ==> old(Blocked())
    {
      Asks(answers, asked);
      asked := asked + 1;
      r := -1;
      if answers == [] {
        return;
      }
      var answer := answers[0];
      answers := answers[1..];
      match answer {
        case WouldBlock => r := 0;
        case Broken =>
        case Ready(n) =>
          r := Min(if n == 0 then 1 else n, |data|);
          wire := wire + data[..r];
      }
    }

    /** `TcpConnection::Write`: insists until everything is sent or the connection is gone. */
    method Write(data: seq<byte>) returns (r: int)
      modifies `answers, `asked, `wire
      ensures r == -1 || r == |data|
      ensures old(wire) <= wire <= old(wire) + data
      ensures r != -1 ==> wire == old(wire) + data
      ensures |answers| <= |old(answers)|
      ensures if r == -1 then Lost(old(answers), old(asked), answers, asked) else Calm(old(answers), old(asked), answers, asked)
    {
      hide Calm, Lost;
      Asks(answers, asked);
      var offset := 0;
      while offset < |data|
        invariant 0 <= offset <= |data|
        invariant wire == old(wire) + data[..offset]
        invariant |answers| <= |old(answers)|
        invariant Calm(old(answers), old(asked), answers, asked)
        decreases |answers|
      {
        ghost var before, was := answers, asked;
        var sent := Send(data[offset..]);
        CalmThen(old(answers), old(asked), before, was, answers, asked);
        if sent == -1 {
          return -1;
        }
        offset := offset + sent;
      }
      r := offset;
    }

    /** `TcpConnection::ReadIf`: nothing at all, or everything, or an error. */
    method ReadIf(n: nat) returns (r: int, data: seq<byte>)
      requires 0 < n
      modifies `inbound, `answers, `asked, `consumed
      ensures r == -1 || r == 0 || r == n
      ensures old(inbound) == data + inbound && consumed == old(consumed) + data
      ensures r == -1 ==> |data| < n
      ensures r != -1 ==> |data| == r && |answers| < |old(answers)|
      ensures |answers| <= |old(answers)|
      ensures old(Responsive()) && old(inbound) != [] ==> data != []
      ensures if r == -1 then Lost(old(answers), old(asked), answers, asked) else Calm(old(answers), old(asked), answers, asked)
      ensures old(Blocked()) ==> r == 0 && answers == old(answers)[1..]
      ensures r == 0 ==> old(Blocked()) || inbound == []
    {
      hide Calm, Lost;
      Asks(answers, asked);
      r, data := 0, [];
      while |data| < n
        invariant |data| <= n
        invariant old(inbound) == data + inbound && consumed == old(consumed) + data
        invariant |answers| <= |old(answers)|
        invariant if data == [] then answers == old(answers) else |answers| < |old(answers)|
        invariant Calm(old(answers), old(asked), answers, asked)
        invariant data != [] ==> !old(Blocked())
        decreases |answers|
      {
        ghost var before, was := answers, asked;
        var read, chunk := Receive(n - |data|);
        CalmThen(old(answers), old(asked), before, was, answers, asked);
        if read == 0 && data == [] {
          return 0, data;
        }
        if read == -1 {
          return -1, data;
        }
        data := data + chunk;
      }
      r := n;
    }

    // ----- reading

    /** Nothing was read, delivered or stored. */
    ghost predicate Untouched(before: seq<byte>, out: seq<seq<byte>>, buffer: seq<byte>, offset: nat)
      reads `consumed, `delivered, `readBuffer, `readOffset
    {
      consumed == before && delivered == out && readBuffer == buffer && readOffset == offset
    }

    /** A call that ends well does so inside a message, when nothing more is to be had, or after one request on a
        connection that takes one at a time. */
    ghost predicate Stopped(ok: bool, served: bool, before: seq<Answer>)
      reads `answers, `inbound, `readBuffer, `multiplex
    {
      ok ==> readBuffer != [] || inbound == [] || (!multiplex && served) || BlockedLast(before, answers)
    }

    function Held(): State
      reads `readBuffer, `readOffset
      requires readOffset <= |readBuffer|
    {
      if readBuffer == [] then Head([]) else Body(|readBuffer|, readBuffer[..readOffset])
    }

    /** The reader is exactly where the byte automaton is after the bytes consumed so far: what it
        has delivered and what it still holds are functions of those bytes, not of the chunking. */
    ghost predicate InSync(p: Protocol)
      reads `readBuffer, `readOffset, `consumed, `delivered, `readCount
    {
      && (if readBuffer == [] then readOffset == 0 else readOffset < |readBuffer| <= MAX_MESSAGE)
      && Feed(p, START, consumed) == Reader(Held(), delivered)
      && readCount == Requests(delivered)
    }

    /** What was delivered, with its framing, and what is held spell exactly the bytes consumed. */
    ghost predicate Lossless(p: Protocol)
      reads `readBuffer, `readOffset, `consumed, `delivered
    {
      readOffset <= |readBuffer| && Spelled(p, Reader(Held(), delivered)) == consumed
    }

    lemma NothingLost(p: Protocol)
      requires InSync(p)
      ensures Lossless(p)
    {
      StreamSpelled(p, consumed);
    }

    /** Storing a received chunk keeps the automaton and the buffer together. */
    lemma ChunkStored(p: Protocol, before: seq<byte>, r: Reader, chunk: seq<byte>)
      requires Feed(p, START, before) == r
      requires WellFormed(p, r.state) && |chunk| <= Wanted(p, r.state)
      ensures Feed(p, START, before + chunk) == AfterChunk(p, r, chunk)
    {
      FeedAppend(p, START, before, chunk);
      FeedChunk(p, r, chunk);
    }

    /** A header, or as much of it as came before an error, as the automaton sees it. */
    lemma HeaderArrived(p: Protocol, before: seq<byte>, out: seq<seq<byte>>, head: seq<byte>)
      requires Feed(p, START, before) == Reader(Head([]), out)
      requires |head| <= HeadLength(p)
      ensures Feed(p, START, before + head) == if |head| < HeadLength(p) then Reader(Head(head), out) else Opened(p, head, out)
    {
      ChunkStored(p, before, Reader(Head([]), out), head);
      assert [] + head == head;
    }

    /** One receive into a partly filled buffer, and the delivery of the message if it is complete:
        the part `Message::Read` and `ISCSI::Read` have in common. */
    method ReadBody(ghost p: Protocol) returns (r: int, complete: bool)
      requires InSync(p) && readBuffer != []
      modifies `inbound, `answers, `asked, `consumed, `readOffset, `readBuffer, `readCount, `delivered
      ensures InSync(p)
      ensures old(consumed + inbound) == consumed + inbound && old(consumed) <= consumed
      ensures r <= 0 <==> consumed == old(consumed)
      ensures r != -1 ==> |answers| < |old(answers)|
      ensures old(Responsive()) && old(inbound) != [] ==> 0 < r
      ensures complete ==> 0 < r && readBuffer == [] && Requests(delivered) == old(Requests(delivered)) + 1
      ensures !complete ==> delivered == old(delivered) && readBuffer != []
      ensures if r == -1 then Lost(old(answers), old(asked), answers, asked) else Calm(old(answers), old(asked), answers, asked)
      ensures old(Blocked()) ==> r == 0 && answers == old(answers)[1..]
      ensures r == 0 ==> readBuffer == old(readBuffer) && readOffset == old(readOffset)
      ensures -1 <= r
    {
      hide Feed, Requests, Calm, Lost;
      ghost var reader := Reader(Held(), delivered);
      ghost var before := consumed;
      var data;
      r, data := Receive(|readBuffer| - readOffset);
      assert old(consumed + inbound) == consumed + inbound;
      complete := false;
      if r <= 0 {
        assert before + data == before;
        return;
      }
      ChunkStored(p, before, reader, data);
      readBuffer := readBuffer[..readOffset] + data + readBuffer[readOffset + r..];
      readOffset := readOffset + r;
      assert readBuffer[..readOffset] == old(readBuffer[..readOffset]) + data;
      if readOffset != |readBuffer| {
        return;
      }
      RequestsSnoc(delivered, readBuffer);
      assert readBuffer[..readOffset] == readBuffer;
      delivered := delivered + [readBuffer];
      readBuffer, readOffset := [], 0;
      readCount := readCount + 1;
      complete := true;
    }

    /** The header branch of `Message::Read`: a size, a ping, a refusal, or nothing yet. */
    method MessageHeader() returns (r: int)
      requires InSync(Message) && readBuffer == []
      modifies `inbound, `answers, `asked, `consumed, `readOffset, `readBuffer, `readCount, `delivered
      ensures old(consumed + inbound) == consumed + inbound && old(consumed) <= consumed
      ensures delivered == Feed(Message, START, consumed).out
      ensures Requests(delivered) == old(Requests(delivered))
      ensures -1 <= r
      ensures r == 0 ==> InSync(Message) && consumed == old(consumed)
      ensures 0 < r ==> InSync(Message) && consumed != old(consumed) && |answers| < |old(answers)|
      ensures old(Responsive()) && old(inbound) != [] ==> consumed != old(consumed)
      ensures 0 <= r ==> Calm(old(answers), old(asked), answers, asked)
      ensures r == -1 ==> Lost(old(answers), old(asked), answers, asked) || Feed(Message, START, consumed).state.Oversized?
      ensures old(Blocked()) ==> r == 0 && answers == old(answers)[1..]
      ensures r == 0 ==> delivered == old(delivered) && readBuffer == [] && readOffset == 0
      ensures r == 0 ==> old(Blocked()) || inbound == []
    {
      hide Feed, Requests, Calm, Lost;
      ghost var before := consumed;
      var headerLength, head := ReadIf(4);
      HeaderArrived(Message, before, delivered, head);
      if headerLength == 0 {
        assert before + head == before;
        return 0;
      }
      if headerLength != 4 {
        return -1;
      }
      r := OpenMessage(head);
    }

    /** Acts on a complete size prefix. */
    method OpenMessage(head: seq<byte>) returns (r: int)
      requires |head| == 4 && readBuffer == [] && readOffset == 0 && readCount == Requests(delivered)
      requires Feed(Message, START, consumed) == Opened(Message, head, delivered)
      modifies `readBuffer, `delivered
      ensures r == -1 || r == 1
      ensures delivered == Feed(Message, START, consumed).out
      ensures Requests(delivered) == old(Requests(delivered))
      ensures r == 1 ==> InSync(Message)
      ensures r == -1 ==> Feed(Message, START, consumed).state.Oversized?
    {
      hide Feed, Requests;
      var ml := FromLE32(head);
      if ml == 0 {
        RequestsSnoc(delivered, []);
        delivered := delivered + [[]];
      } else if ml > MAX_MESSAGE {
        return -1;
      }
      readBuffer := Zeros(ml);
      assert readBuffer[..0] == [];
      r := 1;
    }

    method MessageRead(idleIn: bool) returns (ok: bool, idle: bool)
      requires InSync(Message)
      modifies `inbound, `answers, `asked, `consumed, `readOffset, `readBuffer, `readCount, `delivered
      ensures old(consumed + inbound) == consumed + inbound && old(consumed) <= consumed
      ensures delivered == Feed(Message, START, consumed).out
      ensures ok ==> Lossless(Message)
      ensures ok ==> InSync(Message) && (idle <==> idleIn && consumed == old(consumed))
      ensures !multiplex ==> Requests(delivered) <= old(Requests(delivered)) + 1
      ensures old(Responsive()) && old(inbound) != [] ==> consumed != old(consumed)
      ensures ok <==> Calm(old(answers), old(asked), answers, asked) && !Feed(Message, START, consumed).state.Oversized?
      ensures Stopped(ok, Requests(delivered) > old(Requests(delivered)), old(answers))
      ensures old(Blocked()) ==> ok && idle == idleIn && Untouched(old(consumed), old(delivered), old(readBuffer), old(readOffset))
    {
      hide Feed, Requests, Spelled, Calm, Lost, BlockedLast;
      Asks(answers, asked);
      idle := idleIn;
      while true
        invariant InSync(Message)
        invariant old(consumed + inbound) == consumed + inbound && old(consumed) <= consumed
        invariant idle <==> idleIn && consumed == old(consumed)
        invariant consumed == old(consumed) ==> answers == old(answers) && inbound == old(inbound)
        invariant !multiplex ==> Requests(delivered) == old(Requests(delivered))
        invariant Calm(old(answers), old(asked), answers, asked)
        invariant consumed == old(consumed) ==> Untouched(old(consumed), old(delivered), old(readBuffer), old(readOffset))
        invariant consumed != old(consumed) ==> !old(Blocked())
        decreases |answers|
      {
        ghost var before, was := answers, asked;
        if readBuffer != [] {
          var r, complete := ReadBody(Message);
          Settled(old(answers), old(asked), before, was, answers, asked);
          if r <= 0 {
            if r == 0 {
              NothingLost(Message);
            }
            return r == 0, idle;
          }
          idle := false;
          if !complete || !multiplex {
            NothingLost(Message);
            return true, idle;
          }
        } else {
          var r := MessageHeader();
          Settled(old(answers), old(asked), before, was, answers, asked);
          if r <= 0 {
            if r == 0 {
              NothingLost(Message);
            }
            return r == 0, idle;
          }
          idle := false;
        }
      }
    }

    static method PduLength(peek: seq<byte>) returns (ml: nat)
      requires |peek| == 8
      ensures ml == Announced(Iscsi, peek)
      ensures 48 <= ml
    {
      ml := 48 + peek[4] as int + FromBE24(peek[5..8]);
      if ml % 4 != 0 {
        ml := ml + 4 - ml % 4;
      }
    }

    /** The header branch of `ISCSI::Read`: the first eight bytes fix the padded size of the PDU and
        stay in its buffer. */
    method IscsiHeader() returns (r: int)
      requires InSync(Iscsi) && readBuffer == []
      modifies `inbound, `answers, `asked, `consumed, `readOffset, `readBuffer, `readCount, `delivered
      ensures old(consumed + inbound) == consumed + inbound && old(consumed) <= consumed
      ensures delivered == Feed(Iscsi, START, consumed).out
      ensures Requests(delivered) == old(Requests(delivered))
      ensures -1 <= r
      ensures r == 0 ==> InSync(Iscsi) && consumed == old(consumed)
      ensures 0 < r ==> InSync(Iscsi) && consumed != old(consumed) && |answers| < |old(answers)|
      ensures old(Responsive()) && old(inbound) != [] ==> consumed != old(consumed)
      ensures 0 <= r ==> Calm(old(answers), old(asked), answers, asked)
      ensures r == -1 ==> Lost(old(answers), old(asked), answers, asked) || Feed(Iscsi, START, consumed).state.Oversized?
      ensures old(Blocked()) ==> r == 0 && answers == old(answers)[1..]
      ensures r == 0 ==> delivered == old(delivered) && readBuffer == [] && readOffset == 0
      ensures r == 0 ==> old(Blocked()) || inbound == []
    {
      hide Feed, Requests, Calm, Lost;
      ghost var before := consumed;
      var headerLength, peek := ReadIf(8);
      HeaderArrived(Iscsi, before, delivered, peek);
      if headerLength == 0 {
        assert before + peek == before;
        return 0;
      }
      if headerLength != 8 {
        return -1;
      }
      r := OpenPdu(peek);
    }

    /** Acts on the first eight bytes of a PDU. */
    method OpenPdu(peek: seq<byte>) returns (r: int)
      requires |peek| == 8 && readBuffer == [] && readCount == Requests(delivered)
      requires Feed(Iscsi, START, consumed) == Opened(Iscsi, peek, delivered)
      modifies `readBuffer, `readOffset
      ensures r == -1 || r == 1
      ensures delivered == Feed(Iscsi, START, consumed).out
      ensures r == 1 ==> InSync(Iscsi)
      ensures r == -1 ==> Feed(Iscsi, START, consumed).state.Oversized?
    {
      hide Feed, Requests;
      var ml := PduLength(peek);
      if ml > MAX_MESSAGE {
        return -1;
      }
      readBuffer := peek + Zeros(ml - 8);
      readOffset := 8;
      assert readBuffer[..readOffset] == peek;
      r := 1;
    }

    method IscsiRead(idleIn: bool) returns (ok: bool, idle: bool)
      requires InSync(Iscsi)
      modifies `inbound, `answers, `asked, `consumed, `readOffset, `readBuffer, `readCount, `delivered
      ensures old(consumed + inbound) == consumed + inbound && old(consumed) <= consumed
      ensures delivered == Feed(Iscsi, START, consumed).out
      ensures ok ==> Lossless(Iscsi)
      ensures ok ==> InSync(Iscsi) && (idle <==> idleIn && consumed == old(consumed))
      ensures !multiplex ==> Requests(delivered) <= old(Requests(delivered)) + 1
      ensures old(Responsive()) && old(inbound) != [] ==> consumed != old(consumed)
      ensures ok <==> Calm(old(answers), old(asked), answers, asked) && !Feed(Iscsi, START, consumed).state.Oversized?
      ensures Stopped(ok, Requests(delivered) > old(Requests(delivered)), old(answers))
      ensures old(Blocked()) ==> ok && idle == idleIn && Untouched(old(consumed), old(delivered), old(readBuffer), old(readOffset))
    {
      hide Feed, Requests, Spelled, Calm, Lost, BlockedLast;
      Asks(answers, asked);
      idle := idleIn;
      while true
        invariant InSync(Iscsi)
        invariant old(consumed + inbound) == consumed + inbound && old(consumed) <= consumed
        invariant idle <==> idleIn && consumed == old(consumed)
        invariant consumed == old(consumed) ==> answers == old(answers) && inbound == old(inbound)
        invariant !multiplex ==> Requests(delivered) == old(Requests(delivered))
        invariant Calm(old(answers), old(asked), answers, asked)
        invariant consumed == old(consumed) ==> Untouched(old(consumed), old(delivered), old(readBuffer), old(readOffset))
        invariant consumed != old(consumed) ==> !old(Blocked())
        decreases |answers|
      {
        ghost var before, was := answers, asked;
        if readBuffer != [] {
          var r, complete := ReadBody(Iscsi);
          Settled(old(answers), old(asked), before, was, answers, asked);
          if r <= 0 {
            if r == 0 {
              NothingLost(Iscsi);
            }
            return r == 0, idle;
          }
          idle := false;
          if !complete || !multiplex {
            NothingLost(Iscsi);
            return true, idle;
          }
        } else {
          var r := IscsiHeader();
          Settled(old(answers), old(asked), before, was, answers, asked);
          if r <= 0 {
            if r == 0 {
              NothingLost(Iscsi);
            }
            return r == 0, idle;
          }
          idle := false;
        }
      }
    }

    // ----- the map protocol's fixed-size header

    ghost function MapState(): Map32.MapReader
      reads `readBuffer, `readOffset, `delivered, `mapBase
      requires mapBase <= |delivered| && readOffset <= |readBuffer|
    {
      Map32.MapReader(readBuffer[..readOffset], delivered[mapBase..])
    }

    /** Since the mark, what was delivered and what is held are in step with what was consumed. */
    ghost predicate InSyncMap()
      reads `readBuffer, `readOffset, `consumed, `delivered, `mapMark, `mapBase
    {
      && mapMark <= |consumed| && mapBase <= |delivered|
      && (if readBuffer == [] then readOffset == 0 else readOffset < |readBuffer| == Map32.HEADER)
      && Map32.InStep(consumed[mapMark..], MapState())
    }

    /** `Map32::Read`.  As long as no header announces size zero, it delivers exactly the 36-byte
        headers of the stream, and never reads past the one it is in. */
    method MapRead(idleIn: bool) returns (ok: bool, idle: bool)
      requires InSyncMap()
      modifies `inbound, `answers, `asked, `consumed, `readOffset, `readBuffer, `readCount, `delivered
      ensures InSyncMap()
      ensures old(consumed + inbound) == consumed + inbound && old(consumed) <= consumed
      ensures idle <==> idleIn && consumed == old(consumed)
      ensures old(delivered) <= delivered
      ensures !multiplex ==> |delivered| <= old(|delivered|) + 1
      ensures !multiplex && |delivered| == old(|delivered|) + 1 ==> Delivered(old(delivered))
      ensures old(Responsive()) && old(inbound) != [] ==> consumed != old(consumed)
      ensures ok <==> Calm(old(answers), old(asked), answers, asked)
      ensures old(Blocked()) ==> ok && idle == idleIn && consumed == old(consumed) && delivered == old(delivered)
    {
      hide Map32.InStep, Calm, Lost;
      Asks(answers, asked);
      idle := idleIn;
      while true
        invariant InSyncMap()
        invariant old(consumed + inbound) == consumed + inbound && old(consumed) <= consumed
        invariant idle <==> idleIn && consumed == old(consumed)
        invariant consumed == old(consumed) ==> answers == old(answers) && inbound == old(inbound)
        invariant old(delivered) <= delivered && (!multiplex ==> delivered == old(delivered))
        invariant Calm(old(answers), old(asked), answers, asked)
        invariant consumed == old(consumed) ==> delivered == old(delivered)
        invariant consumed != old(consumed) ==> !old(Blocked())
        decreases |answers|, readBuffer == []
      {
        ghost var before, was := answers, asked;
        if readBuffer != [] {
          var r, complete := MapBody();
          Settled(old(answers), old(asked), before, was, answers, asked);
          if r <= 0 {
            return r == 0, idle;
          }
          idle := false;
          if !complete || !multiplex {
            return true, idle;
          }
        } else {
          readBuffer := Zeros(Map32.HEADER);
        }
      }
    }

    /** One more delivery, a ping or a header, and nothing held. */
    ghost predicate Delivered(before: seq<seq<byte>>)
      reads `readBuffer, `readOffset, `delivered
    {
      && |delivered| == |before| + 1 && readBuffer == [] && readOffset == 0
      && (delivered[|before|] == [] || |delivered[|before|]| == Map32.HEADER)
    }

    method MapBody() returns (r: int, complete: bool)
      requires InSyncMap() && readBuffer != []
      modifies `inbound, `answers, `asked, `consumed, `readOffset, `readBuffer, `readCount, `delivered
      ensures InSyncMap()
      ensures old(consumed + inbound) == consumed + inbound && old(consumed) <= consumed
      ensures -1 <= r && (r <= 0 <==> consumed == old(consumed))
      ensures r != -1 ==> |answers| < |old(answers)|
      ensures old(delivered) <= delivered && |delivered| <= old(|delivered|) + 1
      ensures |delivered| == old(|delivered|) + 1 ==> Delivered(old(delivered))
      ensures old(Responsive()) && old(inbound) != [] ==> 0 < r
      ensures if r == -1 then Lost(old(answers), old(asked), answers, asked) else Calm(old(answers), old(asked), answers, asked)
      ensures old(Blocked()) ==> r == 0 && answers == old(answers)[1..]
      ensures r == 0 ==> readBuffer == old(readBuffer) && readOffset == old(readOffset) && delivered == old(delivered)
    {
      hide Map32.InStep, Calm, Lost;
      ghost var before, was := consumed[mapMark..], MapState();
      var data;
      r, data := Receive(|readBuffer| - readOffset);
      complete := false;
      if r <= 0 {
        assert old(consumed) + data == old(consumed);
        return;
      }
      Map32.ChunkInStep(before, was, data);
      assert consumed[mapMark..] == before + data;
      complete := MapStore(data, was);
    }

    /** Stores what came, and delivers a ping or a complete header. */
    method MapStore(data: seq<byte>, ghost was: Map32.MapReader) returns (complete: bool)
      requires mapMark <= |consumed| && mapBase <= |delivered| && data != []
      requires readOffset < |readBuffer| == Map32.HEADER && readOffset + |data| <= Map32.HEADER && was == MapState()
      requires Map32.InStep(consumed[mapMark..], Map32.MapChunk(was, data))
      modifies `readOffset, `readBuffer, `readCount, `delivered
      ensures InSyncMap()
      ensures old(delivered) <= delivered && |delivered| <= old(|delivered|) + 1
      ensures |delivered| == old(|delivered|) + 1 ==> Delivered(old(delivered))
    {
      hide Map32.InStep;
      complete := false;
      readBuffer := readBuffer[..readOffset] + data + readBuffer[readOffset + |data|..];
      readOffset := readOffset + |data|;
      assert readBuffer[..readOffset] == was.held + data;
      if readOffset == 4 && readBuffer[..4] == Map32.ZERO_WORD {
        delivered := delivered + [[]];
        readOffset, readBuffer := 0, [];
        assert delivered[mapBase..] == was.out + [[]];
        return;
      }
      if readOffset != |readBuffer| {
        return;
      }
      assert readBuffer[..readOffset] == readBuffer;
      delivered := delivered + [readBuffer];
      assert delivered[mapBase..] == was.out + [was.held + data];
      readBuffer, readOffset := [], 0;
      readCount := readCount + 1;
      complete := true;
    }

    // ----- the map protocol with its handlers

    /** `TcpConnection::Read`: insists until everything is there or the connection is gone. */
    method Read(n: nat) returns (r: int, data: seq<byte>)
      modifies `inbound, `answers, `asked, `consumed
      ensures r == -1 || r == n == |data|
      ensures r == -1 ==> |data| < n
      ensures old(inbound) == data + inbound && consumed == old(consumed) + data
      ensures if r == -1 then Lost(old(answers), old(asked), answers, asked) else Calm(old(answers), old(asked), answers, asked)
    {
      hide Calm, Lost;
      Asks(answers, asked);
      data := [];
      while |data| < n
        invariant |data| <= n
        invariant old(inbound) == data + inbound && consumed == old(consumed) + data
        invariant Calm(old(answers), old(asked), answers, asked)
        decreases |answers|
      {
        ghost var before, was := answers, asked;
        var read, chunk := Receive(n - |data|);
        CalmThen(old(answers), old(asked), before, was, answers, asked);
        if read == -1 {
          return -1, data;
        }
        data := data + chunk;
      }
      r := n;
    }

    /** Requests up to `i` have been served; the reader is in front of, or inside, the header of request `i`. */
    ghost predicate AwaitsHeader(reqs: seq<Map32.Request>, i: nat)
      reads `readBuffer, `readOffset, `inbound, `consumed, `delivered, `mapMark, `mapBase
    {
      && InSyncMap() && Map32.AllValid(reqs) && i <= |reqs|
      && consumed + inbound == Map32.Stream(reqs)
      && consumed[..mapMark] == Map32.Stream(reqs[..i])
      && delivered[mapBase..] == []
    }

    /** The header of request `i` has just been delivered and its payload is next in the stream. */
    ghost predicate AtPayload(reqs: seq<Map32.Request>, i: nat)
      reads `readBuffer, `readOffset, `inbound, `consumed, `delivered
    {
      && Map32.AllValid(reqs) && i < |reqs| && readBuffer == [] && readOffset == 0
      && consumed + inbound == Map32.Stream(reqs)
      && consumed == Map32.Stream(reqs[..i]) + Map32.Header(reqs[i])
      && inbound == reqs[i].payload + Map32.Stream(reqs[i + 1..])
      && delivered != [] && |delivered[|delivered| - 1]| == Map32.HEADER
      && Map32.DecodeHeader(delivered[|delivered| - 1]) == (|reqs[i].payload|, reqs[i].id)
    }

    /** A call of the reader on a map connection that serves one request at a time: either the header of the
        next request is still incomplete, or it is delivered and the stream stands exactly at its payload. */
    method MapRequest(idleIn: bool, ghost reqs: seq<Map32.Request>, ghost i: nat) returns (ok: bool, idle: bool)
      requires !multiplex && AwaitsHeader(reqs, i)
      modifies `inbound, `answers, `asked, `consumed, `readOffset, `readBuffer, `readCount, `delivered
      ensures if delivered == old(delivered) then AwaitsHeader(reqs, i) else AtPayload(reqs, i)
      ensures old(delivered) <= delivered && |delivered| <= old(|delivered|) + 1
      ensures idle <==> idleIn && consumed == old(consumed)
      ensures ok <==> Calm(old(answers), old(asked), answers, asked)
    {
      hide Calm, Lost, Map32.InStep, Map32.Stream, Map32.DecodeHeader, Map32.Header, Map32.ValidRequest;
      ghost var mark := mapMark;
      ok, idle := MapRead(idleIn);
      assert consumed[..mark] == old(consumed)[..mark];
      if delivered != old(delivered) {
        ghost var d := delivered[|delivered| - 1];
        assert delivered[mapBase..] == [d];
        assert readBuffer[..readOffset] == [];
        assert consumed == consumed[..mark] + consumed[mark..];
        Map32.ServesNext(reqs, i, d, consumed[..mark], consumed[mark..], inbound);
      }
    }

    /** A handler that decodes its header and reads its payload from the socket gets exactly the payload, and
        leaves the stream in front of the next header. */
    method MapHandler(ghost reqs: seq<Map32.Request>, ghost i: nat) returns (ok: bool, id: seq<byte>, payload: seq<byte>)
      requires AtPayload(reqs, i)
      modifies `inbound, `answers, `asked, `consumed, `mapMark, `mapBase
      ensures ok ==> id == reqs[i].id && payload == reqs[i].payload && AwaitsHeader(reqs, i + 1)
      ensures consumed + inbound == Map32.Stream(reqs)
      ensures ok <==> Calm(old(answers), old(asked), answers, asked)
    {
      hide Map32.Stream, Map32.Regular, Map32.DecodeHeader;
      var header := Map32.DecodeHeader(delivered[|delivered| - 1]);
      var r;
      r, payload := Read(header.0);
      id, ok := header.1, r != -1;
      assert consumed + inbound == old(consumed) + old(inbound);
      if ok {
        Map32.StreamFrom(reqs, i);
        ghost var rest := Map32.Stream(reqs[i + 1..]);
        assert old(inbound)[..header.0] == payload && (reqs[i].payload + rest)[..header.0] == reqs[i].payload;
        assert consumed == Map32.Stream(reqs[..i + 1]);
        mapMark, mapBase := |consumed|, |delivered|;
        Map32.NothingTaken();
        assert consumed[mapMark..] == [] && delivered[mapBase..] == [];
      }
    }

    // ----- writing

    ghost predicate Accounted()
      reads `writeBuffer, `writeOffset, `writeCount, `writeBytes, `acknowledged, slots, slots.queue
    {
      && slots.Valid()
      && (if writeBuffer == [] then writeOffset == 0 else writeOffset < |writeBuffer|)
      && writeCount + (if writeBuffer == [] then 0 else 1) == Requests(slots.taken)
      && acknowledged == seq(writeCount, i => i)
      && writeBytes + |writeBuffer| == |Concat(slots.taken)|
    }

    /** What went out plus what the suspended writer still owes is the framing of every message
        taken from the queue. */
    ghost predicate Sending(bias: nat)
      reads `wire, `writeBuffer, `writeOffset, `writeCount, `writeBytes, `acknowledged, slots, slots.queue
    {
      && Accounted()
      && wire + writeBuffer[writeOffset..] == FrameAll(bias, slots.taken)
    }

    ghost predicate SendingRaw()
      reads `wire, `writeBuffer, `writeOffset, `writeCount, `writeBytes, `acknowledged, slots, slots.queue
    {
      && Accounted()
      && wire + writeBuffer[writeOffset..] == Concat(slots.taken)
    }

    /** One send from a partly sent buffer, and the completion callback if it was the last: the part
        all writers have in common. */
    method WriteBody() returns (r: int)
      requires Accounted() && writeBuffer != []
      modifies `answers, `asked, `wire, `writeOffset, `writeBuffer, `writeCount, `writeBytes, `acknowledged
      ensures Accounted()
      ensures wire + writeBuffer[writeOffset..] == old(wire + writeBuffer[writeOffset..])
      ensures -1 <= r && (r != -1 ==> |answers| < |old(answers)|)
      ensures r <= 0 ==> wire == old(wire) && writeBuffer == old(writeBuffer)
      ensures 0 < r ==> |old(wire)| < |wire|
      ensures old(wire) <= wire
      ensures old(Responsive()) ==> 0 < r
      ensures if r == -1 then Lost(old(answers), old(asked), answers, asked) else Calm(old(answers), old(asked), answers, asked)
      ensures old(Blocked()) ==> r == 0
    {
      hide Requests, Concat, Calm, Lost;
      r := Send(writeBuffer[writeOffset..]);
      if r <= 0 {
        return;
      }
      assert wire + writeBuffer[writeOffset + r..] == old(wire) + writeBuffer[writeOffset..];
      writeOffset := writeOffset + r;
      if writeOffset == |writeBuffer| {
        assert writeBuffer[writeOffset..] == [];
        acknowledged := acknowledged + [writeCount];
        writeCount := writeCount + 1;
        writeBytes := writeBytes + |writeBuffer|;
        writeBuffer, writeOffset := [], 0;
      }
    }

    /** Taking the next ready message into an empty buffer. */
    method NextMessage() returns (more: bool)
      requires Accounted() && writeBuffer == []
      modifies slots, `writeBuffer
      ensures Accounted()
      ensures more == old(slots.HeadReady())
      ensures more ==> slots.View() == old(slots.View()).Take() && slots.taken == old(slots.taken) + [writeBuffer]
      ensures more ==> |slots.queue| < |old(slots.queue)|
      ensures !more ==> unchanged(slots) && writeBuffer == []
    {
      hide Requests, Concat;
      var v;
      more, v := slots.TryWrite();
      if more {
        RequestsSnoc(old(slots.taken), v);
        ConcatSnoc(old(slots.taken), v);
        writeBuffer := v;
        assert |slots.View().cells| < |old(slots.View()).cells|;
      }
    }

    /** The size prefix goes out with a blocking write; half of one ends the connection. */
    method WritePrefix(bias: nat, ghost done: seq<seq<byte>>) returns (ok: bool)
      requires wire == FrameAll(bias, done)
      modifies `answers, `asked, `wire, `priority
      ensures old(wire) <= wire <= FrameAll(bias, done + [writeBuffer])
      ensures ok ==> wire + writeBuffer == FrameAll(bias, done + [writeBuffer])
      ensures if ok then Calm(old(answers), old(asked), answers, asked) else Lost(old(answers), old(asked), answers, asked)
    {
      hide FrameAll, SizePrefix, Calm, Lost;
      FrameAllSnoc(bias, done, writeBuffer);
      var header := SizePrefix(bias, |writeBuffer|);
      assert FrameAll(bias, done + [writeBuffer]) == FrameAll(bias, done) + header + writeBuffer;
      var sent := Write(header);
      if sent != 4 {
        return false;
      }
      if (|writeBuffer| - bias) % TWO_32 == 0 {
        priority := 0;
      }
      ok := true;
    }

    /** The next message of `Common::WriteMessage`, its size prefix already on the wire. */
    method NextFrame(bias: nat) returns (r: int)
      requires Sending(bias) && writeBuffer == []
      modifies slots, `answers, `asked, `wire, `writeBuffer, `priority
      ensures slots.Valid() && old(slots.taken) <= slots.taken
      ensures wire <= FrameAll(bias, slots.taken)
      ensures 0 <= r ==> Sending(bias)
      ensures r == 0 ==> writeBuffer == [] && !slots.HeadReady()
      ensures 0 < r ==> |slots.queue| < |old(slots.queue)|
      ensures SentInOrder(bias, old(slots.taken), old(wire), slots.taken, wire)
      ensures slots.View().History() == old(slots.View().History())
      ensures -1 <= r
      ensures if r == -1 then Lost(old(answers), old(asked), answers, asked) else Calm(old(answers), old(asked), answers, asked)
    {
      hide FrameAll, Requests, Concat, Calm, Lost;
      Asks(answers, asked);
      ghost var taken := slots.taken;
      assert wire == wire + writeBuffer[writeOffset..];
      var more := NextMessage();
      if !more {
        return 0;
      }
      TakeKeepsHistory(old(slots.View()));
      assert slots.taken[..|slots.taken| - 1] == taken;
      var ok := WritePrefix(bias, taken);
      if !ok {
        return -1;
      }
      assert writeBuffer[writeOffset..] == writeBuffer;
      r := 1;
    }

    /** `Common::WriteMessage`; `bias` is 32 for `Map32::ClientWrite`, otherwise 0. */
    method WriteMessage(bias: nat) returns (ok: bool)
      requires Sending(bias)
      modifies slots, `answers, `asked, `wire, `writeOffset, `writeBuffer, `writeCount, `writeBytes, `acknowledged, `priority
      ensures slots.Valid() && old(slots.taken) <= slots.taken
      ensures wire <= FrameAll(bias, slots.taken)
      ensures ok ==> Sending(bias) && (writeBuffer != [] || !slots.HeadReady())
      ensures SentInOrder(bias, old(slots.taken), old(wire), slots.taken, wire)
      ensures slots.View().History() == old(slots.View().History())
      ensures old(writeBuffer) != [] && old(Responsive()) ==> |old(wire)| < |wire|
      ensures ok <==> Calm(old(answers), old(asked), answers, asked)
      ensures old(writeBuffer) != [] && old(Blocked()) ==> ok && wire == old(wire) && slots.taken == old(slots.taken)
    {
      hide Requests, Concat, FrameAll, Calm, Lost, SentInOrder;
      NothingSent(bias, slots.taken, wire);
      Asks(answers, asked);
      while true
        invariant Sending(bias)
        invariant old(slots.taken) <= slots.taken
        invariant SentInOrder(bias, old(slots.taken), old(wire), slots.taken, wire)
        invariant slots.View().History() == old(slots.View().History())
        invariant old(writeBuffer) != [] ==>
                    || (|old(wire)| < |wire| && !old(Blocked()))
                    || (answers == old(answers) && writeBuffer != [] && wire == old(wire) && slots.taken == old(slots.taken))
        invariant Calm(old(answers), old(asked), answers, asked)
        decreases |slots.queue|, |answers|
      {
        ghost var before, was := answers, asked;
        ghost var taken, sent := slots.taken, wire;
        if writeBuffer != [] {
          var r := WriteBody();
          Settled(old(answers), old(asked), before, was, answers, asked);
          SentMore(bias, old(slots.taken), old(wire), taken, sent, wire);
          if r <= 0 {
            return r == 0;
          }
          if writeBuffer != [] {
            return true;
          }
        }
        ghost var body := wire;
        before, was := answers, asked;
        var r := NextFrame(bias);
        Settled(old(answers), old(asked), before, was, answers, asked);
        SentOnward(bias, old(slots.taken), old(wire), taken, body, slots.taken, wire);
        if r <= 0 {
          return r == 0;
        }
      }
    }

    /** `Common::WriteRaw`: the same loop without a size prefix. */
    method WriteRaw() returns (ok: bool)
      requires SendingRaw()
      modifies slots, `answers, `asked, `wire, `writeOffset, `writeBuffer, `writeCount, `writeBytes, `acknowledged
      ensures old(slots.taken) <= slots.taken && SendingRaw()
      ensures ok ==> writeBuffer != [] || !slots.HeadReady()
      ensures old(writeBuffer) != [] && old(Responsive()) ==> |old(wire)| < |wire|
      ensures ok <==> Calm(old(answers), old(asked), answers, asked)
      ensures old(writeBuffer) != [] && old(Blocked()) ==> ok && wire == old(wire) && slots.taken == old(slots.taken)
    {
      hide Requests, Concat, Calm, Lost;
      Asks(answers, asked);
      while true
        invariant SendingRaw()
        invariant old(slots.taken) <= slots.taken
        invariant old(writeBuffer) != [] ==>
                    || (|old(wire)| < |wire| && !old(Blocked()))
                    || (answers == old(answers) && writeBuffer != [] && wire == old(wire) && slots.taken == old(slots.taken))
        invariant Calm(old(answers), old(asked), answers, asked)
        decreases |slots.queue|, |answers|
      {
        ghost var before, was := answers, asked;
        if writeBuffer != [] {
          var r := WriteBody();
          Settled(old(answers), old(asked), before, was, answers, asked);
          if r <= 0 {
            return r == 0;
          }
          if writeBuffer != [] {
            return true;
          }
        }
        ghost var taken := slots.taken;
        assert wire == wire + writeBuffer[writeOffset..];
        var more := NextMessage();
        if !more {
          return true;
        }
        ConcatSnoc(taken, writeBuffer);
        assert writeBuffer[writeOffset..] == writeBuffer;
      }
    }
  }
}
