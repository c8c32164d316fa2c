/** `FTP::Read` and `Http::Read`: they differ only in what ends a head and whether a body follows. */
module TextReader {
  import opened Bytes
  import opened TextFraming
  import opened TextChunks
  import BlankLengths
  import C = Connection
  import H = Http

  const BUFFER_SIZE: nat := 16 * 1024

  /** How a call returns: nothing more to receive, the connection is gone, or the pass ended badly. */
  datatype Result = Done | Closed | Failed(why: Ending)

  /** The scan loop. */
  method Find(p: Text, b: seq<byte>, end: nat) returns (v: Verdict)
    ensures v == Scan(p, b, 0, end)
  {
    hide Found, LookAt;
    var start := 0;
    while start + Least(p) <= end
      invariant Scan(p, b, 0, end) == Scan(p, b, start, end)
      decreases end - start
    {
      var look := LookAt(p, b, start);
      if look == Beyond {
        return Overrun;
      }
      if look == Yes {
        SeenInside(p, b, start);
        return Found(p, b, start);
      }
      start := start + 1;
    }
    v := Missing;
  }

  /** The lambda `reset`: cuts a message off the buffer. */
  method Reset(c: C.Connection, end: nat) returns (single: seq<byte>)
    requires c.readOffset <= |c.readBuffer|
    modifies c`readBuffer, c`readOffset
    ensures single == Resized(old(c.readBuffer), end)
    ensures if old(c.readOffset) > end
            then c.readBuffer == old(c.readBuffer[end..c.readOffset]) && c.readOffset == |c.readBuffer|
            else c.readBuffer == [] && c.readOffset == 0
  {
    single := Resized(c.readBuffer, end);
    if c.readOffset > end {
      c.readBuffer := c.readBuffer[end..c.readOffset];
      c.readOffset := |c.readBuffer|;
    } else {
      c.readOffset := 0;
      c.readBuffer := [];
    }
  }

  /** One step of a pass: the first message of the bytes held, and the rest. */
  lemma PassStep(p: Text, live: bool, buffer: seq<byte>, offset: nat, end: nat)
    requires offset <= end && offset <= |buffer| && (live ==> offset == end) && (offset < end ==> |buffer| == offset)
    requires var v := Scan(p, buffer[..offset], 0, end); v.At? && v.size <= end
    ensures var v, b := Scan(p, buffer[..offset], 0, end), buffer[..offset];
            var whole := Resized(buffer, v.size);
            Passing(p, live, b, end) == After(Message(whole, whole[v.from..v.to]),
              if v.size < offset then Passing(p, live, buffer[v.size..offset], if live then offset - v.size else end)
              else Pass([], Waiting([])))
  {
    hide Scan;
    var v, b := Scan(p, buffer[..offset], 0, end), buffer[..offset];
    if offset < end {
      assert b == buffer;
    } else {
      assert b[..v.size] == buffer[..v.size];
      assert b[v.from..v.to] == b[..v.size][v.from..v.to];
    }
    if v.size < offset {
      assert b[v.size..] == buffer[v.size..offset];
    } else {
      NothingHeld(p);
      assert v.size == offset && live ==> b[v.size..] == [];
    }
  }

  lemma PassStops(p: Text, live: bool, b: seq<byte>, end: nat)
    requires |b| <= end && (live ==> |b| == end)
    requires var v := Scan(p, b, 0, end); !v.At? || v.size > end
    ensures var v := Scan(p, b, 0, end);
            Passing(p, live, b, end) == Pass([], if v.At? || v.Missing? then Waiting(b) else Stopped(v))
  {
    hide Scan;
  }

  lemma NoWholes(delivered: seq<seq<byte>>)
    ensures delivered + Wholes([]) == delivered
  {
  }

  lemma WholesSnoc(ms: seq<Message>, m: Message)
    ensures Wholes(ms + [m]) == Wholes(ms) + [m.whole]
  {
    assert (ms + [m])[..|ms|] == ms;
  }

  /** The scan after one receive, with the bound as it is (`live == false`) or renewed after each message. */
  method Drain(p: Text, live: bool, c: C.Connection) returns (ending: Ending, got: seq<Message>)
    requires 0 < c.readOffset <= |c.readBuffer|
    modifies c`readOffset, c`readBuffer, c`readCount, c`delivered
    ensures Passing(p, live, old(c.readBuffer[..c.readOffset]), old(c.readOffset)) == Pass(got, ending)
    ensures c.delivered == old(c.delivered) + Wholes(got) && c.readCount == old(c.readCount) + |got|
    ensures ending.Waiting? ==> c.readOffset <= |c.readBuffer| && c.readBuffer[..c.readOffset] == ending.held
  {
    hide Scan, Live, Stale, Wholes, Passing, Resized, After;
    var end := c.readOffset;
    ghost var all := Passing(p, live, c.readBuffer[..c.readOffset], end);
    got := [];
    NoWholes(c.delivered);
    while true
      invariant 0 < c.readOffset <= |c.readBuffer| && c.readOffset <= end
      invariant (live ==> c.readOffset == end) && (c.readOffset < end ==> |c.readBuffer| == c.readOffset)
      invariant var rest := Passing(p, live, c.readBuffer[..c.readOffset], end);
                all == Pass(got + rest.out, rest.end)
      invariant c.delivered == old(c.delivered) + Wholes(got) && c.readCount == old(c.readCount) + |got|
      decreases c.readOffset
    {
      ghost var buffer, offset := c.readBuffer, c.readOffset;
      var b := c.readBuffer[..c.readOffset];
      var v := Find(p, b, end);
      if !v.At? || v.size > end {
        ending := if v.At? || v.Missing? then Waiting(b) else Stopped(v);
        PassStops(p, live, b, end);
        if v.At? && v.size > |c.readBuffer| {
          c.readBuffer := c.readBuffer + C.Zeros(v.size - |c.readBuffer|);
        }
        return;
      }
      PassStep(p, live, c.readBuffer, c.readOffset, end);
      var m := Deliver(c, v.size, v.from, v.to);
      Accumulate(got, m, if c.readBuffer == [] then Pass([], Waiting([]))
                         else Passing(p, live, c.readBuffer, if live then c.readOffset else end));
      WholesSnoc(got, m);
      got := got + [m];
      if c.readBuffer == [] {
        return Waiting([]), got;
      }
      if live {
        end := c.readOffset;
      }
      assert c.readBuffer[..c.readOffset] == buffer[v.size..offset];
    }
  }

  lemma Accumulate(got: seq<Message>, m: Message, rest: Pass)
    ensures got + After(m, rest).out == got + [m] + rest.out && After(m, rest).end == rest.end
  {
  }

  /** Hands one message to the callback. */
  method Deliver(c: C.Connection, size: nat, from: nat, to: nat) returns (m: Message)
    requires c.readOffset <= |c.readBuffer| && from <= to <= size
    modifies c`readOffset, c`readBuffer, c`readCount, c`delivered
    ensures var whole := Resized(old(c.readBuffer), size); m == Message(whole, whole[from..to])
    ensures c.delivered == old(c.delivered) + [m.whole] && c.readCount == old(c.readCount) + 1
    ensures if old(c.readOffset) > size
            then c.readBuffer == old(c.readBuffer[size..c.readOffset]) && c.readOffset == |c.readBuffer|
            else c.readBuffer == [] && c.readOffset == 0
  {
    var single := Reset(c, size);
    m := Message(single, single[from..to]);
    c.delivered := c.delivered + [single];
    c.readCount := c.readCount + 1;
  }

  /** The reader stands where the decoder stands after the bytes consumed so far. */
  ghost predicate Reading(p: Text, c: C.Connection)
    reads c`readOffset, c`readBuffer, c`consumed
  {
    c.readOffset <= |c.readBuffer| && Live(p, c.consumed).end == Waiting(c.readBuffer[..c.readOffset])
  }

  /** One receive into the free part of the buffer. */
  method Fill(c: C.Connection) returns (r: int, data: seq<byte>)
    requires c.readOffset < |c.readBuffer|
    modifies c`inbound, c`answers, c`asked, c`consumed, c`readOffset, c`readBuffer
    ensures c.consumed == old(c.consumed) + data && c.consumed + c.inbound == old(c.consumed + c.inbound)
    ensures c.readOffset <= |c.readBuffer| && c.readBuffer[..c.readOffset] == old(c.readBuffer[..c.readOffset]) + data
    ensures if r <= 0 then data == [] && c.consumed == old(c.consumed) else data != []
    ensures r <= 0 ==> c.readBuffer == old(c.readBuffer) && c.readOffset == old(c.readOffset)
    ensures r != -1 ==> |c.answers| < |old(c.answers)|
    ensures -1 <= r
    ensures if r == -1 then C.Lost(old(c.answers), old(c.asked), c.answers, c.asked)
            else C.Calm(old(c.answers), old(c.asked), c.answers, c.asked)
    ensures old(c.Blocked()) ==> r == 0
    ensures r == 0 ==> c.inbound == [] || (old(c.Blocked()) && c.answers == old(c.answers)[1..])
  {
    hide C.Calm, C.Lost;
    r, data := c.Receive(|c.readBuffer| - c.readOffset);
    if 0 < r {
      c.readBuffer := c.readBuffer[..c.readOffset] + data + c.readBuffer[c.readOffset + r..];
      c.readOffset := c.readOffset + r;
    } else {
      assert old(c.consumed) + data == old(c.consumed);
    }
  }

  /** A buffer of its first size, or twice as large when it is full. */
  method MakeRoom(c: C.Connection)
    requires c.readOffset <= |c.readBuffer|
    modifies c`readBuffer
    ensures c.readOffset < |c.readBuffer| && c.readBuffer[..c.readOffset] == old(c.readBuffer[..c.readOffset])
    ensures |c.readBuffer| == if old(c.readBuffer) == [] then BUFFER_SIZE
                              else if old(|c.readBuffer|) == c.readOffset then 2 * old(|c.readBuffer|) else old(|c.readBuffer|)
  {
    if c.readBuffer == [] {
      c.readBuffer := C.Zeros(BUFFER_SIZE);
    }
    if |c.readBuffer| <= c.readOffset {
      c.readBuffer := c.readBuffer + C.Zeros(|c.readBuffer|);
    }
  }

  /** One receive and the pass over what is then held. */
  method Round(p: Text, live: bool, c: C.Connection) returns (r: int, ending: Ending, more: seq<Message>, ghost data: seq<byte>)
    requires c.readOffset < |c.readBuffer|
    modifies c`inbound, c`answers, c`asked, c`consumed, c`readOffset, c`readBuffer, c`readCount, c`delivered
    ensures c.consumed == old(c.consumed) + data && c.consumed + c.inbound == old(c.consumed + c.inbound)
    ensures if r <= 0 then data == [] && more == [] && c.readBuffer == old(c.readBuffer) && c.readOffset == old(c.readOffset) else data != []
    ensures 0 < r ==> var b := old(c.readBuffer[..c.readOffset]) + data; Passing(p, live, b, |b|) == Pass(more, ending)
    ensures 0 < r && ending.Waiting? ==> c.readOffset <= |c.readBuffer| && c.readBuffer[..c.readOffset] == ending.held
    ensures c.delivered == old(c.delivered) + Wholes(more) && c.readCount == old(c.readCount) + |more|
    ensures -1 <= r && (r != -1 ==> |c.answers| < |old(c.answers)|)
    ensures if r == -1 then C.Lost(old(c.answers), old(c.asked), c.answers, c.asked)
            else C.Calm(old(c.answers), old(c.asked), c.answers, c.asked)
    ensures old(c.Blocked()) ==> r == 0
    ensures r == 0 ==> c.inbound == [] || (old(c.Blocked()) && c.answers == old(c.answers)[1..])
  {
    hide C.Calm, C.Lost, Wholes, Passing;
    var chunk;
    NoWholes(c.delivered);
    ending, more := Overran, [];
    r, chunk := Fill(c);
    data := chunk;
    if 0 < r {
      ending, more := Drain(p, live, c);
    }
  }

  /** What one more round adds. */
  lemma OneMore(p: Text, live: bool, start: seq<byte>, chunks: seq<seq<byte>>, held: seq<byte>, data: seq<byte>, before: Pass, pass: Pass,
                consumed: seq<byte>)
    requires Passes(p, live, start, chunks) == before && before.end == Waiting(held)
    requires var b := held + data; Passing(p, live, b, |b|) == pass
    ensures Passes(p, live, start, chunks + [data]) == Pass(before.out + pass.out, pass.end)
    ensures consumed + Concat(chunks + [data]) == consumed + Concat(chunks) + data
    ensures (chunks + [data])[..|chunks|] == chunks
    ensures Wholes(before.out + pass.out) == Wholes(before.out) + Wholes(pass.out)
  {
    hide Wholes, Passing, Passes, Concat;
    PassesAppend(p, live, start, chunks, data);
    ConcatSnoc(chunks, data);
    WholesAppend(before.out, pass.out);
  }

  /** A call of the reader: it makes one pass over what it holds after each receive. */
  method Read(p: Text, live: bool, c: C.Connection, idleIn: bool)
    returns (result: Result, idle: bool, got: seq<Message>, ghost chunks: seq<seq<byte>>)
    requires c.readOffset <= |c.readBuffer|
    modifies c`inbound, c`answers, c`asked, c`consumed, c`readOffset, c`readBuffer, c`readCount, c`delivered
    ensures c.consumed + c.inbound == old(c.consumed + c.inbound) && c.consumed == old(c.consumed) + Concat(chunks)
    ensures !result.Failed? ==> c.readOffset <= |c.readBuffer|
    ensures Passes(p, live, old(c.readBuffer[..c.readOffset]), chunks)
            == Pass(got, if result.Failed? then result.why else Waiting(c.readBuffer[..c.readOffset]))
    ensures result.Failed? ==> chunks != [] && !result.why.Waiting?
                               && Passes(p, live, old(c.readBuffer[..c.readOffset]), chunks[..|chunks| - 1]).end.Waiting?
    ensures c.delivered == old(c.delivered) + Wholes(got) && c.readCount == old(c.readCount) + |got|
    ensures idle <==> idleIn && c.consumed == old(c.consumed)
    ensures result.Closed? <==> !C.Calm(old(c.answers), old(c.asked), c.answers, c.asked)
    ensures old(c.Blocked()) ==> result.Done? && c.consumed == old(c.consumed) && got == []
    ensures result.Done? ==> c.inbound == [] || C.BlockedLast(old(c.answers), c.answers)
  {
    hide C.Calm, C.Lost, C.BlockedLast, Wholes, Passing, Passes, Concat;
    C.Asks(c.answers, c.asked);
    got, idle, result, chunks := [], idleIn, Done, [];
    ghost var start := c.readBuffer[..c.readOffset];
    NoWholes(c.delivered);
    NoPasses(p, live, start, c.consumed);
    while true
      invariant c.readOffset <= |c.readBuffer|
      invariant c.consumed + c.inbound == old(c.consumed + c.inbound) && c.consumed == old(c.consumed) + Concat(chunks)
      invariant Passes(p, live, start, chunks) == Pass(got, Waiting(c.readBuffer[..c.readOffset]))
      invariant c.delivered == old(c.delivered) + Wholes(got) && c.readCount == old(c.readCount) + |got|
      invariant idle <==> idleIn && c.consumed == old(c.consumed)
      invariant C.Calm(old(c.answers), old(c.asked), c.answers, c.asked)
      invariant old(c.Blocked()) ==> c.answers == old(c.answers) && c.consumed == old(c.consumed) && got == []
      decreases |c.answers|
    {
      MakeRoom(c);
      ghost var before, was, held := c.answers, c.asked, c.readBuffer[..c.readOffset];
      ghost var data;
      var r, ending, more;
      r, ending, more, data := Round(p, live, c);
      C.Settled(old(c.answers), old(c.asked), before, was, c.answers, c.asked);
      if r <= 0 {
        result := if r == 0 then Done else Closed;
        return;
      }
      idle := false;
      OneMore(p, live, start, chunks, held, data, Pass(got, Waiting(held)), Pass(more, ending), old(c.consumed));
      chunks, got := chunks + [data], got + more;
      if !ending.Waiting? {
        result := Failed(ending);
        return;
      }
    }
  }

  lemma NoPasses(p: Text, live: bool, held: seq<byte>, consumed: seq<byte>)
    ensures Passes(p, live, held, []) == Pass([], Waiting(held)) && consumed + Concat([]) == consumed
  {
  }

  /** A call with the renewed bound, or where it does no harm: what it passes on and what it holds back are the
      decoder's, however the bytes arrive; it fails only where the decoder does, and never before the end of a stream
      whose heads leave no length blank. */
  method ReadDecodes(p: Text, live: bool, c: C.Connection, idleIn: bool) returns (result: Result, idle: bool, got: seq<Message>)
    requires Reading(p, c) && (live || BoundHarmless(p, c.consumed + c.inbound))
    modifies c`inbound, c`answers, c`asked, c`consumed, c`readOffset, c`readBuffer, c`readCount, c`delivered
    ensures c.consumed + c.inbound == old(c.consumed + c.inbound) && old(c.consumed) <= c.consumed
    ensures Live(p, c.consumed).out == old(Live(p, c.consumed).out) + got
    ensures c.delivered == old(c.delivered) + Wholes(got)
    ensures if result.Failed? then Live(p, c.consumed).end == result.why && !result.why.Waiting? else Reading(p, c)
    ensures result.Closed? <==> !C.Calm(old(c.answers), old(c.asked), c.answers, c.asked)
    ensures BlankLengths.NoBlank(p, c.consumed + c.inbound) && Live(p, c.consumed + c.inbound).end.Waiting? ==> !result.Failed?
  {
    hide C.Calm, C.Lost, BlankLengths.NoBlank, Live, BoundHarmless, Wholes, Passing, Passes, Concat;
    ghost var whole, before := c.consumed + c.inbound, c.consumed;
    ghost var chunks;
    result, idle, got, chunks := Read(p, live, c, idleIn);
    if result.Failed? {
      ghost var n := |chunks| - 1;
      ConcatSnoc(chunks[..n], chunks[n]);
      assert chunks[..n] + [chunks[n]] == chunks;
      assert before + Concat(chunks[..n]) + chunks[n] == before + Concat(chunks);
      PassesFail(p, live, before, chunks[..n], chunks[n], whole);
      BlankLengths.WaitsThroughoutIff(p, whole);
      assert whole[..|c.consumed|] == c.consumed;
    } else {
      PassesDecode(p, live, before, chunks, whole);
    }
  }

  /** `Http::Read` as it is, on one printed message in any number of pieces and calls: nothing until the last
      byte is there, then the message with exactly its contents. */
  method ReadPrinted(c: C.Connection, idleIn: bool, ghost head: seq<byte>, ghost contents: seq<byte>)
    returns (result: Result, idle: bool, got: seq<Message>)
    requires H.Plain(head) && |contents| <= MAX_CONTENT
    requires Reading(Http, c) && c.consumed + c.inbound == H.Announce(head, contents)
    modifies c`inbound, c`answers, c`asked, c`consumed, c`readOffset, c`readBuffer, c`readCount, c`delivered
    ensures !result.Failed? && Reading(Http, c) && c.consumed + c.inbound == H.Announce(head, contents)
    ensures result.Closed? <==> !C.Calm(old(c.answers), old(c.asked), c.answers, c.asked)
    ensures got == if old(c.inbound) != [] && c.inbound == [] then [Message(H.Announce(head, contents), contents)] else []
  {
    ghost var m := H.Announce(head, contents);
    hide C.Calm, C.Lost, Live, BoundHarmless, H.Plain, H.Announce;
    H.PrintedIsHarmless(head, contents);
    assert m[..|c.consumed|] == c.consumed;
    H.RoundTrip(head, contents, |c.consumed|);
    result, idle, got := ReadDecodes(Http, false, c, idleIn);
    assert m[..|c.consumed|] == c.consumed;
    H.RoundTrip(head, contents, |c.consumed|);
  }
}
