/** What the framing readers must compute, said once and independently of how the bytes arrive:
    an automaton that eats the stream one byte at a time.  `Connection` proves that its resumable
    readers land in this automaton's state whatever the socket's chunking; this module proves that
    the automaton undoes the writers. */
module Framing {
  import opened Bytes

  /** The length-announcing wire formats read by `Message::Read` and `ISCSI::Read`. */
  datatype Protocol = Message | Iscsi

  const MAX_MESSAGE: nat := 8 * 1024 * 1024

  /** Bytes that must be seen before the size of the message is known. */
  function HeadLength(p: Protocol): nat {
    if p.Message? then 4 else 8
  }

  /** `n` rounded up to a multiple of four. */
  function Padded(n: nat): (r: nat)
    ensures r % 4 == 0 && n <= r < n + 4
  {
    if n % 4 == 0 then n else n + 4 - n % 4
  }

  /** Size of the message buffer a header announces. */
  function Announced(p: Protocol, head: seq<byte>): nat
    requires |head| == HeadLength(p)
  {
    if p.Message? then FromLE32(head) else Padded(48 + head[4] + FromBE24(head[5..8]))
  }

  /** The part of the header that belongs to the message: none of a length prefix, all of an
      iSCSI basic header segment. */
  function Kept(p: Protocol, head: seq<byte>): seq<byte> {
    if p.Message? then [] else head
  }

  datatype State =
    | Head(got: seq<byte>)
    | Body(size: nat, got: seq<byte>)
    | Oversized

  /** A reader's state together with everything it has handed out so far. */
  datatype Reader = Reader(state: State, out: seq<seq<byte>>)

  const START := Reader(Head([]), [])

  predicate WellFormed(p: Protocol, s: State) {
    match s
    case Head(got) => |got| < HeadLength(p)
    case Body(size, got) => |got| < size <= MAX_MESSAGE
    case Oversized => true
  }

  /** Bytes the reader asks the socket for: never more than the current header or message. */
  function Wanted(p: Protocol, s: State): nat
    requires WellFormed(p, s)
  {
    match s
    case Head(got) => HeadLength(p) - |got|
    case Body(size, got) => size - |got|
    case Oversized => 0
  }

  /** What follows a complete header: a message (an empty one is a ping), a body, or a refusal. */
  function Opened(p: Protocol, head: seq<byte>, out: seq<seq<byte>>): Reader
    requires |head| == HeadLength(p)
  {
    var size := Announced(p, head);
    if size > MAX_MESSAGE then Reader(Oversized, out)
    else if size == 0 then Reader(Head([]), out + [[]])
    else Reader(Body(size, Kept(p, head)), out)
  }

  function Push(p: Protocol, r: Reader, b: byte): (r': Reader)
    requires WellFormed(p, r.state)
    ensures WellFormed(p, r'.state)
    ensures r.out <= r'.out
  {
    match r.state
    case Head(got) =>
      if |got| + 1 == HeadLength(p) then Opened(p, got + [b], r.out)
      else r.(state := Head(got + [b]))
    case Body(size, got) =>
      if |got| + 1 == size then Reader(Head([]), r.out + [got + [b]])
      else r.(state := Body(size, got + [b]))
    case Oversized => r
  }

  function Feed(p: Protocol, r: Reader, bytes: seq<byte>): (r': Reader)
    requires WellFormed(p, r.state)
    ensures WellFormed(p, r'.state)
    ensures r.out <= r'.out
    decreases |bytes|
  {
    if bytes == [] then r else Feed(p, Push(p, r, bytes[0]), bytes[1..])
  }

  /** Fragmentation does not matter: feeding two chunks is feeding their concatenation. */
  lemma {:induction false} FeedAppend(p: Protocol, r: Reader, a: seq<byte>, b: seq<byte>)
    requires WellFormed(p, r.state)
    ensures Feed(p, r, a + b) == Feed(p, Feed(p, r, a), b)
    decreases |a|
  {
    if a == [] {
      assert a + b == b;
    } else {
      assert (a + b)[1..] == a[1..] + b;
      FeedAppend(p, Push(p, r, a[0]), a[1..], b);
    }
  }

  /** Where one chunk no longer than `Wanted` takes the reader: at most one message comes out. */
  function AfterChunk(p: Protocol, r: Reader, chunk: seq<byte>): Reader
    requires WellFormed(p, r.state) && |chunk| <= Wanted(p, r.state)
  {
    match r.state
    case Head(got) =>
      if |got + chunk| == HeadLength(p) then Opened(p, got + chunk, r.out)
      else r.(state := Head(got + chunk))
    case Body(size, got) =>
      if |got + chunk| == size then Reader(Head([]), r.out + [got + chunk])
      else r.(state := Body(size, got + chunk))
    case Oversized => r
  }

  lemma {:induction false} FeedChunk(p: Protocol, r: Reader, chunk: seq<byte>)
    requires WellFormed(p, r.state) && |chunk| <= Wanted(p, r.state)
    ensures Feed(p, r, chunk) == AfterChunk(p, r, chunk)
    decreases |chunk|
  {
    if chunk == [] {
      match r.state {
        case Head(got) => assert got + chunk == got;
        case Body(size, got) => assert got + chunk == got;
        case Oversized =>
      }
    } else if |chunk| == 1 {
      assert chunk == [chunk[0]];
      assert Feed(p, Push(p, r, chunk[0]), chunk[1..]) == Push(p, r, chunk[0]);
    } else {
      FeedChunk(p, Push(p, r, chunk[0]), chunk[1..]);
      match r.state {
        case Head(got) => assert got + [chunk[0]] + chunk[1..] == got + chunk;
        case Body(size, got) => assert got + [chunk[0]] + chunk[1..] == got + chunk;
        case Oversized =>
      }
    }
  }

  /** A rejected header stops the reader for good. */
  lemma {:induction false} FeedOversized(p: Protocol, r: Reader, bytes: seq<byte>)
    requires r.state.Oversized?
    ensures Feed(p, r, bytes) == r
    decreases |bytes|
  {
    if bytes != [] {
      FeedOversized(p, r, bytes[1..]);
    }
  }

  // ----- what the length-prefix writers put on the wire

  /** The size less `bias`, in 32-bit arithmetic. */
  function SizePrefix(bias: nat, size: nat): (r: seq<byte>)
    ensures |r| == 4
  {
    LE32((size - bias) % TWO_32)
  }

  /** What `Common::WriteMessage` sends for one message. */
  function Frame(bias: nat, m: seq<byte>): seq<byte> {
    SizePrefix(bias, |m|) + m
  }

  function FrameAll(bias: nat, ms: seq<seq<byte>>): seq<byte> {
    if ms == [] then [] else Frame(bias, ms[0]) + FrameAll(bias, ms[1..])
  }

  lemma {:induction false} FrameAllAppend(bias: nat, a: seq<seq<byte>>, b: seq<seq<byte>>)
    ensures FrameAll(bias, a + b) == FrameAll(bias, a) + FrameAll(bias, b)
    decreases |a|
  {
    if a == [] {
      assert a + b == b;
    } else {
      assert (a + b)[1..] == a[1..] + b;
      FrameAllAppend(bias, a[1..], b);
    }
  }

  /** From one suspension of a writer to the next: more messages taken, more bytes sent, and no message taken before the
      ones in front of it were sent. */
  ghost predicate SentInOrder(bias: nat, taken: seq<seq<byte>>, wire: seq<byte>, taken': seq<seq<byte>>, wire': seq<byte>) {
    && taken <= taken' && wire <= wire'
    && (taken' != taken ==> FrameAll(bias, taken'[..|taken'| - 1]) <= wire')
  }

  lemma NothingSent(bias: nat, taken: seq<seq<byte>>, wire: seq<byte>)
    ensures SentInOrder(bias, taken, wire, taken, wire)
  {
  }

  lemma SentMore(bias: nat, t0: seq<seq<byte>>, w0: seq<byte>, t1: seq<seq<byte>>, w1: seq<byte>, w2: seq<byte>)
    requires SentInOrder(bias, t0, w0, t1, w1) && w1 <= w2
    ensures SentInOrder(bias, t0, w0, t1, w2)
  {
    hide FrameAll;
  }

  lemma SentOnward(bias: nat, t0: seq<seq<byte>>, w0: seq<byte>, t1: seq<seq<byte>>, w1: seq<byte>, t2: seq<seq<byte>>, w2: seq<byte>)
    requires SentInOrder(bias, t0, w0, t1, w1) && SentInOrder(bias, t1, w1, t2, w2)
    ensures SentInOrder(bias, t0, w0, t2, w2) && t0 <= t2 && w1 <= w2
  {
    hide FrameAll;
    if t2 == t1 && t1 != t0 {
      assert FrameAll(bias, t1[..|t1| - 1]) <= w1 <= w2;
    }
  }

  lemma FrameAllSnoc(bias: nat, ms: seq<seq<byte>>, m: seq<byte>)
    ensures FrameAll(bias, ms + [m]) == FrameAll(bias, ms) + Frame(bias, m)
  {
    FrameAllAppend(bias, ms, [m]);
    assert FrameAll(bias, [m]) == Frame(bias, m) + FrameAll(bias, [m][1..]);
  }

  /** The sizes for which the message protocol promises delivery. */
  predicate Sendable(m: seq<byte>) {
    0 < |m| <= MAX_MESSAGE
  }

  lemma OpenedByPrefix(n: nat, out: seq<seq<byte>>)
    requires n <= MAX_MESSAGE
    ensures Opened(Message, LE32(n), out) == if n == 0 then Reader(Head([]), out + [[]]) else Reader(Body(n, []), out)
  {
    LE32RoundTrip(n);
  }

  lemma FeedFrame(r: Reader, m: seq<byte>)
    requires r.state == Head([]) && |m| <= MAX_MESSAGE
    ensures Feed(Message, r, Frame(0, m)) == Reader(Head([]), r.out + [m])
  {
    var head := LE32(|m|);
    assert Frame(0, m) == head + m by {
      assert (|m| - 0) % TWO_32 == |m|;
    }
    FeedAppend(Message, r, head, m);
    assert Feed(Message, r, head) == Opened(Message, head, r.out) by {
      FeedChunk(Message, r, head);
      assert [] + head == head;
    }
    OpenedByPrefix(|m|, r.out);
    if m != [] {
      FeedChunk(Message, Reader(Body(|m|, []), r.out), m);
      assert [] + m == m;
    }
  }

  /** Decoding undoes encoding, for any messages the reader accepts (empty ones are pings). */
  lemma {:induction false} RoundTrip(r: Reader, ms: seq<seq<byte>>)
    requires r.state == Head([]) && forall m | m in ms :: |m| <= MAX_MESSAGE
    ensures Feed(Message, r, FrameAll(0, ms)) == Reader(Head([]), r.out + ms)
    decreases |ms|
  {
    if ms == [] {
      assert r.out + ms == r.out;
    } else {
      FeedAppend(Message, r, Frame(0, ms[0]), FrameAll(0, ms[1..]));
      FeedFrame(r, ms[0]);
      RoundTrip(Reader(Head([]), r.out + [ms[0]]), ms[1..]);
      assert r.out + [ms[0]] + ms[1..] == r.out + ms;
    }
  }

  // ----- nothing lost, nothing invented

  /** What a reader has handed out and what it holds, written down again as bytes. */
  function Spelled(p: Protocol, r: Reader): seq<byte> {
    match p
    case Message =>
      FrameAll(0, r.out) + (match r.state
                            case Head(got) => got
                            case Body(size, got) => SizePrefix(0, size) + got
                            case Oversized => [])
    case Iscsi =>
      Concat(r.out) + if r.state.Oversized? then [] else r.state.got
  }

  /** The prefix that was read is the prefix that a writer of that size sends. */
  lemma PrefixSpells(head: seq<byte>)
    requires |head| == 4
    ensures SizePrefix(0, FromLE32(head)) == head
  {
    LE32Spells(head);
    assert (FromLE32(head) - 0) % TWO_32 == FromLE32(head);
  }

  lemma MessagePushSpells(r: Reader, b: byte)
    requires WellFormed(Message, r.state) && !Push(Message, r, b).state.Oversized?
    ensures Spelled(Message, Push(Message, r, b)) == Spelled(Message, r) + [b]
  {
    hide FrameAll, SizePrefix, FromLE32, LE32;
    var done := FrameAll(0, r.out);
    match r.state
    case Head(got) =>
      if |got| + 1 == 4 {
        PrefixSpells(got + [b]);
        FrameAllSnoc(0, r.out, []);
        assert SizePrefix(0, FromLE32(got + [b])) + [] == got + [b];
      }
      assert done + got + [b] == done + (got + [b]);
    case Body(size, got) =>
      if |got| + 1 == size {
        FrameAllSnoc(0, r.out, got + [b]);
      }
      assert done + (SizePrefix(0, size) + got) + [b] == done + (SizePrefix(0, size) + (got + [b]));
    case Oversized =>
  }

  lemma IscsiPushSpells(r: Reader, b: byte)
    requires WellFormed(Iscsi, r.state) && !Push(Iscsi, r, b).state.Oversized?
    ensures Spelled(Iscsi, Push(Iscsi, r, b)) == Spelled(Iscsi, r) + [b]
  {
    hide Concat, Announced;
    match r.state
    case Head(got) =>
      if |got| + 1 == 8 {
        AnnouncesPdu(got + [b]);
      }
      assert Concat(r.out) + got + [b] == Concat(r.out) + (got + [b]);
    case Body(size, got) =>
      ConcatSnoc(r.out, got + [b]);
      assert Concat(r.out) + got + [b] == Concat(r.out) + (got + [b]);
    case Oversized =>
  }

  /** A PDU is never empty, so its header is never taken for a ping. */
  lemma AnnouncesPdu(head: seq<byte>)
    requires |head| == 8
    ensures 48 <= Announced(Iscsi, head)
  {
  }

  /** Unless the stream is refused, the messages passed on and the bytes held spell exactly the bytes received:
      for any stream, whoever wrote it. */
  lemma {:induction false} FeedSpells(p: Protocol, r: Reader, bytes: seq<byte>)
    requires WellFormed(p, r.state) && !Feed(p, r, bytes).state.Oversized?
    ensures Spelled(p, Feed(p, r, bytes)) == Spelled(p, r) + bytes
    decreases |bytes|
  {
    if bytes == [] {
      assert Spelled(p, r) + bytes == Spelled(p, r);
    } else {
      var r1 := Push(p, r, bytes[0]);
      if r1.state.Oversized? {
        FeedOversized(p, r1, bytes[1..]);
      }
      match p {
        case Message => MessagePushSpells(r, bytes[0]);
        case Iscsi => IscsiPushSpells(r, bytes[0]);
      }
      hide Spelled, Push;
      FeedSpells(p, r1, bytes[1..]);
      assert Spelled(p, r) + [bytes[0]] + bytes[1..] == Spelled(p, r) + bytes;
    }
  }

  /** From the start of a connection. */
  lemma StreamSpelled(p: Protocol, bytes: seq<byte>)
    requires !Feed(p, START, bytes).state.Oversized?
    ensures Spelled(p, Feed(p, START, bytes)) == bytes
  {
    FeedSpells(p, START, bytes);
    assert Spelled(p, START) == [];
  }

  /** Whatever part of a framed stream has arrived, the messages handed out are a prefix of the
      messages sent, in order. */
  lemma PrefixRoundTrip(ms: seq<seq<byte>>, arrived: seq<byte>, rest: seq<byte>)
    requires forall m | m in ms :: |m| <= MAX_MESSAGE
    requires arrived + rest == FrameAll(0, ms)
    ensures Feed(Message, START, arrived).out <= ms
    ensures rest == [] ==> Feed(Message, START, arrived) == Reader(Head([]), ms)
  {
    RoundTrip(START, ms);
    FeedAppend(Message, START, arrived, rest);
    assert START.out + ms == ms;
    if rest == [] {
      assert arrived + rest == arrived;
    }
  }

  /** ... and the reader never refuses such a stream. */
  lemma StreamAccepted(ms: seq<seq<byte>>, arrived: seq<byte>, rest: seq<byte>)
    requires forall m | m in ms :: |m| <= MAX_MESSAGE
    requires arrived + rest == FrameAll(0, ms)
    ensures !Feed(Message, START, arrived).state.Oversized?
  {
    RoundTrip(START, ms);
    FeedAppend(Message, START, arrived, rest);
    if Feed(Message, START, arrived).state.Oversized? {
      FeedOversized(Message, Feed(Message, START, arrived), rest);
    }
  }
}
