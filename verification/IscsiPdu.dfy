/** The iSCSI protocol data units a target emits: the 48-byte basic header segment as a record, its
    byte layout (sections 11.2, 11.7 and 11.8 of RFC 7143), and the buffers handed to the socket.
    They are what `ISCSI::Read` must split a stream back into. */
module IscsiPdu {
  import opened Bytes
  import opened Framing

  /** The header fields the target sets.  `word0` travels in host order, the rest in network order. */
  datatype Header = Header(
    cmd: nat, finished: bool, overflow: bool, underflow: bool, status: bool,
    taskTag: seq<byte>,
    word0: nat,
    statSN: nat, expCmdSN: nat, maxCmdSN: nat,
    word4: nat,        // DataSN or R2TSN
    word5: nat,        // Buffer Offset
    word6: nat)        // residual count or desired length

  predicate ValidHeader(h: Header) {
    && h.cmd < 64 && |h.taskTag| == 4
    && h.word0 < TWO_32 && h.statSN < TWO_32 && h.expCmdSN < TWO_32 && h.maxCmdSN < TWO_32
    && h.word4 < TWO_32 && h.word5 < TWO_32 && h.word6 < TWO_32
  }

  const HEADER_SIZE: nat := 48
  const NO_LUN: seq<byte> := [0, 0, 0, 0, 0, 0, 0, 0]

  function FlagByte(h: Header): byte {
    (if h.finished then 128 else 0) + (if h.overflow then 4 else 0) + (if h.underflow then 2 else 0) + (if h.status then 1 else 0)
  }

  /** The first eight bytes: command, flags, two reserved bytes, no additional header, data length. */
  function Peek(h: Header, size: nat): (r: seq<byte>)
    requires ValidHeader(h)
    ensures |r| == 8
  {
    [h.cmd, FlagByte(h), 0, 0, 0] + BE24(size)
  }

  /** The next sixteen: LUN, initiator task tag, and the word that is the target transfer tag. */
  function Tags(h: Header): (r: seq<byte>)
    requires ValidHeader(h)
    ensures |r| == 16
  {
    NO_LUN + h.taskTag + LE32(h.word0)
  }

  function Three(a: nat, b: nat, c: nat): (r: seq<byte>)
    requires a < TWO_32 && b < TWO_32 && c < TWO_32
    ensures |r| == 12
  {
    BE32(a) + BE32(b) + BE32(c)
  }

  function Encode(h: Header, size: nat): (r: seq<byte>)
    requires ValidHeader(h)
    ensures |r| == HEADER_SIZE
  {
    Peek(h, size) + Tags(h) + Three(h.statSN, h.expCmdSN, h.maxCmdSN) + Three(h.word4, h.word5, h.word6)
  }

  function Word(b: seq<byte>, i: nat): nat
    requires 4 * i + 4 <= |b|
  {
    FromBE32(b[4 * i..4 * i + 4])
  }

  predicate Bit(b: byte, weight: nat)
    requires 0 < weight
  {
    b / weight % 2 == 1
  }

  lemma FlagBits(h: Header)
    ensures var f := FlagByte(h);
            Bit(f, 128) == h.finished && Bit(f, 4) == h.overflow && Bit(f, 2) == h.underflow && Bit(f, 1) == h.status
  {
    var f := FlagByte(h);
    assert f / 128 == if h.finished then 1 else 0;
    assert f / 4 == (if h.finished then 32 else 0) + if h.overflow then 1 else 0;
    assert f / 2 == (if h.finished then 64 else 0) + (if h.overflow then 2 else 0) + if h.underflow then 1 else 0;
  }

  /** The receiver's reading of a header. */
  function Decode(b: seq<byte>): (Header, nat)
    requires |b| == HEADER_SIZE
  {
    var peek, tags, sequencing, details := b[..8], b[8..24], b[24..36], b[36..];
    var f := peek[1];
    (Header(peek[0], Bit(f, 128), Bit(f, 4), Bit(f, 2), Bit(f, 1),
            tags[8..12], FromLE32(tags[12..]),
            Word(sequencing, 0), Word(sequencing, 1), Word(sequencing, 2),
            Word(details, 0), Word(details, 1), Word(details, 2)),
     FromBE24(peek[5..]))
  }

  lemma ThreeWords(a: nat, b: nat, c: nat)
    requires a < TWO_32 && b < TWO_32 && c < TWO_32
    ensures Word(Three(a, b, c), 0) == a && Word(Three(a, b, c), 1) == b && Word(Three(a, b, c), 2) == c
  {
    BE32RoundTrip(a);
    BE32RoundTrip(b);
    BE32RoundTrip(c);
    hide BE32, FromBE32;
    var s := Three(a, b, c);
    assert s[0..4] == BE32(a) && s[4..8] == BE32(b) && s[8..12] == BE32(c);
  }

  lemma TagParts(h: Header)
    requires ValidHeader(h)
    ensures Tags(h)[8..12] == h.taskTag && FromLE32(Tags(h)[12..]) == h.word0
  {
    LE32RoundTrip(h.word0);
    hide LE32, FromLE32;
    assert Tags(h)[8..12] == h.taskTag && Tags(h)[12..] == LE32(h.word0);
  }

  lemma PeekParts(h: Header, size: nat)
    requires ValidHeader(h) && size < 0x100_0000
    ensures Peek(h, size)[0] == h.cmd && Peek(h, size)[1] == FlagByte(h) && Peek(h, size)[4] == 0
    ensures FromBE24(Peek(h, size)[5..]) == size && Peek(h, size)[5..8] == Peek(h, size)[5..]
  {
    BE24RoundTrip(size);
    hide BE24, FromBE24;
    assert Peek(h, size)[5..] == BE24(size);
  }

  lemma Sections(a: seq<byte>, b: seq<byte>, c: seq<byte>, d: seq<byte>)
    requires |a| == 8 && |b| == 16 && |c| == 12 && |d| == 12
    ensures var s := a + b + c + d;
            s[..8] == a && s[8..24] == b && s[24..36] == c && s[36..] == d
  {
  }

  /** The layout loses nothing: every field, and the 24-bit data length, is recovered. */
  lemma DecodeEncode(h: Header, size: nat)
    requires ValidHeader(h) && size < 0x100_0000
    ensures Decode(Encode(h, size)) == (h, size)
  {
    Sections(Peek(h, size), Tags(h), Three(h.statSN, h.expCmdSN, h.maxCmdSN), Three(h.word4, h.word5, h.word6));
    PeekParts(h, size);
    FlagBits(h);
    TagParts(h);
    ThreeWords(h.statSN, h.expCmdSN, h.maxCmdSN);
    ThreeWords(h.word4, h.word5, h.word6);
    hide Peek, Tags, Three, Word, FromBE24, FromLE32, FlagByte, Bit;
  }

  /** `ISCSIReply<S>::ToBuffer`: the header and as much of the `S`-byte data area behind it as the
      padded length covers; with no data area, the header alone, whatever length it announces. */
  function BufferLength(area: nat, size: nat): nat {
    if area == 0 then HEADER_SIZE else Padded(HEADER_SIZE + size)
  }

  function ToBuffer(h: Header, data: seq<byte>, size: nat): (r: seq<byte>)
    requires ValidHeader(h) && BufferLength(|data|, size) <= HEADER_SIZE + |data|
    ensures |r| == BufferLength(|data|, size)
  {
    (Encode(h, size) + data)[..BufferLength(|data|, size)]
  }

  /** One reply as the initiator should see it: a buffer with its data, or a bare header followed by
      the data block that a disk read produced. */
  datatype Unit =
    | Whole(h: Header, data: seq<byte>, size: nat)
    | Split(h: Header, block: seq<byte>)

  predicate ValidUnit(u: Unit) {
    && ValidHeader(u.h)
    && match u
       case Whole(_, data, size) =>
         data != [] && size < 0x100_0000 && Padded(HEADER_SIZE + size) <= HEADER_SIZE + |data| && Padded(HEADER_SIZE + size) <= MAX_MESSAGE
       case Split(_, block) =>
         |block| % 4 == 0 && HEADER_SIZE + |block| <= MAX_MESSAGE
  }

  /** The separate writes of one unit, in order. */
  function Writes(u: Unit): seq<seq<byte>>
    requires ValidUnit(u)
  {
    match u
    case Whole(h, data, size) => [ToBuffer(h, data, size)]
    case Split(h, block) => [ToBuffer(h, [], |block|), block]
  }

  function AllWrites(us: seq<Unit>): seq<seq<byte>>
    requires forall u | u in us :: ValidUnit(u)
  {
    if us == [] then [] else Writes(us[0]) + AllWrites(us[1..])
  }

  function DataSize(u: Unit): nat {
    match u
    case Whole(_, _, size) => size
    case Split(_, block) => |block|
  }

  function Pdu(u: Unit): seq<byte>
    requires ValidUnit(u)
  {
    Concat(Writes(u))
  }

  function Pdus(us: seq<Unit>): (r: seq<seq<byte>>)
    requires forall u | u in us :: ValidUnit(u)
    ensures |r| == |us|
  {
    if us == [] then [] else [Pdu(us[0])] + Pdus(us[1..])
  }

  lemma PduIs(u: Unit)
    requires ValidUnit(u)
    ensures Pdu(u) == match u case Whole(h, data, size) => ToBuffer(h, data, size) case Split(h, block) => Encode(h, |block|) + block
  {
    hide Encode;
    match u {
      case Whole(h, data, size) =>
        var buffer: seq<byte> := ToBuffer(h, data, size);
        assert Concat([buffer]) == buffer + Concat([]);
        assert buffer + [] == buffer;
      case Split(h, block) =>
        var header := ToBuffer(h, [], |block|);
        assert [header, block][1..] == [block] && [block][1..] == [];
        assert header == Encode(h, |block|);
        ConcatTwo(header, block);
    }
  }

  lemma ConcatTwo(a: seq<byte>, b: seq<byte>)
    ensures Concat([a, b]) == a + b
  {
    assert [a, b][1..] == [b] && [b][1..] == [];
    assert Concat([b]) == b + Concat([]);
  }

  lemma PduShape(u: Unit)
    requires ValidUnit(u)
    ensures |Pdu(u)| == Padded(HEADER_SIZE + DataSize(u)) <= MAX_MESSAGE
    ensures Pdu(u)[..HEADER_SIZE] == Encode(u.h, DataSize(u))
  {
    hide Encode, Pdu, ToBuffer, Padded, ValidHeader;
    PduIs(u);
    match u {
      case Whole(h, data, size) => BufferShape(h, data, size);
      case Split(h, block) => BlockShape(h, block);
    }
  }

  lemma BlockShape(h: Header, block: seq<byte>)
    requires ValidHeader(h) && |block| % 4 == 0 && HEADER_SIZE + |block| <= MAX_MESSAGE
    ensures |Encode(h, |block|) + block| == Padded(HEADER_SIZE + |block|) == HEADER_SIZE + |block|
    ensures (Encode(h, |block|) + block)[..HEADER_SIZE] == Encode(h, |block|)
  {
    hide Encode;
    Prefix(Encode(h, |block|), block, HEADER_SIZE + |block|);
  }

  lemma BufferShape(h: Header, data: seq<byte>, size: nat)
    requires ValidHeader(h) && data != [] && Padded(HEADER_SIZE + size) <= HEADER_SIZE + |data|
    ensures |ToBuffer(h, data, size)| == Padded(HEADER_SIZE + size)
    ensures ToBuffer(h, data, size)[..HEADER_SIZE] == Encode(h, size)
  {
    hide Encode, Padded;
    Prefix(Encode(h, size), data, Padded(HEADER_SIZE + size));
  }

  lemma Prefix(header: seq<byte>, data: seq<byte>, n: nat)
    requires |header| <= n <= |header| + |data|
    ensures (header + data)[..n][..|header|] == header && (header + data)[..|header| + |data|] == header + data
  {
  }

  lemma AnnouncedByPeek(h: Header, size: nat)
    requires ValidHeader(h) && size < 0x100_0000
    ensures Announced(Iscsi, Peek(h, size)) == Padded(HEADER_SIZE + size)
  {
    PeekParts(h, size);
    hide Peek, FromBE24;
  }

  /** A unit's own header announces exactly its length, so its data length is recovered and its
      padding is under four bytes. */
  lemma SelfDelimiting(u: Unit)
    requires ValidUnit(u)
    ensures var pdu := Pdu(u);
            && HEADER_SIZE <= |pdu| <= MAX_MESSAGE
            && Announced(Iscsi, pdu[..8]) == |pdu|
            && Decode(pdu[..HEADER_SIZE]) == (u.h, DataSize(u))
            && 0 <= |pdu| - HEADER_SIZE - DataSize(u) < 4
  {
    hide Encode, Decode, Pdu, Announced, Peek;
    var size := DataSize(u);
    PduShape(u);
    DecodeEncode(u.h, size);
    AnnouncedByPeek(u.h, size);
    EncodeStarts(u.h, size);
    assert Pdu(u)[..8] == Pdu(u)[..HEADER_SIZE][..8];
  }

  lemma EncodeStarts(h: Header, size: nat)
    requires ValidHeader(h)
    ensures Encode(h, size)[..8] == Peek(h, size)
  {
    hide Peek, Tags, Three;
  }

  /** A bare header and a data block are cut apart where they should be exactly if the block needs no padding,
      which is not sent. */
  lemma BareReplyIff(h: Header, block: seq<byte>)
    requires ValidHeader(h) && |block| < 0x100_0000
    ensures Announced(Iscsi, (Encode(h, |block|) + block)[..8]) == |Encode(h, |block|) + block| <==> |block| % 4 == 0
  {
    hide Encode, Announced, Peek, ValidHeader;
    EncodeStarts(h, |block|);
    AnnouncedByPeek(h, |block|);
    assert (Encode(h, |block|) + block)[..8] == Encode(h, |block|)[..8];
    assert |Encode(h, |block|) + block| == HEADER_SIZE + |block|;
    AddsNothing(|block|);
  }

  lemma AddsNothing(n: nat)
    ensures Padded(HEADER_SIZE + n) == HEADER_SIZE + n <==> n % 4 == 0
  {
    hide Padded;
    assert (HEADER_SIZE + n) % 4 == n % 4;
  }

  predicate SelfSized(pdu: seq<byte>) {
    HEADER_SIZE <= |pdu| <= MAX_MESSAGE && Announced(Iscsi, pdu[..8]) == |pdu|
  }

  /** The reader cuts one complete PDU out of the stream. */
  lemma FeedPdu(r: Reader, pdu: seq<byte>)
    requires r.state == Head([]) && SelfSized(pdu)
    ensures Feed(Iscsi, r, pdu) == Reader(Head([]), r.out + [pdu])
  {
    var peek, rest := pdu[..8], pdu[8..];
    assert pdu == peek + rest;
    FeedAppend(Iscsi, r, peek, rest);
    FeedChunk(Iscsi, r, peek);
    assert [] + peek == peek;
    FeedChunk(Iscsi, Reader(Body(|pdu|, peek), r.out), rest);
  }

  lemma {:induction false} FeedPdus(r: Reader, pdus: seq<seq<byte>>)
    requires r.state == Head([]) && forall pdu | pdu in pdus :: SelfSized(pdu)
    ensures Feed(Iscsi, r, Concat(pdus)) == Reader(Head([]), r.out + pdus)
    decreases |pdus|
  {
    if pdus == [] {
      assert r.out + pdus == r.out;
    } else {
      var pdu, rest := pdus[0], pdus[1..];
      assert pdu in pdus;
      FeedAppend(Iscsi, r, pdu, Concat(rest));
      FeedPdu(r, pdu);
      hide Feed, SelfSized, Announced;
      FeedPdus(Reader(Head([]), r.out + [pdu]), rest);
      assert r.out + [pdu] + rest == r.out + pdus;
    }
  }

  /** The separate writes add up to the PDUs. */
  lemma {:induction false} WritesArePdus(us: seq<Unit>)
    requires forall u | u in us :: ValidUnit(u)
    ensures Concat(AllWrites(us)) == Concat(Pdus(us))
    ensures forall pdu | pdu in Pdus(us) :: SelfSized(pdu)
    decreases |us|
  {
    hide Writes, Announced;
    if us != [] {
      ConcatAppend(Writes(us[0]), AllWrites(us[1..]));
      SelfDelimiting(us[0]);
      WritesArePdus(us[1..]);
    }
  }

  /** Any sequence of replies, however it is fragmented on the way, is split back into exactly those
      PDUs, in order. */
  lemma Reframed(us: seq<Unit>)
    requires forall u | u in us :: ValidUnit(u)
    ensures Feed(Iscsi, START, Concat(AllWrites(us))) == Reader(Head([]), Pdus(us))
  {
    WritesArePdus(us);
    hide Feed, AllWrites, Pdus, SelfSized, ValidUnit;
    FeedPdus(START, Pdus(us));
    assert START.out + Pdus(us) == Pdus(us);
  }
}
