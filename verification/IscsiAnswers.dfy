/** What the initiator reads in the reply to a command: the one PDU that its reader cuts out, decoded. */
module IscsiAnswers {
  import opened Bytes
  import opened Framing
  import opened IscsiPdu
  import opened IscsiTarget
  import opened IscsiWire
  import IscsiReplies
  import IscsiReads
  import IscsiTransfers

  /** A PDU as the initiator takes it apart: the header, and as much data as it announces. */
  datatype Answer = Answer(h: Header, data: seq<byte>)

  function Understood(pdu: seq<byte>): Answer
    requires HEADER_SIZE <= |pdu|
  {
    var (h, size) := Decode(pdu[..HEADER_SIZE]);
    Answer(h, if HEADER_SIZE + size <= |pdu| then pdu[HEADER_SIZE..HEADER_SIZE + size] else [])
  }

  /** On the wire, the outputs are one PDU, and it says `a`. */
  ghost predicate Says(out: seq<Out>, a: Answer) {
    && AllEmittable(out)
    && SelfSized(Wire(out)) && Feed(Iscsi, START, Wire(out)) == Reader(Head([]), [Wire(out)])
    && Decode(Wire(out)[..HEADER_SIZE]).1 == |a.data|
    && Understood(Wire(out)) == a
  }

  lemma DataBehind(h: Header, data: seq<byte>, size: nat)
    requires ValidHeader(h) && data != [] && Padded(HEADER_SIZE + size) <= HEADER_SIZE + |data|
    ensures var b := ToBuffer(h, data, size);
            HEADER_SIZE + size <= |b| && b[HEADER_SIZE..HEADER_SIZE + size] == data[..size]
  {
    hide Encode, Padded;
    var b, all := ToBuffer(h, data, size), Encode(h, size) + data;
    assert b[HEADER_SIZE..HEADER_SIZE + size] == all[HEADER_SIZE..HEADER_SIZE + size] == data[..size];
  }

  /** A reply that fits says its header and the first `size` bytes of its data. */
  lemma ReplySays(o: Out)
    requires ReplyFits(o)
    ensures o.size <= |o.data| && Says([o], Answer(o.h, o.data[..o.size]))
  {
    hide Feed, Decode, Announced, Wire, Spells, Pdu, AreaFits, ValidUnit;
    var u := UnitFor(o);
    ReplyIsPdu(o);
    SelfDelimiting(u);
    FeedPdu(START, Pdu(u));
    PduSays(o);
    assert [] + [Pdu(u)] == [Pdu(u)];
  }

  lemma ReplyIsPdu(o: Out)
    requires ReplyFits(o)
    ensures ValidUnit(UnitFor(o)) && AllEmittable([o]) && Wire([o]) == Pdu(UnitFor(o)) && UnitFor(o).h == o.h
    ensures DataSize(UnitFor(o)) == o.size
  {
    hide Wire, AllWrites, Concat, ValidHeader;
    ReplySpells(o);
    OnePdu(UnitFor(o));
  }

  lemma PduSays(o: Out)
    requires ReplyFits(o)
    ensures o.size <= |o.data| && ValidUnit(UnitFor(o))
    ensures var pdu := Pdu(UnitFor(o));
            HEADER_SIZE + o.size <= |pdu| && pdu[HEADER_SIZE..HEADER_SIZE + o.size] == o.data[..o.size]
  {
    hide Encode, ToBuffer, Pdu, Padded, ValidHeader;
    PduIs(UnitFor(o));
    if o.data != [] {
      DataBehind(o.h, o.data, o.size);
    }
  }

  lemma OnePdu(u: Unit)
    requires ValidUnit(u)
    ensures Concat(AllWrites([u])) == Pdu(u)
  {
    assert AllWrites([u]) == Writes(u) + [] == Writes(u);
  }

  // ----- commands that are answered at once

  function Smaller(a: nat, b: nat): nat {
    if a < b then a else b
  }

  /** The answer to INQUIRY and its like: if the initiator's buffer is longer than the answer, it is told so, and by how
      much; if shorter, likewise, and gets what fits; never both.  The numbers are those of the connection. */
  ghost predicate Accounted(a: Answer, r: Request, sn: nat, cmdSN: nat)
    requires r.Inquire?
  {
    && a.h.cmd == r.cmd && a.h.taskTag == r.tag && a.h.finished
    && (a.h.status <==> r.cmd == DATA_IN)
    && (a.h.underflow <==> r.transferLength > r.size)
    && (a.h.overflow <==> r.transferLength < r.size)
    && (r.transferLength >= r.size ==> a.h.word6 == r.transferLength - r.size)
    && (r.transferLength <= r.size ==> a.h.word6 == r.size - r.transferLength)
    && a.h.word0 == a.h.word4 == a.h.word5 == 0
    && a.data <= r.data && |a.data| == Smaller(r.size, r.transferLength)
    && Numbered(a.h, sn, cmdSN)
  }

  predicate Numbered(h: Header, sn: nat, cmdSN: nat) {
    h.statSN == sn && h.expCmdSN == cmdSN && h.maxCmdSN == (cmdSN + 64) % TWO_32
  }

  lemma InquiryIsAnswered(t: Target, r: Request, blockSize: nat) returns (a: Answer)
    requires Valid(t, blockSize) && WellFormedRequest(r, blockSize) && r.Inquire? && AreaFits(r.data, r.size)
    ensures t.out <= Execute(t, r, blockSize).out && Says(Execute(t, r, blockSize).out[|t.out|..], a)
    ensures Accounted(a, r, t.sn, t.cmdSN)
  {
    hide Execute, Says, Accounted, ReplyFits, AreaFits;
    var o := InquiryReply(t, r, blockSize);
    ReplySays(o);
    a := Answer(o.h, o.data[..o.size]);
  }

  lemma InquiryReply(t: Target, r: Request, blockSize: nat) returns (o: Out)
    requires Valid(t, blockSize) && WellFormedRequest(r, blockSize) && r.Inquire? && AreaFits(r.data, r.size)
    ensures t.out <= Execute(t, r, blockSize).out && Execute(t, r, blockSize).out[|t.out|..] == [o]
    ensures o.Reply? && ReplyFits(o) && o.size <= |o.data| && Accounted(Answer(o.h, o.data[..o.size]), r, t.sn, t.cmdSN)
  {
    hide AreaFits, ValidHeader;
    SendFits(t, r.tag, r.transferLength, NO_WORDS, r.data, r.size, r.cmd, r.cmd == DATA_IN, true, true);
    AreaCovers(r.data, r.size);
    o := Execute(t, r, blockSize).out[|t.out|];
  }

  lemma AreaCovers(data: seq<byte>, size: nat)
    requires AreaFits(data, size)
    ensures size <= |data| && size < TWO_32
  {
  }

  // ----- the other commands

  /** A header without flags but the final bit, numbered by the connection. */
  predicate Bare(h: Header, cmd: nat, tag: seq<byte>, finished: bool, sn: nat, cmdSN: nat) {
    && h.cmd == cmd && h.taskTag == tag && h.finished == finished
    && !h.overflow && !h.underflow && !h.status
    && Numbered(h, sn, cmdSN)
  }

  /** What a command other than a read or an inquiry is answered with: the reply to a login, text or logout command with
      its text; the status of a write that has all its data; or the request for the data that a write still lacks. */
  ghost predicate Suits(a: Answer, t: Target, r: Request) {
    match r
    case Login(tag, _, _, _, text, size) => Bare(a.h, 0x23, tag, true, t.sn, t.cmdSN) && a.data <= text && |a.data| == size
    case Text(tag, finished, text, size) => Bare(a.h, 0x24, tag, finished, t.sn, t.cmdSN) && a.data <= text && |a.data| == size
    case Logout(tag, finished) => Bare(a.h, 0x26, tag, finished, t.sn, t.cmdSN) && a.data == []
    case Write10(tag, _, _, _, _, data) =>
      && a.data == [] && Bare(a.h, if Starts(r) then 0x31 else 0x21, tag, true, t.sn, t.cmdSN)
      && (Starts(r) ==> a.h.word0 == t.currentTransfer % 128 && a.h.word4 == 0 && a.h.word5 == |data|)
    case DataOut(tag, _, _, _) => a.data == [] && Bare(a.h, 0x21, tag, true, t.sn, t.cmdSN)
    case _ => false
  }

  /** Which commands are answered: a resumed login, an unknown command, a bad transfer tag and a piece that leaves the
      count of its transfer incomplete are not. */
  predicate IsAnswered(t: Target, r: Request, blockSize: nat)
    requires |t.transfers| == 128 && blockSize > 0
  {
    match r
    case Login(_, _, resumed, _, _, _) => !resumed
    case DataOut(_, slot, _, data) =>
      slot < 128 && (t.transfers[slot].current + |data| / blockSize) % TWO_32 == t.transfers[slot].length
    case Unsupported => false
    case _ => true
  }

  lemma CommandIsAnswered(t: Target, r: Request, blockSize: nat) returns (a: Answer)
    requires Valid(t, blockSize) && WellFormedRequest(r, blockSize) && Framable(t, r, blockSize)
    requires IsAnswered(t, r, blockSize) && !r.Read10? && !r.Inquire?
    ensures t.out <= Execute(t, r, blockSize).out && Says(Execute(t, r, blockSize).out[|t.out|..], a)
    ensures Suits(a, t, r)
  {
    hide Execute, Says, Suits, ReplyFits, IsAnswered, Framable;
    var o := SuitingReply(t, r, blockSize);
    ReplySays(o);
    a := Answer(o.h, o.data[..o.size]);
  }

  lemma SuitingReply(t: Target, r: Request, blockSize: nat) returns (o: Out)
    requires Valid(t, blockSize) && WellFormedRequest(r, blockSize) && Framable(t, r, blockSize)
    requires IsAnswered(t, r, blockSize) && !r.Read10? && !r.Inquire?
    ensures t.out <= Execute(t, r, blockSize).out && Execute(t, r, blockSize).out[|t.out|..] == [o]
    ensures o.Reply? && ReplyFits(o) && o.size <= |o.data| && Suits(Answer(o.h, o.data[..o.size]), t, r)
  {
    hide AreaFits, ValidHeader, Send, SendPlain, DoWrite10, DoDataOut;
    NoDataFits();
    match r
    case Login(tag, final, resumed, maxRecv, text, size) =>
      o := PlainReply(t.(maxRecv := maxRecv), tag, true, LOGIN_REPLY, text, size, final);
    case Text(tag, finished, text, size) => o := PlainReply(t, tag, finished, TEXT_REPLY, text, size, true);
    case Logout(tag, finished) => o := PlainReply(t, tag, finished, LOGOUT_REPLY, [], 0, true);
    case Write10(_, _, _, _, _, _) => o := WriteReply(t, r, blockSize);
    case DataOut(_, _, _, _) => o := StatusReply(t, r, blockSize);
  }

  lemma PlainReply(t: Target, tag: seq<byte>, finished: bool, cmd: nat, data: seq<byte>, size: nat, advance: bool) returns (o: Out)
    requires IscsiReads.FitsFields(t, tag) && cmd < 64 && AreaFits(data, size)
    ensures var out := SendPlain(t, tag, finished, cmd, data, size, advance).out; t.out <= out && out[|t.out|..] == [o]
    ensures o.Reply? && ReplyFits(o) && o.size == size <= |data| && o.data == data
    ensures Bare(o.h, cmd, tag, finished, t.sn, t.cmdSN)
  {
    PlainFits(t, tag, finished, cmd, data, size, advance);
    AreaCovers(data, size);
    hide AreaFits, ValidHeader;
    o := SendPlain(t, tag, finished, cmd, data, size, advance).out[|t.out|];
  }

  lemma EmptyReply(t: Target, tag: seq<byte>, words: Words, cmd: nat) returns (o: Out)
    requires IscsiReads.FitsFields(t, tag) && cmd < 64
    requires words.word0 < TWO_32 && words.word4 < TWO_32 && words.word5 < TWO_32 && words.word6 < TWO_32
    ensures var out := Send(t, tag, 0, words, NO_DATA, 0, cmd, false, false, true).out; t.out <= out && out[|t.out|..] == [o]
    ensures o.Reply? && ReplyFits(o) && o.size == 0 && Bare(o.h, cmd, tag, true, t.sn, t.cmdSN)
    ensures o.h.word0 == words.word0 && o.h.word4 == words.word4 && o.h.word5 == words.word5
  {
    NoDataFits();
    SendFits(t, tag, 0, words, NO_DATA, 0, cmd, false, false, true);
    hide AreaFits, ValidHeader;
    o := Send(t, tag, 0, words, NO_DATA, 0, cmd, false, false, true).out[|t.out|];
  }

  lemma WriteReply(t: Target, r: Request, blockSize: nat) returns (o: Out)
    requires Valid(t, blockSize) && WellFormedRequest(r, blockSize) && r.Write10?
    ensures t.out <= DoWrite10(t, r, blockSize).out && DoWrite10(t, r, blockSize).out[|t.out|..] == [o]
    ensures o.Reply? && ReplyFits(o) && o.size == 0 && Suits(Answer(o.h, []), t, r)
  {
    hide Send, ReplyFits, SendR2Ts, AreaFits, ValidHeader;
    if Starts(r) {
      IscsiTransfers.StartIsOneReply(t, r, blockSize);
      o := EmptyReply(IscsiTransfers.Began(t, r, blockSize), r.tag, IscsiTransfers.Asking(t, r), READY);
    } else {
      o := EmptyReply(t, r.tag, NO_WORDS, SCSI_REPLY);
    }
  }

  lemma StatusReply(t: Target, r: Request, blockSize: nat) returns (o: Out)
    requires Valid(t, blockSize) && WellFormedRequest(r, blockSize) && r.DataOut? && IsAnswered(t, r, blockSize)
    ensures t.out <= DoDataOut(t, r, blockSize).out && DoDataOut(t, r, blockSize).out[|t.out|..] == [o]
    ensures o.Reply? && ReplyFits(o) && o.size == 0 && Suits(Answer(o.h, []), t, r)
  {
    hide Send, ReplyFits, AreaFits, ValidHeader;
    var was := t.transfers[r.slot];
    var handle := was.(current := Wrap(was.current + BlocksIn(|r.data|, blockSize)));
    o := EmptyReply(t.(transfers := t.transfers[r.slot := handle]), r.tag, NO_WORDS, SCSI_REPLY);
  }

  /** And the rest is silent: nothing goes out, and the numbers stay. */
  lemma OthersAreSilent(t: Target, r: Request, blockSize: nat)
    requires Valid(t, blockSize) && WellFormedRequest(r, blockSize) && !IsAnswered(t, r, blockSize)
    ensures var t' := Execute(t, r, blockSize); t'.out == t.out && t'.sn == t.sn && t'.cmdSN == t.cmdSN
  {
  }

  // ----- command numbers

  /** The replies that keep the command number: those to logins that are not the last of their negotiation. */
  function Kept(rs: seq<Request>): nat {
    if rs == [] then 0 else (if rs[0].Login? && !rs[0].resumed && !rs[0].final then 1 else 0) + Kept(rs[1..])
  }

  function Apart(a: nat, b: nat): int {
    (a - b) % TWO_32
  }

  /** How far the command number runs ahead of the status number. */
  function Ahead(t: Target): int {
    Apart(t.cmdSN, t.sn)
  }

  /** `k` less, modulo 2^32. */
  function Back(d: int, k: nat): int {
    (d - k) % TWO_32
  }

  lemma Shifted(n: int, q: int)
    ensures (n + q * TWO_32) % TWO_32 == n % TWO_32
  {
  }

  lemma BothStep(a: nat, b: nat)
    ensures Apart(Wrap(a + 1), Wrap(b + 1)) == Apart(a, b)
    ensures Apart(a, Wrap(b + 1)) == Back(Apart(a, b), 1)
  {
    var i, j, k := (a + 1) / TWO_32, (b + 1) / TWO_32, (a - b) / TWO_32;
    assert Wrap(a + 1) - Wrap(b + 1) == a - b + (j - i) * TWO_32;
    Shifted(a - b, j - i);
    assert Apart(a, b) - 1 == a - b - 1 + (-k) * TWO_32;
    Shifted(a - b - 1, -k);
    assert a - Wrap(b + 1) == a - b - 1 + j * TWO_32;
    Shifted(a - b - 1, j);
  }

  lemma BackTwice(d: int, k: nat, l: nat)
    ensures Back(Back(d, k), l) == Back(d, k + l)
  {
    var q := (d - k) / TWO_32;
    assert Back(d, k) - l == d - (k + l) + (-q) * TWO_32;
    Shifted(d - (k + l), -q);
  }

  lemma BackNone(a: nat, b: nat)
    ensures Back(Apart(a, b), 0) == Apart(a, b)
  {
  }

  lemma SendKeepsAhead(t: Target, tag: seq<byte>, expected: nat, words: Words, data: seq<byte>, size: nat,
                       cmd: nat, status: bool, flow: bool, finished: bool)
    ensures Ahead(Send(t, tag, expected, words, data, size, cmd, status, flow, finished)) == Ahead(t)
  {
    hide Residual, Apart, Wrap;
    BothStep(t.cmdSN, t.sn);
  }

  lemma DataInKeepsAhead(t: Target, tag: seq<byte>, expected: nat, itr: nat, offset: nat, current: nat, last: bool, blockSize: nat)
    ensures Ahead(SendDataIn(t, tag, expected, itr, offset, current, last, blockSize)) == Ahead(t)
  {
    hide Send, DiskBytes, Wrap;
    SendKeepsAhead(t, tag, expected, Words(0, Wrap(itr), Wrap(itr * t.maxRecv), 0), [], Wrap(current * blockSize), DATA_IN, true, false, last);
  }

  lemma {:induction false} SplitKeepsAhead(t: Target, tag: seq<byte>, expected: nat, itr: nat, offset: nat, count: nat, blockSize: nat)
    requires 0 < blockSize
    ensures Ahead(SplitRead(t, tag, expected, itr, offset, count, blockSize)) == Ahead(t)
    decreases count
  {
    hide SendDataIn, Ahead;
    var max := t.maxRecv / blockSize;
    if count > 0 && max > 0 {
      var current := if count > max then max else count;
      DataInKeepsAhead(t, tag, expected, itr, offset, current, current == count, blockSize);
      SplitKeepsAhead(SendDataIn(t, tag, expected, itr, offset, current, current == count, blockSize),
                      tag, expected, itr + 1, offset + current, count - current, blockSize);
    }
  }

  lemma CommandAhead(t: Target, r: Request, blockSize: nat)
    requires Valid(t, blockSize) && WellFormedRequest(r, blockSize)
    ensures Ahead(Execute(t, r, blockSize)) == Back(Ahead(t), Kept([r]))
  {
    hide Apart, Back;
    assert [r][1..] == [];
    BackNone(t.cmdSN, t.sn);
    hide Send, SendDataIn, SplitRead, SendR2Ts, Wrap, DiskBytes;
    match r
    case Inquire(tag, expected, cmd, data, size) =>
      SendKeepsAhead(t, tag, expected, NO_WORDS, data, size, cmd, cmd == DATA_IN, true, true);
    case Write10(_, _, _, _, _, _) => WriteAhead(t, r, blockSize);
    case DataOut(_, _, _, _) => PieceAhead(t, r, blockSize);
    case Read10(tag, expected, lba, blocks) =>
      SplitKeepsAhead(t, tag, expected, 0, lba, blocks, blockSize);
      DataInKeepsAhead(t, tag, expected, 0, lba, blocks, true, blockSize);
    case _ => PlainAhead(t, r, blockSize);
  }

  lemma PlainAhead(t: Target, r: Request, blockSize: nat)
    requires Valid(t, blockSize) && (r.Login? || r.Text? || r.Logout? || r.Unsupported?)
    ensures Ahead(Execute(t, r, blockSize)) == Back(Ahead(t), Kept([r]))
  {
    hide SendPlain, Apart, Back;
    assert [r][1..] == [];
    BackNone(t.cmdSN, t.sn);
    match r
    case Login(tag, final, resumed, maxRecv, text, size) =>
      SendPlainAhead(t.(maxRecv := maxRecv), tag, true, LOGIN_REPLY, text, size, final);
    case Text(tag, finished, text, size) => SendPlainAhead(t, tag, finished, TEXT_REPLY, text, size, true);
    case Logout(tag, finished) => SendPlainAhead(t, tag, finished, LOGOUT_REPLY, [], 0, true);
    case _ =>
  }

  lemma SendPlainAhead(t: Target, tag: seq<byte>, finished: bool, cmd: nat, data: seq<byte>, size: nat, advance: bool)
    ensures Ahead(SendPlain(t, tag, finished, cmd, data, size, advance)) == Back(Ahead(t), if advance then 0 else 1)
  {
    hide Apart, Back, Wrap;
    BothStep(t.cmdSN, t.sn);
    BackNone(t.cmdSN, t.sn);
  }

  lemma WriteAhead(t: Target, r: Request, blockSize: nat)
    requires Valid(t, blockSize) && r.Write10?
    ensures Ahead(DoWrite10(t, r, blockSize)) == Ahead(t)
  {
    hide Send, SendR2Ts, Wrap;
    if Starts(r) {
      IscsiTransfers.StartIsOneReply(t, r, blockSize);
      SendKeepsAhead(IscsiTransfers.Began(t, r, blockSize), r.tag, 0, IscsiTransfers.Asking(t, r), NO_DATA, 0, READY, false, false, true);
    } else {
      SendKeepsAhead(t, r.tag, 0, NO_WORDS, NO_DATA, 0, SCSI_REPLY, false, false, true);
    }
  }

  lemma PieceAhead(t: Target, r: Request, blockSize: nat)
    requires Valid(t, blockSize) && r.DataOut?
    ensures Ahead(DoDataOut(t, r, blockSize)) == Ahead(t)
  {
    hide Send, Wrap;
    if r.slot < MAX_TRANSFERS {
      var was := t.transfers[r.slot];
      var handle := was.(current := Wrap(was.current + BlocksIn(|r.data|, blockSize)));
      SendKeepsAhead(t.(transfers := t.transfers[r.slot := handle]), r.tag, 0, NO_WORDS, NO_DATA, 0, SCSI_REPLY, false, false, true);
    }
  }

  /** Over every run every reply moves the command number on by one, but for logins that are not final. */
  lemma {:induction false} CommandNumbers(t: Target, rs: seq<Request>, blockSize: nat)
    requires Valid(t, blockSize) && forall r | r in rs :: WellFormedRequest(r, blockSize)
    ensures Ahead(IscsiReplies.ExecuteAll(t, rs, blockSize)) == Back(Ahead(t), Kept(rs))
    decreases |rs|
  {
    hide Execute, WellFormedRequest, Apart, Back;
    if rs == [] {
      BackNone(t.cmdSN, t.sn);
    } else {
      CommandAhead(t, rs[0], blockSize);
      BackTwice(Ahead(t), Kept([rs[0]]), Kept(rs[1..]));
      assert [rs[0]][1..] == [];
      IscsiReplies.ExecuteValid(t, rs[0], blockSize);
      CommandNumbers(Execute(t, rs[0], blockSize), rs[1..], blockSize);
    }
  }

  /** A new connection begins with status number 0 and command number 1. */
  lemma CommandNumbersFromNew(maxRecv: nat, rs: seq<Request>, blockSize: nat)
    requires 0 < blockSize && maxRecv < TWO_32 && forall r | r in rs :: WellFormedRequest(r, blockSize)
    ensures Ahead(IscsiReplies.ExecuteAll(IscsiReplies.NewConnection(maxRecv), rs, blockSize)) == Back(1, Kept(rs))
  {
    CommandNumbers(IscsiReplies.NewConnection(maxRecv), rs, blockSize);
    hide IscsiReplies.ExecuteAll, Kept, WellFormedRequest;
  }
}
