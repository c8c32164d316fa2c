/** From the engine to the initiator: the replies to one READ(10), as bytes on the wire, cut apart by the
    PDU reader. */
module IscsiWire {
  import opened Bytes
  import opened Framing
  import opened IscsiPdu
  import opened IscsiTarget
  import opened IscsiReads
  import IscsiReplies
  import IscsiTransfers

  predicate Emittable(o: Out) {
    o.Reply? ==> ValidHeader(o.h) && BufferLength(|o.data|, o.size) <= HEADER_SIZE + |o.data|
  }

  /** What `AsyncWrite` gets for one output. */
  function Put(o: Out): seq<byte>
    requires Emittable(o)
  {
    match o
    case Reply(h, size, data) => ToBuffer(h, data, size)
    case Block(data) => data
  }

  /** What the raw writer sends. */
  function Wire(out: seq<Out>): seq<byte>
    requires forall o | o in out :: Emittable(o)
  {
    if out == [] then [] else Put(out[0]) + Wire(out[1..])
  }

  /** A bare header and the block it announces. */
  predicate PairAt(out: seq<Out>, i: nat)
    requires i + 1 < |out|
  {
    && out[i].Reply? && out[i].data == [] && ValidHeader(out[i].h)
    && out[i + 1].Block? && out[i].size == |out[i + 1].data|
    && |out[i + 1].data| % 4 == 0 && HEADER_SIZE + |out[i + 1].data| <= MAX_MESSAGE
  }

  predicate Paired(out: seq<Out>, n: nat) {
    |out| == 2 * n && forall k | 0 <= k < n :: PairAt(out, 2 * k)
  }

  function Units(out: seq<Out>, n: nat): (us: seq<Unit>)
    requires Paired(out, n)
    ensures |us| == n
  {
    seq(n, (k: nat) requires k < n => assert PairAt(out, 2 * k); Split(out[2 * k].h, out[2 * k + 1].data))
  }

  lemma PairedTail(out: seq<Out>, n: nat)
    requires Paired(out, n) && 0 < n
    ensures PairAt(out, 0)
    ensures Paired(out[2..], n - 1) && Units(out, n) == [Split(out[0].h, out[1].data)] + Units(out[2..], n - 1)
  {
    assert PairAt(out, 2 * 0);
    forall k | 0 <= k < n - 1
      ensures PairAt(out[2..], 2 * k) && out[2..][2 * k] == out[2 * (k + 1)] && out[2..][2 * k + 1] == out[2 * (k + 1) + 1]
    {
      assert PairAt(out, 2 * (k + 1));
    }
  }

  /** On the wire, pairs are the writes of their units. */
  lemma {:induction false} PairsAreUnits(out: seq<Out>, n: nat)
    requires Paired(out, n)
    ensures forall o | o in out :: Emittable(o)
    ensures forall u | u in Units(out, n) :: ValidUnit(u)
    ensures Wire(out) == Concat(AllWrites(Units(out, n)))
    decreases n
  {
    if n > 0 {
      PairedTail(out, n);
      var h, block, rest := out[0].h, out[1].data, out[2..];
      PairsAreUnits(rest, n - 1);
      assert out == [out[0], out[1]] + rest;
      var us := Units(rest, n - 1);
      FirstPair(out, rest);
      FirstUnit(Split(h, block), us);
      hide Units, Paired;
      assert Units(out, n) == [Split(h, block)] + us;
    }
  }

  lemma FirstPair(out: seq<Out>, rest: seq<Out>)
    requires 2 <= |out| && PairAt(out, 0) && out[2..] == rest && forall o | o in rest :: Emittable(o)
    ensures forall o | o in out :: Emittable(o)
    ensures Wire(out) == ToBuffer(out[0].h, [], |out[1].data|) + (out[1].data + Wire(rest))
  {
    hide ToBuffer, ValidHeader;
    assert forall o | o in out :: o == out[0] || o == out[1] || o in rest;
    assert out[1..][1..] == rest && out[1..][0] == out[1];
    assert Wire(out[1..]) == out[1].data + Wire(rest);
  }

  lemma FirstUnit(u: Unit, us: seq<Unit>)
    requires u.Split? && ValidUnit(u) && forall v | v in us :: ValidUnit(v)
    ensures forall v | v in [u] + us :: ValidUnit(v)
    ensures Concat(AllWrites([u] + us)) == ToBuffer(u.h, [], |u.block|) + (u.block + Concat(AllWrites(us)))
  {
    var header := ToBuffer(u.h, [], |u.block|);
    hide ToBuffer, ValidUnit, ValidHeader, BufferLength;
    assert ([u] + us)[1..] == us;
    assert AllWrites([u] + us) == [header, u.block] + AllWrites(us);
    ConcatAppend([header, u.block], AllWrites(us));
    ConcatTwo(header, u.block);
  }

  /** The data segments, put together. */
  function Data(us: seq<Unit>): seq<byte>
    requires forall u | u in us :: u.Split?
  {
    if us == [] then [] else us[0].block + Data(us[1..])
  }

  /** Block `k` of the reply is what the plan reads at that point. */
  ghost predicate BlocksAre(us: seq<Unit>, plan: seq<nat>, writes: seq<DiskWrite>, offset: nat, blockSize: nat) {
    && |us| == |plan|
    && forall k | 0 <= k < |plan| :: us[k].Split? && us[k].block == DiskBytes(writes, (offset + Sum(plan[..k])) * blockSize, plan[k] * blockSize)
  }

  lemma {:induction false} DataIsPayload(us: seq<Unit>, plan: seq<nat>, writes: seq<DiskWrite>, offset: nat, blockSize: nat)
    requires BlocksAre(us, plan, writes, offset, blockSize)
    ensures forall u | u in us :: u.Split?
    ensures Data(us) == Payload(plan, writes, offset, blockSize)
    decreases |us|
  {
    hide DiskBytes;
    if us != [] {
      assert plan[..0] == [];
      assert us[0].block == DiskBytes(writes, (offset + Sum(plan[..0])) * blockSize, plan[0] * blockSize);
      forall k | 0 <= k < |plan[1..]|
        ensures us[1..][k].Split? && us[1..][k].block == DiskBytes(writes, (offset + plan[0] + Sum(plan[1..][..k])) * blockSize, plan[1..][k] * blockSize)
      {
        assert plan[..k + 1][1..] == plan[1..][..k];
        assert us[1..][k] == us[k + 1];
      }
      DataIsPayload(us[1..], plan[1..], writes, offset + plan[0], blockSize);
    }
  }

  lemma TimesFour(a: nat, blockSize: nat)
    requires blockSize % 4 == 0
    ensures a * blockSize % 4 == 0
  {
    assert a * blockSize == a * (blockSize / 4) * 4;
  }

  /** A Data-In sequence is a list of pairs, and its blocks are those of the plan. */
  lemma SequenceIsPaired(out: seq<Out>, base: nat, plan: seq<nat>, writes: seq<DiskWrite>,
                         tag: seq<byte>, offset: nat, maxRecv: nat, blockSize: nat)
    requires DataInSequence(out, base, plan, writes, tag, 0, offset, maxRecv, blockSize) && |out| == base + 2 * |plan|
    requires forall k | 0 <= k < |plan| :: plan[k] * blockSize <= maxRecv
    requires blockSize % 4 == 0 && HEADER_SIZE + maxRecv <= MAX_MESSAGE
    ensures Paired(out[base..], |plan|)
    ensures BlocksAre(Units(out[base..], |plan|), plan, writes, offset, blockSize)
  {
    var sent := out[base..];
    hide DiskBytes, ValidHeader;
    forall k | 0 <= k < |plan|
      ensures PairAt(sent, 2 * k)
      ensures sent[2 * k + 1].data == DiskBytes(writes, (offset + Sum(plan[..k])) * blockSize, plan[k] * blockSize)
    {
      assert DataInAt(out, base, k, plan, writes, tag, 0, offset, maxRecv, blockSize);
      TimesFour(plan[k], blockSize);
      assert sent[2 * k] == out[base + 2 * k] && sent[2 * k + 1] == out[base + 2 * k + 1];
    }
  }

  /** The reply to one READ(10), end to end: with a block size that is a multiple of four and PDUs within the
      reader's limit, the bytes sent are cut back into exactly one PDU per piece of the plan, each with its own
      header and data, and the data put together are blocks `[lba, lba + blocks)`. */
  lemma ReadReachesInitiator(t: Target, r: Request, blockSize: nat) returns (sent: seq<Out>, us: seq<Unit>)
    requires Valid(t, blockSize) && r.Read10? && |r.tag| == 4
    requires ReadFits(t, r.blocks, blockSize) && ReadEnds(t, r.blocks, blockSize)
    requires blockSize % 4 == 0 && HEADER_SIZE + t.maxRecv <= MAX_MESSAGE
    ensures Paired(sent, |us|) && us == Units(sent, |us|)
    ensures forall o | o in sent :: Emittable(o)
    ensures forall u | u in us :: ValidUnit(u) && u.Split?
    ensures Feed(Iscsi, START, Wire(sent)) == Reader(Head([]), Pdus(us))
    ensures Data(us) == DiskBytes(t.writes, r.lba * blockSize, r.blocks * blockSize)
    ensures DoRead10(t, r, blockSize).out == t.out + sent && |us| == |ReadPlan(t, r.blocks, blockSize)|
  {
    hide DoRead10, ReadPlan, DiskBytes, DataInSequence, Feed, Wire, Data, Units, Pdus, ValidUnit, Emittable, PairAt, BlocksAre, AllWrites;
    ReadShape(t, r, blockSize);
    PlanSound(t, r.blocks, blockSize);
    var out, plan := DoRead10(t, r, blockSize).out, ReadPlan(t, r.blocks, blockSize);
    SequenceIsPaired(out, |t.out|, plan, t.writes, r.tag, r.lba, t.maxRecv, blockSize);
    sent := out[|t.out|..];
    PairsAreUnits(sent, |plan|);
    us := Units(sent, |plan|);
    Reframed(us);
    DataIsPayload(us, plan, t.writes, r.lba, blockSize);
    PayloadIsRange(plan, t.writes, r.lba, blockSize);
  }

  // ----- any run of commands

  function HeadersOf(us: seq<Unit>): seq<Header> {
    seq(|us|, (k: nat) requires k < |us| => us[k].h)
  }

  ghost predicate AllUnits(us: seq<Unit>) {
    forall u | u in us :: ValidUnit(u)
  }

  ghost predicate AllEmittable(out: seq<Out>) {
    forall o | o in out :: Emittable(o)
  }

  /** The outputs are, on the wire, the writes of the units, and their headers are those of the units. */
  ghost predicate Spells(out: seq<Out>, us: seq<Unit>) {
    && AllEmittable(out) && AllUnits(us)
    && Wire(out) == Concat(AllWrites(us))
    && IscsiReplies.Headers(out) == HeadersOf(us)
  }

  lemma {:induction false} WireAppend(a: seq<Out>, b: seq<Out>)
    requires AllEmittable(a) && AllEmittable(b)
    ensures AllEmittable(a + b) && Wire(a + b) == Wire(a) + Wire(b)
    decreases |a|
  {
    hide Put, Emittable;
    if a == [] {
      assert a + b == b;
    } else {
      assert (a + b)[1..] == a[1..] + b;
      WireAppend(a[1..], b);
    }
  }

  lemma {:induction false} AllWritesAppend(a: seq<Unit>, b: seq<Unit>)
    requires AllUnits(a) && AllUnits(b)
    ensures AllUnits(a + b) && AllWrites(a + b) == AllWrites(a) + AllWrites(b)
    decreases |a|
  {
    hide Writes, ValidUnit;
    if a == [] {
      assert a + b == b;
    } else {
      assert (a + b)[1..] == a[1..] + b;
      AllWritesAppend(a[1..], b);
    }
  }

  lemma {:induction false} HeadersAppend(a: seq<Out>, b: seq<Out>)
    ensures IscsiReplies.Headers(a + b) == IscsiReplies.Headers(a) + IscsiReplies.Headers(b)
    decreases |b|
  {
    if b == [] {
      assert a + b == a;
    } else {
      assert (a + b)[..|a + b| - 1] == a + b[..|b| - 1];
      HeadersAppend(a, b[..|b| - 1]);
    }
  }

  lemma SpellsJoin(a: seq<Out>, us: seq<Unit>, b: seq<Out>, vs: seq<Unit>)
    requires Spells(a, us) && Spells(b, vs)
    ensures Spells(a + b, us + vs)
  {
    hide Wire, AllWrites, Concat, IscsiReplies.Headers, AllEmittable, ValidUnit;
    WireAppend(a, b);
    AllWritesAppend(us, vs);
    ConcatAppend(AllWrites(us), AllWrites(vs));
    HeadersAppend(a, b);
    assert HeadersOf(us + vs) == HeadersOf(us) + HeadersOf(vs);
  }

  lemma SpellsNothing()
    ensures Spells([], [])
  {
    assert Concat(AllWrites([])) == [];
  }

  // ----- single replies

  /** The data area covers the padded length, and the length fits its field and the reader's limit. */
  predicate AreaFits(data: seq<byte>, size: nat) {
    if data == [] then size == 0
    else size < 0x100_0000 && Padded(HEADER_SIZE + size) <= HEADER_SIZE + |data| && Padded(HEADER_SIZE + size) <= MAX_MESSAGE
  }

  predicate ReplyFits(o: Out) {
    o.Reply? && ValidHeader(o.h) && AreaFits(o.data, o.size)
  }

  function UnitFor(o: Out): Unit
    requires ReplyFits(o)
  {
    if o.data == [] then Split(o.h, []) else Whole(o.h, o.data, o.size)
  }

  lemma ReplySpells(o: Out)
    requires ReplyFits(o)
    ensures Spells([o], [UnitFor(o)])
  {
    hide ToBuffer, ValidHeader, Padded, Wire, AllWrites, Concat, Put, Writes, IscsiReplies.Headers;
    UnitIsValid(o);
    OneOnWire(o);
    OneHeader(o);
  }

  lemma UnitIsValid(o: Out)
    requires ReplyFits(o)
    ensures ValidUnit(UnitFor(o)) && Emittable(o)
  {
    hide ValidHeader, Padded;
  }

  lemma OneOnWire(o: Out)
    requires ReplyFits(o)
    ensures ValidUnit(UnitFor(o)) && Emittable(o) && Wire([o]) == Concat(AllWrites([UnitFor(o)]))
  {
    UnitIsValid(o);
    hide ToBuffer, ValidHeader, Padded;
    var u, out, us := UnitFor(o), [o], [UnitFor(o)];
    var header := Put(o);
    assert out[1..] == [] && us[1..] == [];
    assert Wire(out) == header + [] == header;
    assert AllWrites(us) == Writes(u) + [] == Writes(u);
    ConcatTwo(header, []);
    assert Concat([header]) == header + Concat([header][1..]) == header;
  }

  lemma OneHeader(o: Out)
    requires ReplyFits(o)
    ensures IscsiReplies.Headers([o]) == HeadersOf([UnitFor(o)])
  {
    assert [o][..0] == [];
    assert IscsiReplies.Headers([o]) == [o.h];
  }

  lemma SmallerArea(data: seq<byte>, size: nat, less: nat)
    requires AreaFits(data, size) && less <= size
    ensures AreaFits(data, less)
  {
  }

  lemma SendFits(t: Target, tag: seq<byte>, expected: nat, words: Words, data: seq<byte>, size: nat,
                 cmd: nat, status: bool, flow: bool, finished: bool)
    requires FitsFields(t, tag) && cmd < 64 && AreaFits(data, size)
    requires words.word0 < TWO_32 && words.word4 < TWO_32 && words.word5 < TWO_32 && words.word6 < TWO_32
    ensures var t' := Send(t, tag, expected, words, data, size, cmd, status, flow, finished);
            t'.out == t.out + t'.out[|t.out|..] && |t'.out| == |t.out| + 1 && ReplyFits(t'.out[|t.out|])
  {
    if expected <= size {
      SmallerArea(data, size, expected);
    }
    hide AreaFits;
  }

  lemma PlainFits(t: Target, tag: seq<byte>, finished: bool, cmd: nat, data: seq<byte>, size: nat, advance: bool)
    requires FitsFields(t, tag) && cmd < 64 && AreaFits(data, size)
    ensures var t' := SendPlain(t, tag, finished, cmd, data, size, advance);
            t'.out == t.out + t'.out[|t.out|..] && |t'.out| == |t.out| + 1 && ReplyFits(t'.out[|t.out|])
  {
    hide AreaFits;
  }

  // ----- commands

  /** What a command must bring so that its reply can be framed: replies that fit their data areas, and reads and
      limits within what the reader accepts. */
  predicate Framable(t: Target, r: Request, blockSize: nat) {
    match r
    case Login(_, _, _, maxRecv, text, size) => AreaFits(text, size) && HEADER_SIZE + maxRecv <= MAX_MESSAGE
    case Text(_, _, text, size) => AreaFits(text, size)
    case Inquire(_, _, _, data, size) => AreaFits(data, size)
    case Read10(_, _, _, blocks) => ReadFits(t, blocks, blockSize) && ReadEnds(t, blocks, blockSize)
    case _ => true
  }

  lemma NoDataFits()
    ensures AreaFits(NO_DATA, 0) && AreaFits([], 0)
  {
  }

  lemma ReadSpells(t: Target, r: Request, blockSize: nat) returns (added: seq<Out>, us: seq<Unit>)
    requires Valid(t, blockSize) && WellFormedRequest(r, blockSize) && r.Read10?
    requires ReadFits(t, r.blocks, blockSize) && ReadEnds(t, r.blocks, blockSize)
    requires blockSize % 4 == 0 && HEADER_SIZE + t.maxRecv <= MAX_MESSAGE
    ensures DoRead10(t, r, blockSize).out == t.out + added && Spells(added, us)
  {
    hide DoRead10, Wire, PairAt, ValidUnit, Emittable, AllWrites, Data, ReadFits;
    added, us := ReadReachesInitiator(t, r, blockSize);
    PairsAreUnits(added, |us|);
    PairHeaders(added, |us|);
  }

  lemma {:induction false} PairHeaders(out: seq<Out>, n: nat)
    requires Paired(out, n)
    ensures IscsiReplies.Headers(out) == HeadersOf(Units(out, n))
    decreases n
  {
    if n > 0 {
      PairedTail(out, n);
      PairHeaders(out[2..], n - 1);
      assert out == out[..2] + out[2..];
      HeadersAppend(out[..2], out[2..]);
      assert out[..2][..1] == [out[0]] && [out[0]][..0] == [];
      assert IscsiReplies.Headers([out[0]]) == [out[0].h] && IscsiReplies.Headers(out[..2]) == [out[0].h];
    }
  }

  /** Every command's output is cut into the PDUs it means. */
  lemma CommandSpells(t: Target, r: Request, blockSize: nat) returns (added: seq<Out>, us: seq<Unit>)
    requires Valid(t, blockSize) && WellFormedRequest(r, blockSize) && Framable(t, r, blockSize)
    requires blockSize % 4 == 0 && HEADER_SIZE + t.maxRecv <= MAX_MESSAGE
    ensures Execute(t, r, blockSize).out == t.out + added && Spells(added, us)
  {
    if r.Read10? {
      added, us := ReadSpells(t, r, blockSize);
    } else {
      var answered := OneReplyAtMost(t, r, blockSize);
      hide Execute, Spells, ReplyFits;
      var out := Execute(t, r, blockSize).out;
      added := out[|t.out|..];
      if answered {
        ReplySpells(out[|t.out|]);
        assert added == [out[|t.out|]];
        us := [UnitFor(out[|t.out|])];
      } else {
        SpellsNothing();
        assert added == [];
        us := [];
      }
    }
  }

  lemma OneReplyAtMost(t: Target, r: Request, blockSize: nat) returns (answered: bool)
    requires Valid(t, blockSize) && WellFormedRequest(r, blockSize) && Framable(t, r, blockSize) && !r.Read10?
    ensures var out := Execute(t, r, blockSize).out;
            && t.out <= out && |out| == |t.out| + (if answered then 1 else 0)
            && (answered ==> ReplyFits(out[|t.out|]))
  {
    hide Send, SendPlain, ReplyFits, AreaFits, DoWrite10, DoDataOut;
    NoDataFits();
    answered := true;
    match r
    case Login(tag, final, resumed, maxRecv, text, size) =>
      if resumed {
        answered := false;
      } else {
        PlainFits(t.(maxRecv := maxRecv), tag, true, LOGIN_REPLY, text, size, final);
      }
    case Text(tag, finished, text, size) => PlainFits(t, tag, finished, TEXT_REPLY, text, size, true);
    case Logout(tag, finished) => PlainFits(t, tag, finished, LOGOUT_REPLY, [], 0, true);
    case Inquire(tag, expected, cmd, data, size) =>
      SendFits(t, tag, expected, NO_WORDS, data, size, cmd, cmd == DATA_IN, true, true);
    case Write10(_, _, _, _, _, _) => WriteFits(t, r, blockSize);
    case DataOut(_, _, _, _) => answered := PieceFits(t, r, blockSize);
    case Unsupported => answered := false;
  }

  lemma StartFits(t: Target, r: Request, blockSize: nat)
    requires Valid(t, blockSize) && WellFormedRequest(r, blockSize) && Starts(r)
    ensures var out := Execute(t, r, blockSize).out;
            t.out <= out && |out| == |t.out| + 1 && ReplyFits(out[|t.out|])
  {
    NoDataFits();
    hide Send, ReplyFits, AreaFits, Execute;
    IscsiTransfers.StartIsOneReply(t, r, blockSize);
    SendFits(IscsiTransfers.Began(t, r, blockSize), r.tag, 0, IscsiTransfers.Asking(t, r), NO_DATA, 0, READY, false, false, true);
  }

  lemma WriteFits(t: Target, r: Request, blockSize: nat)
    requires Valid(t, blockSize) && WellFormedRequest(r, blockSize) && r.Write10?
    ensures var out := Execute(t, r, blockSize).out;
            t.out <= out && |out| == |t.out| + 1 && ReplyFits(out[|t.out|])
  {
    hide Send, ReplyFits, AreaFits, SendR2Ts, Wrap;
    if Starts(r) {
      StartFits(t, r, blockSize);
    } else {
      NoDataFits();
      SendFits(t, r.tag, 0, NO_WORDS, NO_DATA, 0, SCSI_REPLY, false, false, true);
    }
  }

  lemma PieceFits(t: Target, r: Request, blockSize: nat) returns (answered: bool)
    requires Valid(t, blockSize) && WellFormedRequest(r, blockSize) && r.DataOut?
    ensures var out := DoDataOut(t, r, blockSize).out;
            && t.out <= out && |out| == |t.out| + (if answered then 1 else 0)
            && (answered ==> ReplyFits(out[|t.out|]))
  {
    NoDataFits();
    hide Send, ReplyFits, AreaFits, Wrap;
    answered := false;
    if r.slot < MAX_TRANSFERS {
      var was := t.transfers[r.slot];
      var handle := was.(current := Wrap(was.current + BlocksIn(|r.data|, blockSize)));
      SendFits(t.(transfers := t.transfers[r.slot := handle]), r.tag, 0, NO_WORDS, NO_DATA, 0, SCSI_REPLY, false, false, true);
      answered := handle.current == handle.length;
    }
  }

  // ----- runs

  ghost predicate AllFramable(t: Target, rs: seq<Request>, blockSize: nat)
    requires Valid(t, blockSize) && forall r | r in rs :: WellFormedRequest(r, blockSize)
    decreases |rs|
  {
    rs != [] ==> Framable(t, rs[0], blockSize) && AllFramable(IscsiReplies.Accepted(t, rs[0], blockSize), rs[1..], blockSize)
  }

  lemma LimitKept(t: Target, r: Request, blockSize: nat)
    requires Valid(t, blockSize) && WellFormedRequest(r, blockSize) && Framable(t, r, blockSize)
    requires HEADER_SIZE + t.maxRecv <= MAX_MESSAGE
    ensures HEADER_SIZE + Execute(t, r, blockSize).maxRecv <= MAX_MESSAGE
  {
    hide Execute;
    IscsiTransfers.Effect(t, r, blockSize);
  }

  /** The whole output of any run, from any state on, is cut into the PDUs its commands mean. */
  lemma {:induction false} RunSpells(t: Target, rs: seq<Request>, us0: seq<Unit>, blockSize: nat) returns (us: seq<Unit>)
    requires Valid(t, blockSize) && forall r | r in rs :: WellFormedRequest(r, blockSize)
    requires blockSize % 4 == 0 && HEADER_SIZE + t.maxRecv <= MAX_MESSAGE
    requires AllFramable(t, rs, blockSize) && Spells(t.out, us0)
    ensures us0 <= us && Spells(IscsiReplies.ExecuteAll(t, rs, blockSize).out, us)
    decreases |rs|
  {
    us := us0;
    if rs != [] {
      var added, more := CommandSpells(t, rs[0], blockSize);
      LimitKept(t, rs[0], blockSize);
      hide Execute, Spells, WellFormedRequest, Framable;
      SpellsJoin(t.out, us0, added, more);
      us := RunSpells(IscsiReplies.Accepted(t, rs[0], blockSize), rs[1..], us0 + more, blockSize);
    }
  }

  /** From a new connection: the initiator's reader cuts the bytes of a whole run into exactly the PDUs of its replies,
      and their headers are numbered as they should be. */
  lemma RunReachesInitiator(maxRecv: nat, rs: seq<Request>, blockSize: nat) returns (us: seq<Unit>)
    requires 0 < blockSize && maxRecv < TWO_32 && forall r | r in rs :: WellFormedRequest(r, blockSize)
    requires blockSize % 4 == 0 && HEADER_SIZE + maxRecv <= MAX_MESSAGE
    requires AllFramable(IscsiReplies.NewConnection(maxRecv), rs, blockSize)
    ensures AllEmittable(IscsiReplies.ExecuteAll(IscsiReplies.NewConnection(maxRecv), rs, blockSize).out) && AllUnits(us)
    ensures Feed(Iscsi, START, Wire(IscsiReplies.ExecuteAll(IscsiReplies.NewConnection(maxRecv), rs, blockSize).out))
            == Reader(Head([]), Pdus(us))
    ensures IscsiReplies.ProperlyNumbered(HeadersOf(us))
  {
    hide IscsiReplies.ExecuteAll, WellFormedRequest, AllFramable, Feed, Wire, AllWrites, Concat, IscsiReplies.ProperlyNumbered;
    SpellsNothing();
    us := RunSpells(IscsiReplies.NewConnection(maxRecv), rs, [], blockSize);
    Reframed(us);
    IscsiReplies.StatusNumbers(maxRecv, rs, blockSize);
  }
}
