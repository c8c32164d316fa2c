/** What the replies of the target engine add up to: their sequence numbers over any run of commands. */
module IscsiReplies {
  import opened Bytes
  import opened IscsiPdu
  import opened IscsiTarget

  // ----- sequence numbers

  function Headers(out: seq<Out>): seq<Header> {
    if out == [] then []
    else
      var last := out[|out| - 1];
      Headers(out[..|out| - 1]) + if last.Reply? then [last.h] else []
  }

  lemma HeadersSnoc(out: seq<Out>, o: Out)
    ensures Headers(out + [o]) == Headers(out) + if o.Reply? then [o.h] else []
  {
    assert (out + [o])[..|out|] == out;
  }

  /** `b` is `a` or its successor, modulo 2^32. */
  predicate NotBackwards(a: nat, b: nat) {
    b == a || b == Wrap(a + 1)
  }

  /** A header that is the `i`-th to be sent and is followed by command number `next`. */
  ghost predicate Numbered(h: Header, i: nat, next: nat) {
    h.statSN == Wrap(i) && h.maxCmdSN == Wrap(h.expCmdSN + QUEUE_SIZE) && NotBackwards(h.expCmdSN, next)
  }

  function Following(hs: seq<Header>, i: nat, cmdSN: nat): nat
    requires i < |hs|
  {
    if i + 1 < |hs| then hs[i + 1].expCmdSN else cmdSN
  }

  /** The headers sent so far number their status 0, 1, 2, ... without gap or repeat, never take the
      expected command number back, and always leave the initiator the same window. */
  ghost predicate Sequenced(hs: seq<Header>, sn: nat, cmdSN: nat) {
    && sn == Wrap(|hs|)
    && forall i | 0 <= i < |hs| :: Numbered(hs[i], i, Following(hs, i, cmdSN))
  }

  ghost predicate InSequence(t: Target) {
    Sequenced(Headers(t.out), t.sn, t.cmdSN)
  }

  lemma SequencedSnoc(hs: seq<Header>, sn: nat, cmdSN: nat, h: Header, cmdSN': nat)
    requires Sequenced(hs, sn, cmdSN)
    requires h.statSN == sn && h.expCmdSN == cmdSN && h.maxCmdSN == Wrap(cmdSN + QUEUE_SIZE) && NotBackwards(cmdSN, cmdSN')
    ensures Sequenced(hs + [h], Wrap(sn + 1), cmdSN')
  {
    hide Wrap, NotBackwards;
    WrapNext(|hs|);
    assert Numbered(h, |hs|, cmdSN');
    hide Numbered;
    forall i | 0 <= i < |hs + [h]|
      ensures Numbered((hs + [h])[i], i, Following(hs + [h], i, cmdSN'))
    {
      if i < |hs| {
        assert Following(hs + [h], i, cmdSN') == Following(hs, i, cmdSN);
        assert Numbered(hs[i], i, Following(hs, i, cmdSN));
      }
    }
  }

  lemma WrapNext(n: nat)
    ensures Wrap(Wrap(n) + 1) == Wrap(n + 1)
  {
  }

  lemma HeaderSent(t: Target, t': Target, o: Out)
    requires InSequence(t) && o.Reply?
    requires t'.out == t.out + [o] && t'.sn == Wrap(t.sn + 1) && NotBackwards(t.cmdSN, t'.cmdSN)
    requires o.h.statSN == t.sn && o.h.expCmdSN == t.cmdSN && o.h.maxCmdSN == Wrap(t.cmdSN + QUEUE_SIZE)
    ensures InSequence(t')
  {
    hide Wrap, Sequenced;
    HeadersSnoc(t.out, o);
    SequencedSnoc(Headers(t.out), t.sn, t.cmdSN, o.h, t'.cmdSN);
  }

  lemma SendInSequence(t: Target, tag: seq<byte>, expected: nat, words: Words, data: seq<byte>, size: nat,
                       cmd: nat, status: bool, flow: bool, finished: bool)
    requires InSequence(t)
    ensures InSequence(Send(t, tag, expected, words, data, size, cmd, status, flow, finished))
  {
    var t' := Send(t, tag, expected, words, data, size, cmd, status, flow, finished);
    hide InSequence, Wrap, Residual;
    HeaderSent(t, t', t'.out[|t.out|]);
  }

  lemma {:induction false} R2TsInSequence(t: Target, tag: seq<byte>, slot: nat, i: nat, count: nat, immediate: nat, rem: nat)
    requires InSequence(t) && i <= count
    ensures InSequence(SendR2Ts(t, tag, slot, i, count, immediate, rem))
    decreases count - i
  {
    hide InSequence, Send;
    if i < count {
      var words := R2TWords(slot, i, count, immediate, rem);
      SendInSequence(t, tag, 0, words, NO_DATA, 0, READY, false, false, true);
      R2TsInSequence(Send(t, tag, 0, words, NO_DATA, 0, READY, false, false, true), tag, slot, i + 1, count, immediate, rem);
    }
  }

  lemma DataInInSequence(t: Target, tag: seq<byte>, expected: nat, itr: nat, offset: nat, current: nat, last: bool, blockSize: nat)
    requires InSequence(t)
    ensures InSequence(SendDataIn(t, tag, expected, itr, offset, current, last, blockSize))
  {
    hide Wrap, Sequenced, DiskBytes, Send;
    var words, size := Words(0, Wrap(itr), Wrap(itr * t.maxRecv), 0), Wrap(current * blockSize);
    SendInSequence(t, tag, expected, words, [], size, DATA_IN, true, false, last);
    var t1 := Send(t, tag, expected, words, [], size, DATA_IN, true, false, last);
    var block := Block(DiskBytes(t.writes, offset * blockSize, current * blockSize));
    SameLog(t, tag, expected, words, size, last);
    HeadersSnoc(t1.out, block);
    assert Headers(t1.out + [block]) == Headers(t1.out);
  }

  lemma SameLog(t: Target, tag: seq<byte>, expected: nat, words: Words, size: nat, last: bool)
    ensures var t1 := Send(t, tag, expected, words, [], size, DATA_IN, true, false, last);
            t1.writes == t.writes && t1.maxRecv == t.maxRecv && t1.transfers == t.transfers && t1.currentTransfer == t.currentTransfer
  {
    hide Wrap, Residual;
  }

  lemma SameLimit(t: Target, tag: seq<byte>, expected: nat, itr: nat, offset: nat, current: nat, last: bool, blockSize: nat)
    ensures var t' := SendDataIn(t, tag, expected, itr, offset, current, last, blockSize);
            t'.maxRecv == t.maxRecv && t'.writes == t.writes && t'.transfers == t.transfers && t'.currentTransfer == t.currentTransfer
  {
    hide Wrap, Residual, DiskBytes;
  }

  lemma {:induction false} SplitInSequence(t: Target, tag: seq<byte>, expected: nat, itr: nat, offset: nat, count: nat, blockSize: nat)
    requires InSequence(t) && 0 < blockSize
    ensures InSequence(SplitRead(t, tag, expected, itr, offset, count, blockSize))
    decreases count
  {
    hide InSequence, SendDataIn;
    var max := t.maxRecv / blockSize;
    if count > 0 && max > 0 {
      var current := if count > max then max else count;
      DataInInSequence(t, tag, expected, itr, offset, current, current == count, blockSize);
      var t1 := SendDataIn(t, tag, expected, itr, offset, current, current == count, blockSize);
      SameLimit(t, tag, expected, itr, offset, current, current == count, blockSize);
      SplitInSequence(t1, tag, expected, itr + 1, offset + current, count - current, blockSize);
    }
  }

  lemma Write10InSequence(t: Target, r: Request, blockSize: nat)
    requires InSequence(t) && Valid(t, blockSize) && r.Write10?
    ensures InSequence(DoWrite10(t, r, blockSize))
  {
    hide Send, Wrap, SendR2Ts, Sequenced, Headers;
    if Starts(r) {
      var rem, slot := r.transferLength - |r.data|, t.currentTransfer % MAX_TRANSFERS;
      var t1 := t.(currentTransfer := Wrap(t.currentTransfer + 1),
                   transfers := t.transfers[slot := Transfer(r.lba, r.blocks, BlocksIn(|r.data|, blockSize))]);
      R2TsInSequence(t1, r.tag, slot, 0, R2TCount(rem), |r.data|, rem);
    } else {
      SendInSequence(t, r.tag, 0, NO_WORDS, NO_DATA, 0, SCSI_REPLY, false, false, true);
    }
  }

  lemma DataOutInSequence(t: Target, r: Request, blockSize: nat)
    requires InSequence(t) && Valid(t, blockSize) && r.DataOut?
    ensures InSequence(DoDataOut(t, r, blockSize))
  {
    hide Send, Wrap, Sequenced, Headers;
    if r.slot < MAX_TRANSFERS {
      var was := t.transfers[r.slot];
      var handle := was.(current := Wrap(was.current + BlocksIn(|r.data|, blockSize)));
      SendInSequence(t.(transfers := t.transfers[r.slot := handle]), r.tag, 0, NO_WORDS, NO_DATA, 0, SCSI_REPLY, false, false, true);
    }
  }

  lemma ExecuteInSequence(t: Target, r: Request, blockSize: nat)
    requires InSequence(t) && Valid(t, blockSize)
    ensures InSequence(Execute(t, r, blockSize))
  {
    hide Send, SendPlain, Sequenced, Headers, DoWrite10, DoDataOut, SplitRead, SendDataIn, Wrap;
    match r
    case Login(tag, final, resumed, maxRecv, text, size) =>
      if !resumed {
        PlainInSequence(t.(maxRecv := maxRecv), tag, true, LOGIN_REPLY, text, size, final);
      }
    case Text(tag, finished, text, size) => PlainInSequence(t, tag, finished, TEXT_REPLY, text, size, true);
    case Logout(tag, finished) => PlainInSequence(t, tag, finished, LOGOUT_REPLY, [], 0, true);
    case Inquire(tag, expected, cmd, data, size) =>
      SendInSequence(t, tag, expected, NO_WORDS, data, size, cmd, cmd == DATA_IN, true, true);
    case Write10(_, _, _, _, _, _) => Write10InSequence(t, r, blockSize);
    case DataOut(_, _, _, _) => DataOutInSequence(t, r, blockSize);
    case Read10(tag, expected, lba, blocks) =>
      SplitInSequence(t, tag, expected, 0, lba, blocks, blockSize);
      DataInInSequence(t, tag, expected, 0, lba, blocks, true, blockSize);
    case Unsupported =>
  }

  lemma PlainInSequence(t: Target, tag: seq<byte>, finished: bool, cmd: nat, data: seq<byte>, size: nat, advance: bool)
    requires InSequence(t)
    ensures InSequence(SendPlain(t, tag, finished, cmd, data, size, advance))
  {
    var t' := SendPlain(t, tag, finished, cmd, data, size, advance);
    hide InSequence, Wrap, Residual;
    HeaderSent(t, t', t'.out[|t.out|]);
  }

  /** A well-formed command leaves a state in which the next one can be executed. */
  function Accepted(t: Target, r: Request, blockSize: nat): (t': Target)
    requires Valid(t, blockSize) && WellFormedRequest(r, blockSize)
    ensures Valid(t', blockSize)
  {
    ExecuteValid(t, r, blockSize);
    Execute(t, r, blockSize)
  }

  function ExecuteAll(t: Target, rs: seq<Request>, blockSize: nat): (t': Target)
    requires Valid(t, blockSize) && forall r | r in rs :: WellFormedRequest(r, blockSize)
    ensures Valid(t', blockSize)
    decreases |rs|
  {
    if rs == [] then t
    else
      ExecuteValid(t, rs[0], blockSize);
      ExecuteAll(Execute(t, rs[0], blockSize), rs[1..], blockSize)
  }

  lemma SendValid(t: Target, tag: seq<byte>, expected: nat, words: Words, data: seq<byte>, size: nat,
                  cmd: nat, status: bool, flow: bool, finished: bool, blockSize: nat)
    requires Valid(t, blockSize)
    ensures Valid(Send(t, tag, expected, words, data, size, cmd, status, flow, finished), blockSize)
  {
  }

  lemma {:induction false} R2TsValid(t: Target, tag: seq<byte>, slot: nat, i: nat, count: nat, immediate: nat, rem: nat, blockSize: nat)
    requires Valid(t, blockSize) && i <= count
    ensures Valid(SendR2Ts(t, tag, slot, i, count, immediate, rem), blockSize)
    decreases count - i
  {
    hide Valid, Send;
    if i < count {
      var words := R2TWords(slot, i, count, immediate, rem);
      SendValid(t, tag, 0, words, NO_DATA, 0, READY, false, false, true, blockSize);
      R2TsValid(Send(t, tag, 0, words, NO_DATA, 0, READY, false, false, true), tag, slot, i + 1, count, immediate, rem, blockSize);
    }
  }

  lemma Positive(t: Target, blockSize: nat)
    requires Valid(t, blockSize)
    ensures 0 < blockSize
  {
  }

  lemma {:induction false} SplitValid(t: Target, tag: seq<byte>, expected: nat, itr: nat, offset: nat, count: nat, blockSize: nat)
    requires Valid(t, blockSize)
    ensures Valid(SplitRead(t, tag, expected, itr, offset, count, blockSize), blockSize)
    decreases count
  {
    Positive(t, blockSize);
    hide Valid, SendDataIn;
    var max := t.maxRecv / blockSize;
    if count > 0 && max > 0 {
      var current := if count > max then max else count;
      var t1 := SendDataIn(t, tag, expected, itr, offset, current, current == count, blockSize);
      DataInValid(t, tag, expected, itr, offset, current, current == count, blockSize);
      SameLimit(t, tag, expected, itr, offset, current, current == count, blockSize);
      SplitValid(t1, tag, expected, itr + 1, offset + current, count - current, blockSize);
    }
  }

  lemma Write10Valid(t: Target, r: Request, blockSize: nat)
    requires Valid(t, blockSize) && r.Write10?
    ensures Valid(DoWrite10(t, r, blockSize), blockSize)
  {
    hide Send, SendR2Ts;
    if Starts(r) {
      var rem, slot := r.transferLength - |r.data|, t.currentTransfer % MAX_TRANSFERS;
      var t1 := t.(currentTransfer := Wrap(t.currentTransfer + 1),
                   transfers := t.transfers[slot := Transfer(r.lba, r.blocks, BlocksIn(|r.data|, blockSize))]);
      R2TsValid(t1, r.tag, slot, 0, R2TCount(rem), |r.data|, rem, blockSize);
    } else {
      SendValid(t, r.tag, 0, NO_WORDS, NO_DATA, 0, SCSI_REPLY, false, false, true, blockSize);
    }
  }

  lemma DataOutValid(t: Target, r: Request, blockSize: nat)
    requires Valid(t, blockSize) && r.DataOut?
    ensures Valid(DoDataOut(t, r, blockSize), blockSize)
  {
    hide Send, Wrap;
    if r.slot < MAX_TRANSFERS {
      var was := t.transfers[r.slot];
      var handle := was.(current := Wrap(was.current + BlocksIn(|r.data|, blockSize)));
      SendValid(t.(transfers := t.transfers[r.slot := handle]), r.tag, 0, NO_WORDS, NO_DATA, 0, SCSI_REPLY, false, false, true, blockSize);
    }
  }

  lemma DataInValid(t: Target, tag: seq<byte>, expected: nat, itr: nat, offset: nat, current: nat, last: bool, blockSize: nat)
    requires Valid(t, blockSize)
    ensures Valid(SendDataIn(t, tag, expected, itr, offset, current, last, blockSize), blockSize)
  {
    hide DiskBytes, Residual, Send, Wrap;
    SendValid(t, tag, expected, Words(0, Wrap(itr), Wrap(itr * t.maxRecv), 0), [], Wrap(current * blockSize), DATA_IN, true, false, last, blockSize);
  }

  lemma ExecuteValid(t: Target, r: Request, blockSize: nat)
    requires Valid(t, blockSize) && WellFormedRequest(r, blockSize)
    ensures Valid(Execute(t, r, blockSize), blockSize)
  {
    hide DoWrite10, DoDataOut, SplitRead, SendDataIn, Send;
    match r
    case Inquire(tag, expected, cmd, data, size) =>
      SendValid(t, tag, expected, NO_WORDS, data, size, cmd, cmd == DATA_IN, true, true, blockSize);
    case Write10(_, _, _, _, _, _) => Write10Valid(t, r, blockSize);
    case DataOut(_, _, _, _) => DataOutValid(t, r, blockSize);
    case Read10(tag, expected, lba, blocks) =>
      SplitValid(t, tag, expected, 0, lba, blocks, blockSize);
      DataInValid(t, tag, expected, 0, lba, blocks, true, blockSize);
    case _ =>
  }

  /** Over every run of commands, from a new connection on, the headers are in sequence. */
  lemma {:induction false} RunInSequence(t: Target, rs: seq<Request>, blockSize: nat)
    requires InSequence(t) && Valid(t, blockSize) && forall r | r in rs :: WellFormedRequest(r, blockSize)
    ensures InSequence(ExecuteAll(t, rs, blockSize))
    decreases |rs|
  {
    if rs != [] {
      assert rs[0] in rs;
      ExecuteValid(t, rs[0], blockSize);
      ExecuteInSequence(t, rs[0], blockSize);
      hide Execute, InSequence, Valid;
      RunInSequence(Execute(t, rs[0], blockSize), rs[1..], blockSize);
    }
  }

  /** The state of a connection that has just been accepted. */
  function NewConnection(maxRecv: nat): Target {
    Target(0, 1, maxRecv, 0, seq(MAX_TRANSFERS, _ => Transfer(0, 0, 0)), [], [])
  }

  /** StatSN counts 0, 1, 2, ... modulo 2^32; ExpCmdSN stays or advances by one; MaxCmdSN is always
      `QUEUE_SIZE` ahead of it. */
  ghost predicate ProperlyNumbered(hs: seq<Header>) {
    forall i | 0 <= i < |hs| ::
      && hs[i].statSN == i % TWO_32
      && (hs[i].maxCmdSN - hs[i].expCmdSN) % TWO_32 == QUEUE_SIZE
      && (i > 0 ==> (hs[i].expCmdSN - hs[i - 1].expCmdSN) % TWO_32 <= 1)
  }

  lemma StatusNumbers(maxRecv: nat, rs: seq<Request>, blockSize: nat)
    requires 0 < blockSize && maxRecv < TWO_32 && forall r | r in rs :: WellFormedRequest(r, blockSize)
    ensures ProperlyNumbered(Headers(ExecuteAll(NewConnection(maxRecv), rs, blockSize).out))
  {
    hide ExecuteAll, WellFormedRequest, ProperlyNumbered;
    assert InSequence(NewConnection(maxRecv));
    RunInSequence(NewConnection(maxRecv), rs, blockSize);
    var t := ExecuteAll(NewConnection(maxRecv), rs, blockSize);
    SequenceMeans(Headers(t.out), t.sn, t.cmdSN);
  }

  lemma SequenceMeans(hs: seq<Header>, sn: nat, cmdSN: nat)
    requires Sequenced(hs, sn, cmdSN)
    ensures ProperlyNumbered(hs)
  {
    hide Numbered;
    forall i | 0 <= i < |hs|
      ensures hs[i].statSN == i % TWO_32
      ensures (hs[i].maxCmdSN - hs[i].expCmdSN) % TWO_32 == QUEUE_SIZE
      ensures i > 0 ==> (hs[i].expCmdSN - hs[i - 1].expCmdSN) % TWO_32 <= 1
    {
      NumberedMeans(hs[i], i, Following(hs, i, cmdSN));
      if i > 0 {
        NumberedMeans(hs[i - 1], i - 1, Following(hs, i - 1, cmdSN));
      }
    }
  }

  lemma NumberedMeans(h: Header, i: nat, next: nat)
    requires Numbered(h, i, next)
    ensures h.statSN == i % TWO_32
    ensures (h.maxCmdSN - h.expCmdSN) % TWO_32 == QUEUE_SIZE
    ensures (next - h.expCmdSN) % TWO_32 <= 1
  {
    WrappedLead(h.expCmdSN, QUEUE_SIZE);
    WrappedLead(h.expCmdSN, 1);
  }

  lemma WrappedLead(a: nat, k: nat)
    requires k < TWO_32
    ensures (Wrap(a + k) - a) % TWO_32 == k
  {
    var q := (a + k) / TWO_32;
    assert Wrap(a + k) - a == k - q * TWO_32;
    MultiplesVanish(k, -q);
  }

  lemma MultiplesVanish(k: nat, q: int)
    requires k < TWO_32
    ensures (k + q * TWO_32) % TWO_32 == k
  {
  }
}
