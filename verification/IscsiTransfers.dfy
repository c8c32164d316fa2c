/** Writes whose data arrive in pieces: R2T, Data-Out in any order, other traffic in between. */
module IscsiTransfers {
  import opened Bytes
  import opened IscsiPdu
  import opened IscsiTarget
  import IscsiReplies
  import IscsiReads

  // ----- what one command changes

  function TagOf(r: Request): seq<byte> {
    if r.Unsupported? then [] else r.tag
  }

  /** The part of the disk log that `r` adds. */
  function Writes(t: Target, r: Request, blockSize: nat): seq<DiskWrite>
    requires |t.transfers| == MAX_TRANSFERS && 0 < blockSize
  {
    match r
    case Write10(_, _, _, lba, blocks, data) => [DiskWrite(lba * blockSize, data, blocks)]
    case DataOut(_, slot, offset, data) =>
      if slot < MAX_TRANSFERS then [DiskWrite(Place(t.transfers[slot].offset, offset, blockSize), data, BlocksIn(|data|, blockSize))] else []
    case _ => []
  }

  function Transfers(t: Target, r: Request, blockSize: nat): (s: seq<Transfer>)
    requires |t.transfers| == MAX_TRANSFERS && 0 < blockSize
    ensures |s| == MAX_TRANSFERS
  {
    if Starts(r) then
      t.transfers[t.currentTransfer % MAX_TRANSFERS := Transfer(r.lba, r.blocks, BlocksIn(|r.data|, blockSize))]
    else if r.DataOut? && r.slot < MAX_TRANSFERS then
      var was := t.transfers[r.slot];
      t.transfers[r.slot := was.(current := Wrap(was.current + BlocksIn(|r.data|, blockSize)))]
    else t.transfers
  }

  /** Every reply added since `t` answers the command with tag `tag`. */
  ghost predicate Answers(t: Target, t': Target, tag: seq<byte>) {
    && t.out <= t'.out
    && forall k | |t.out| <= k < |t'.out| :: t'.out[k].Reply? ==> t'.out[k].h.taskTag == tag
  }

  ghost predicate Quiet(t: Target, t': Target) {
    && t'.transfers == t.transfers && t'.writes == t.writes && t'.currentTransfer == t.currentTransfer
    && t'.maxRecv == t.maxRecv
  }

  lemma SendEffect(t: Target, tag: seq<byte>, expected: nat, words: Words, data: seq<byte>, size: nat,
                   cmd: nat, status: bool, flow: bool, finished: bool)
    ensures var t' := Send(t, tag, expected, words, data, size, cmd, status, flow, finished);
            Answers(t, t', tag) && Quiet(t, t')
  {
  }

  lemma AnswersJoin(t: Target, t1: Target, t2: Target, tag: seq<byte>)
    requires Answers(t, t1, tag) && Answers(t1, t2, tag)
    ensures Answers(t, t2, tag)
  {
    forall k | |t.out| <= k < |t2.out|
      ensures t2.out[k].Reply? ==> t2.out[k].h.taskTag == tag
    {
      if k < |t1.out| {
        assert t2.out[k] == t1.out[k];
      }
    }
  }

  lemma DataInEffect(t: Target, tag: seq<byte>, expected: nat, itr: nat, offset: nat, current: nat, last: bool, blockSize: nat)
    ensures var t' := SendDataIn(t, tag, expected, itr, offset, current, last, blockSize);
            Answers(t, t', tag) && Quiet(t, t')
  {
    hide DiskBytes;
  }

  lemma {:induction false} SplitEffect(t: Target, tag: seq<byte>, expected: nat, itr: nat, offset: nat, count: nat, blockSize: nat)
    requires 0 < blockSize
    ensures var t' := SplitRead(t, tag, expected, itr, offset, count, blockSize);
            Answers(t, t', tag) && Quiet(t, t')
    decreases count
  {
    hide SendDataIn;
    var max := t.maxRecv / blockSize;
    if count > 0 && max > 0 {
      var current := if count > max then max else count;
      DataInEffect(t, tag, expected, itr, offset, current, current == count, blockSize);
      var t1 := SendDataIn(t, tag, expected, itr, offset, current, current == count, blockSize);
      SplitEffect(t1, tag, expected, itr + 1, offset + current, count - current, blockSize);
      hide Answers;
      AnswersJoin(t, t1, SplitRead(t, tag, expected, itr, offset, count, blockSize), tag);
    }
  }

  /** One R2T is sent however much is missing, because the count parses as `(a + b) ? 1 : 0`. */
  lemma OneR2T(t: Target, tag: seq<byte>, slot: nat, immediate: nat, rem: nat)
    requires 0 < rem
    ensures R2TCount(rem) == 1
    ensures SendR2Ts(t, tag, slot, 0, 1, immediate, rem)
            == Send(t, tag, 0, Words(slot, 0, Wrap(immediate), rem % MAX_TARGET), NO_DATA, 0, READY, false, false, true)
  {
    hide Send;
    var t1 := Send(t, tag, 0, R2TWords(slot, 0, 1, immediate, rem), NO_DATA, 0, READY, false, false, true);
    assert SendR2Ts(t, tag, slot, 0, 1, immediate, rem) == SendR2Ts(t1, tag, slot, 1, 1, immediate, rem);
  }

  lemma Effect(t: Target, r: Request, blockSize: nat)
    requires Valid(t, blockSize)
    ensures var t' := Execute(t, r, blockSize);
            && Answers(t, t', TagOf(r))
            && t'.writes == t.writes + Writes(t, r, blockSize)
            && t'.transfers == Transfers(t, r, blockSize)
            && t'.currentTransfer == (if Starts(r) then Wrap(t.currentTransfer + 1) else t.currentTransfer)
            && t'.maxRecv == (if r.Login? && !r.resumed then r.maxRecv else t.maxRecv)
  {
    hide Send, SendDataIn, SplitRead, SendR2Ts, Wrap;
    match r
    case Login(tag, final, resumed, maxRecv, text, size) =>
    case Text(tag, finished, text, size) =>
    case Logout(tag, finished) =>
    case Inquire(tag, expected, cmd, data, size) =>
      SendEffect(t, tag, expected, NO_WORDS, data, size, cmd, cmd == DATA_IN, true, true);
    case Write10(_, _, _, _, _, _) => Write10Effect(t, r, blockSize);
    case DataOut(_, _, _, _) => DataOutEffect(t, r, blockSize);
    case Read10(tag, expected, lba, blocks) =>
      SplitEffect(t, tag, expected, 0, lba, blocks, blockSize);
      DataInEffect(t, tag, expected, 0, lba, blocks, true, blockSize);
    case Unsupported =>
  }

  /** The table after a start, and the words of the one R2T. */
  function Began(t: Target, r: Request, blockSize: nat): Target
    requires |t.transfers| == MAX_TRANSFERS && 0 < blockSize && Starts(r)
  {
    t.(currentTransfer := Wrap(t.currentTransfer + 1), transfers := Transfers(t, r, blockSize))
  }

  function Asking(t: Target, r: Request): Words
    requires Starts(r)
  {
    Words(t.currentTransfer % MAX_TRANSFERS, 0, Wrap(|r.data|), (r.transferLength - |r.data|) % MAX_TARGET)
  }

  lemma StartIsOneReply(t: Target, r: Request, blockSize: nat)
    requires Valid(t, blockSize) && Starts(r)
    ensures Execute(t, r, blockSize)
            == Written(Send(Began(t, r, blockSize), r.tag, 0, Asking(t, r), NO_DATA, 0, READY, false, false, true),
                       r.lba * blockSize, r.data, r.blocks)
  {
    hide Send, SendR2Ts, Wrap, R2TCount;
    OneR2T(Began(t, r, blockSize), r.tag, t.currentTransfer % MAX_TRANSFERS, |r.data|, r.transferLength - |r.data|);
  }

  lemma Write10Effect(t: Target, r: Request, blockSize: nat)
    requires Valid(t, blockSize) && r.Write10?
    ensures var t' := DoWrite10(t, r, blockSize);
            && Answers(t, t', r.tag)
            && t'.writes == t.writes + Writes(t, r, blockSize)
            && t'.transfers == Transfers(t, r, blockSize)
            && t'.currentTransfer == (if Starts(r) then Wrap(t.currentTransfer + 1) else t.currentTransfer)
            && t'.maxRecv == t.maxRecv
  {
    hide Send, SendR2Ts, Wrap, Asking;
    if Starts(r) {
      StartIsOneReply(t, r, blockSize);
      SendEffect(Began(t, r, blockSize), r.tag, 0, Asking(t, r), NO_DATA, 0, READY, false, false, true);
    } else {
      SendEffect(t, r.tag, 0, NO_WORDS, NO_DATA, 0, SCSI_REPLY, false, false, true);
    }
  }

  lemma DataOutEffect(t: Target, r: Request, blockSize: nat)
    requires Valid(t, blockSize) && r.DataOut?
    ensures var t' := DoDataOut(t, r, blockSize);
            && Answers(t, t', r.tag)
            && t'.writes == t.writes + Writes(t, r, blockSize)
            && t'.transfers == Transfers(t, r, blockSize)
            && t'.currentTransfer == t.currentTransfer && t'.maxRecv == t.maxRecv
  {
    hide Send, Wrap;
    if r.slot < MAX_TRANSFERS {
      var was := t.transfers[r.slot];
      var handle := was.(current := Wrap(was.current + BlocksIn(|r.data|, blockSize)));
      SendEffect(t.(transfers := t.transfers[r.slot := handle]), r.tag, 0, NO_WORDS, NO_DATA, 0, SCSI_REPLY, false, false, true);
    }
  }

  // ----- one solicited write

  /** The slot the R2T named, the initiator tag, the data the initiator wants at `lba`, and how many final
      statuses went out under this tag before the write began (tags may be reused). */
  datatype Job = Job(slot: nat, tag: seq<byte>, lba: nat, data: seq<byte>, before: nat)

  predicate Within(a: nat, from: nat, size: nat) {
    from <= a < from + size
  }

  function Range(from: nat, size: nat): set<nat> {
    set a: nat | a < from + size && Within(a, from, size)
  }

  lemma {:induction false} RangeSize(from: nat, size: nat)
    ensures |Range(from, size)| == size
    decreases size
  {
    if size > 0 {
      RangeSize(from, size - 1);
      assert Range(from, size) == Range(from, size - 1) + {from + size - 1};
    }
  }

  /** Final statuses sent for a task. */
  function Statuses(out: seq<Out>, tag: seq<byte>): nat {
    if out == [] then 0
    else
      var o := out[|out| - 1];
      Statuses(out[..|out| - 1], tag) + if o.Reply? && o.h.cmd == SCSI_REPLY && o.h.taskTag == tag then 1 else 0
  }

  lemma StatusesSnoc(out: seq<Out>, o: Out, tag: seq<byte>)
    ensures Statuses(out + [o], tag) == Statuses(out, tag) + if o.Reply? && o.h.cmd == SCSI_REPLY && o.h.taskTag == tag then 1 else 0
  {
    assert (out + [o])[..|out|] == out;
  }

  lemma {:induction false} OtherStatuses(out: seq<Out>, out': seq<Out>, answered: seq<byte>, tag: seq<byte>)
    requires out <= out' && answered != tag
    requires forall k | |out| <= k < |out'| :: out'[k].Reply? ==> out'[k].h.taskTag == answered
    ensures Statuses(out', tag) == Statuses(out, tag)
    decreases |out'|
  {
    if |out'| > |out| {
      var front := out'[..|out'| - 1];
      OtherStatuses(out, front, answered, tag);
      assert out' == front + [out'[|out'| - 1]];
    } else {
      assert out' == out;
    }
  }

  /** The table entry: where the data go, how many blocks are due, how many arrived. */
  ghost predicate InTable(x: Transfer, job: Job, received: nat, blockSize: nat) {
    x.offset == job.lba && x.length * blockSize == |job.data| && x.current * blockSize == received
  }

  /** What a disk address holds when the bytes `got` of the job arrived among the writes `others`. */
  function Expected(job: Job, got: set<nat>, others: seq<DiskWrite>, blockSize: nat, a: nat): byte {
    var base := job.lba * blockSize;
    if base <= a < base + |job.data| && a - base in got then job.data[a - base] else ReadBack(others, a)
  }

  ghost predicate OnDisk(writes: seq<DiskWrite>, job: Job, got: set<nat>, others: seq<DiskWrite>, blockSize: nat) {
    forall a: nat :: ReadBack(writes, a) == Expected(job, got, others, blockSize, a)
  }

  /** Where a solicited write stands after the bytes `got`. */
  ghost predicate Progress(t: Target, job: Job, got: set<nat>, others: seq<DiskWrite>, blockSize: nat) {
    && job.slot < MAX_TRANSFERS == |t.transfers|
    && got <= Range(0, |job.data|)
    && InTable(t.transfers[job.slot], job, |got|, blockSize)
    && Statuses(t.out, job.tag) == job.before + (if |got| == |job.data| then 1 else 0)
    && OnDisk(t.writes, job, got, others, blockSize)
  }

  // ----- one more piece

  predicate Mine(job: Job, r: Request) {
    r.DataOut? && r.slot == job.slot
  }

  /** A Data-Out that brings new whole blocks of the job. */
  ghost predicate Piece(job: Job, got: set<nat>, r: Request, blockSize: nat)
    requires blockSize > 0
  {
    && Mine(job, r) && r.tag == job.tag
    && r.offset % blockSize == 0 && |r.data| % blockSize == 0
    && 0 < |r.data| && r.offset + |r.data| <= |job.data|
    && r.data == job.data[r.offset..r.offset + |r.data|]
    && Range(r.offset, |r.data|) !! got
  }

  lemma WriteSeen(writes: seq<DiskWrite>, w: DiskWrite, a: nat)
    ensures ReadBack(writes + [w], a) == if w.addr <= a < w.addr + |w.data| then w.data[a - w.addr] else ReadBack(writes, a)
  {
    assert (writes + [w])[..|writes|] == writes;
  }

  lemma PieceOnDisk(writes: seq<DiskWrite>, job: Job, got: set<nat>, others: seq<DiskWrite>, r: Request, addr: nat, blocks: nat, blockSize: nat)
    requires blockSize > 0 && Piece(job, got, r, blockSize) && OnDisk(writes, job, got, others, blockSize)
    requires addr == job.lba * blockSize + r.offset
    ensures OnDisk(writes + [DiskWrite(addr, r.data, blocks)], job, got + Range(r.offset, |r.data|), others, blockSize)
  {
    var w := DiskWrite(addr, r.data, blocks);
    hide ReadBack;
    forall a: nat
      ensures ReadBack(writes + [w], a) == Expected(job, got + Range(r.offset, |r.data|), others, blockSize, a)
    {
      WriteSeen(writes, w, a);
      assert ReadBack(writes, a) == Expected(job, got, others, blockSize, a);
      var base := job.lba * blockSize;
      if addr <= a < addr + |r.data| {
        assert r.data[a - addr] == job.data[a - base];
        assert a - base in Range(r.offset, |r.data|);
      } else if base <= a {
        assert a - base !in Range(r.offset, |r.data|);
      }
    }
  }

  lemma WholeBlocks(n: nat, blockSize: nat)
    requires blockSize > 0 && n % blockSize == 0
    ensures n / blockSize * blockSize == n
  {
  }

  lemma ProductsEqual(a: nat, b: nat, c: nat)
    requires c > 0
    ensures a * c == b * c <==> a == b
  {
    if a < b {
      ProductGrows(a, b, c);
    } else if b < a {
      ProductGrows(b, a, c);
    }
  }

  lemma ProductGrows(a: nat, b: nat, c: nat)
    requires c > 0 && a < b
    ensures a * c < b * c
  {
    assert b * c == a * c + (b - a) * c;
  }

  lemma ProductOfSum(a: nat, b: nat, c: nat)
    requires c > 0
    ensures (a + b) * c == a * c + b * c
    ensures a <= a * c
  {
  }

  /** The count goes up by what arrived, without wrapping, and completes when everything arrived. */
  lemma PieceCounted(x: Transfer, job: Job, received: nat, size: nat, blockSize: nat)
    requires 0 < blockSize && InTable(x, job, received, blockSize)
    requires size % blockSize == 0 && received + size <= |job.data| < TWO_32
    ensures var current := Wrap(x.current + Wrap(size) / blockSize);
            && InTable(x.(current := current), job, received + size, blockSize)
            && (current == x.length <==> received + size == |job.data|)
  {
    WholeBlocks(size, blockSize);
    assert Wrap(size) == size;
    var sum := x.current + size / blockSize;
    ProductOfSum(x.current, size / blockSize, blockSize);
    assert sum * blockSize == received + size;
    ProductOfSum(sum, 0, blockSize);
    ProductsEqual(sum, x.length, blockSize);
    assert Wrap(sum) == sum;
  }

  lemma PieceAddress(lba: nat, offset: nat, blockSize: nat)
    requires blockSize > 0 && offset % blockSize == 0
    ensures Place(lba, offset, blockSize) == lba * blockSize + offset
  {
    WholeBlocks(offset, blockSize);
    ProductOfSum(lba, offset / blockSize, blockSize);
  }

  lemma PieceStatus(t: Target, job: Job, r: Request, blockSize: nat)
    requires Valid(t, blockSize) && r.DataOut? && r.slot < MAX_TRANSFERS && r.tag == job.tag
    ensures var current := Wrap(t.transfers[r.slot].current + BlocksIn(|r.data|, blockSize));
            Statuses(Execute(t, r, blockSize).out, job.tag)
            == Statuses(t.out, job.tag) + if current == t.transfers[r.slot].length then 1 else 0
  {
    hide Statuses, Wrap, Residual;
    var was := t.transfers[r.slot];
    var handle := was.(current := Wrap(was.current + BlocksIn(|r.data|, blockSize)));
    var t1 := t.(transfers := t.transfers[r.slot := handle]);
    var t2 := Send(t1, r.tag, 0, NO_WORDS, NO_DATA, 0, SCSI_REPLY, false, false, true);
    assert t2.out == t.out + [t2.out[|t.out|]];
    StatusesSnoc(t.out, t2.out[|t.out|], job.tag);
  }

  lemma PieceArrives(t: Target, job: Job, got: set<nat>, others: seq<DiskWrite>, r: Request, blockSize: nat)
    requires Valid(t, blockSize) && |job.data| < TWO_32
    requires Progress(t, job, got, others, blockSize) && Piece(job, got, r, blockSize)
    ensures Progress(Execute(t, r, blockSize), job, got + Range(r.offset, |r.data|), others, blockSize)
  {
    hide Execute, Statuses, OnDisk, Wrap, Answers;
    var more := Range(r.offset, |r.data|);
    RangeSize(r.offset, |r.data|);
    RangeSize(0, |job.data|);
    assert got + more <= Range(0, |job.data|);
    assert |got + more| == |got| + |more|;
    SubsetSize(got + more, Range(0, |job.data|));
    Effect(t, r, blockSize);
    PieceCounted(t.transfers[r.slot], job, |got|, |r.data|, blockSize);
    PieceStatus(t, job, r, blockSize);
    PieceAddress(job.lba, r.offset, blockSize);
    PieceOnDisk(t.writes, job, got, others, r, job.lba * blockSize + r.offset, BlocksIn(|r.data|, blockSize), blockSize);
    hide InTable;
  }

  lemma {:induction false} SubsetSize(a: set<nat>, b: set<nat>)
    requires a <= b
    ensures |a| <= |b|
    ensures |a| == |b| ==> a == b
    decreases |a|
  {
    if a == {} {
      assert |b| == 0 ==> b == {};
    } else {
      var x :| x in a;
      SubsetSize(a - {x}, b - {x});
      assert a == a - {x} + {x} && b == b - {x} + {x};
    }
  }

  // ----- commands that are not the job's

  ghost predicate Apart(w: DiskWrite, job: Job, blockSize: nat) {
    w.addr + |w.data| <= job.lba * blockSize || job.lba * blockSize + |job.data| <= w.addr
  }

  /** A command of another task that writes, if anything, outside the job's blocks. */
  ghost predicate Elsewhere(t: Target, job: Job, r: Request, blockSize: nat)
    requires |t.transfers| == MAX_TRANSFERS && 0 < blockSize
  {
    !Mine(job, r) && TagOf(r) != job.tag && forall w | w in Writes(t, r, blockSize) :: Apart(w, job, blockSize)
  }

  lemma ApartOnDisk(writes: seq<DiskWrite>, job: Job, got: set<nat>, others: seq<DiskWrite>, w: DiskWrite, blockSize: nat)
    requires OnDisk(writes, job, got, others, blockSize) && Apart(w, job, blockSize)
    ensures OnDisk(writes + [w], job, got, others + [w], blockSize)
  {
    hide ReadBack;
    forall a: nat
      ensures ReadBack(writes + [w], a) == Expected(job, got, others + [w], blockSize, a)
    {
      WriteSeen(writes, w, a);
      WriteSeen(others, w, a);
      assert ReadBack(writes, a) == Expected(job, got, others, blockSize, a);
    }
  }

  /** Another command leaves the job as it is, unless it takes the job's slot. */
  lemma OtherCommand(t: Target, job: Job, got: set<nat>, others: seq<DiskWrite>, r: Request, blockSize: nat)
    requires Valid(t, blockSize) && Progress(t, job, got, others, blockSize) && Elsewhere(t, job, r, blockSize)
    requires Starts(r) ==> t.currentTransfer % MAX_TRANSFERS != job.slot
    ensures Progress(Execute(t, r, blockSize), job, got, others + Writes(t, r, blockSize), blockSize)
  {
    hide Execute, Statuses, OnDisk, Wrap, InTable;
    Effect(t, r, blockSize);
    var t' := Execute(t, r, blockSize);
    OtherStatuses(t.out, t'.out, TagOf(r), job.tag);
    var ws := Writes(t, r, blockSize);
    assert |ws| <= 1;
    if ws == [] {
      assert t.writes + ws == t.writes && others + ws == others;
    } else {
      assert ws == [ws[0]] && ws[0] in ws;
      ApartOnDisk(t.writes, job, got, others, ws[0], blockSize);
    }
  }

  // ----- slots

  /** The table is used round robin, and 128 divides 2^32, so wrap of the counter does not disturb it:
      `age` starts after number `start`, the next start takes the slot of `start` again exactly when
      `age` is a multiple of 128. */
  lemma SlotRetakenIff(start: nat, age: nat)
    ensures Wrap(start + age) % MAX_TRANSFERS == start % MAX_TRANSFERS <==> age % MAX_TRANSFERS == 0
  {
    WrapKeepsSlot(start + age);
    var q, s, a := start / MAX_TRANSFERS, start % MAX_TRANSFERS, age % MAX_TRANSFERS;
    assert start + age == (q + age / MAX_TRANSFERS) * MAX_TRANSFERS + (s + a);
    DropMultiple(q + age / MAX_TRANSFERS, s + a);
  }

  lemma DropMultiple(q: int, n: nat)
    ensures (q * MAX_TRANSFERS + n) % MAX_TRANSFERS == n % MAX_TRANSFERS
  {
  }

  lemma WrapKeepsSlot(n: nat)
    ensures Wrap(n) % MAX_TRANSFERS == n % MAX_TRANSFERS
  {
    var q := n / TWO_32;
    assert n == q * (TWO_32 / MAX_TRANSFERS) * MAX_TRANSFERS + Wrap(n);
    DropMultiple(q * (TWO_32 / MAX_TRANSFERS), Wrap(n));
  }

  // ----- runs

  /** A run in which every command is the next piece of the job or does not concern it. */
  ghost predicate Arrivals(t: Target, job: Job, got: set<nat>, rs: seq<Request>, blockSize: nat)
    requires Valid(t, blockSize)
    decreases |rs|
  {
    rs != [] ==>
      && WellFormedRequest(rs[0], blockSize)
      && (if Mine(job, rs[0]) then Piece(job, got, rs[0], blockSize) else Elsewhere(t, job, rs[0], blockSize))
      && (IscsiReplies.ExecuteValid(t, rs[0], blockSize);
          Arrivals(Execute(t, rs[0], blockSize), job, Received(job, got, rs[..1]), rs[1..], blockSize))
  }

  function Received(job: Job, got: set<nat>, rs: seq<Request>): set<nat>
    decreases |rs|
  {
    if rs == [] then got
    else Received(job, if Mine(job, rs[0]) then got + Range(rs[0].offset, |rs[0].data|) else got, rs[1..])
  }

  /** The writes of everyone else, in order. */
  function Others(t: Target, job: Job, rs: seq<Request>, blockSize: nat): seq<DiskWrite>
    requires Valid(t, blockSize) && forall r | r in rs :: WellFormedRequest(r, blockSize)
    decreases |rs|
  {
    if rs == [] then []
    else
      IscsiReplies.ExecuteValid(t, rs[0], blockSize);
      (if Mine(job, rs[0]) then [] else Writes(t, rs[0], blockSize))
      + Others(Execute(t, rs[0], blockSize), job, rs[1..], blockSize)
  }

  function Begun(rs: seq<Request>): nat {
    if rs == [] then 0 else (if Starts(rs[0]) then 1 else 0) + Begun(rs[1..])
  }

  lemma {:induction false} ArrivalsWellFormed(t: Target, job: Job, got: set<nat>, rs: seq<Request>, blockSize: nat)
    requires Valid(t, blockSize) && Arrivals(t, job, got, rs, blockSize)
    ensures forall r | r in rs :: WellFormedRequest(r, blockSize)
    decreases |rs|
  {
    hide Execute, WellFormedRequest;
    if rs != [] {
      IscsiReplies.ExecuteValid(t, rs[0], blockSize);
      ArrivalsWellFormed(Execute(t, rs[0], blockSize), job, Received(job, got, rs[..1]), rs[1..], blockSize);
      assert forall r | r in rs :: r == rs[0] || r in rs[1..];
    }
  }

  /** One command of such a run, with the slot accounted for. */
  lemma OneArrival(t: Target, job: Job, got: set<nat>, others: seq<DiskWrite>, r: Request, start: nat, age: nat, blockSize: nat)
    requires Valid(t, blockSize) && |job.data| < TWO_32 && Progress(t, job, got, others, blockSize)
    requires if Mine(job, r) then Piece(job, got, r, blockSize) else Elsewhere(t, job, r, blockSize)
    requires job.slot == start % MAX_TRANSFERS && t.currentTransfer == Wrap(start + age)
    requires 0 < age && (Starts(r) ==> age < MAX_TRANSFERS)
    ensures Progress(Execute(t, r, blockSize), job, Received(job, got, [r]),
                     others + if Mine(job, r) then [] else Writes(t, r, blockSize), blockSize)
    ensures Execute(t, r, blockSize).currentTransfer == Wrap(start + if Starts(r) then age + 1 else age)
  {
    hide Execute, Progress, Piece, Elsewhere, Wrap;
    Effect(t, r, blockSize);
    assert [r][1..] == [];
    if Mine(job, r) {
      PieceArrives(t, job, got, others, r, blockSize);
      assert others + [] == others;
    } else {
      SlotRetakenIff(start, age);
      OtherCommand(t, job, got, others, r, blockSize);
      IscsiReplies.WrapNext(start + age);
    }
  }

  /** Whatever is interleaved, as long as fewer than 128 transfers begin after the job's own. */
  lemma {:induction false} RunProgresses(t: Target, job: Job, got: set<nat>, others: seq<DiskWrite>, rs: seq<Request>,
                                         start: nat, age: nat, blockSize: nat)
    requires Valid(t, blockSize) && |job.data| < TWO_32 && Progress(t, job, got, others, blockSize)
    requires forall r | r in rs :: WellFormedRequest(r, blockSize)
    requires Arrivals(t, job, got, rs, blockSize)
    requires job.slot == start % MAX_TRANSFERS && t.currentTransfer == Wrap(start + age)
    requires 0 < age && age + Begun(rs) <= MAX_TRANSFERS
    ensures Progress(IscsiReplies.ExecuteAll(t, rs, blockSize), job, Received(job, got, rs),
                     others + Others(t, job, rs, blockSize), blockSize)
    decreases |rs|
  {
    hide Execute, Progress, Piece, Elsewhere, Wrap, Starts, WellFormedRequest;
    if rs == [] {
      assert others + [] == others;
    } else {
      var r := rs[0];
      assert rs[..1] == [r];
      IscsiReplies.ExecuteValid(t, r, blockSize);
      OneArrival(t, job, got, others, r, start, age, blockSize);
      var here := if Mine(job, r) then [] else Writes(t, r, blockSize);
      var t1 := Execute(t, r, blockSize);
      RunProgresses(t1, job, Received(job, got, [r]), others + here, rs[1..],
                    start, if Starts(r) then age + 1 else age, blockSize);
      ReceivedSplits(job, got, rs);
      assert others + here + Others(t1, job, rs[1..], blockSize) == others + Others(t, job, rs, blockSize);
    }
  }

  lemma ReceivedSplits(job: Job, got: set<nat>, rs: seq<Request>)
    requires rs != []
    ensures Received(job, got, rs) == Received(job, Received(job, got, [rs[0]]), rs[1..])
  {
    assert [rs[0]][1..] == [];
  }

  // ----- the whole story of one command

  /** The command and the data it is about: some whole blocks come with the command, the rest later. */
  ghost predicate Solicits(r: Request, data: seq<byte>, blockSize: nat)
    requires blockSize > 0
  {
    && Starts(r) && r.transferLength == |data| == r.blocks * blockSize
    && |r.data| % blockSize == 0 && |r.data| < |data| && r.data == data[..|r.data|]
  }

  function JobOf(t: Target, r: Request, data: seq<byte>): Job
    requires r.Write10?
  {
    Job(t.currentTransfer % MAX_TRANSFERS, r.tag, r.lba, data, Statuses(t.out, r.tag))
  }

  /** The reply to the command: one R2T that names the slot and where the missing data start.  It asks for
      everything that is missing exactly when less than 1 MiB is missing. */
  lemma AsksForTheRest(t: Target, r: Request, blockSize: nat)
    requires Valid(t, blockSize) && WellFormedRequest(r, blockSize) && Starts(r)
    ensures var out, rem := Execute(t, r, blockSize).out, r.transferLength - |r.data|;
            && |out| == |t.out| + 1 && t.out <= out && out[|t.out|].Reply?
            && var h := out[|t.out|].h;
            && h.cmd == READY && h.taskTag == r.tag
            && h.word0 == t.currentTransfer % MAX_TRANSFERS && h.word4 == 0 && h.word5 == |r.data|
            && (h.word6 == rem <==> rem < MAX_TARGET)
  {
    hide Execute, Residual, Wrap, Transfers;
    StartIsOneReply(t, r, blockSize);
    FitsWord(|r.data|);
  }

  lemma FitsWord(n: nat)
    requires n < TWO_32
    ensures Wrap(n) == n
  {
  }

  /** 1 MiB missing: the R2T asks for nothing. */
  lemma MebibyteNotAskedFor(t: Target, r: Request, blockSize: nat)
    requires Valid(t, blockSize) && WellFormedRequest(r, blockSize) && Starts(r)
    requires r.transferLength == |r.data| + MAX_TARGET
    ensures var out := Execute(t, r, blockSize).out;
            |out| == |t.out| + 1 && out[|t.out|].Reply? && out[|t.out|].h.word6 == 0
  {
    hide Execute, Residual, Wrap, Transfers;
    StartIsOneReply(t, r, blockSize);
  }

  lemma JobBegins(t: Target, r: Request, data: seq<byte>, blockSize: nat)
    requires Valid(t, blockSize) && WellFormedRequest(r, blockSize) && Solicits(r, data, blockSize)
    ensures Progress(Execute(t, r, blockSize), JobOf(t, r, data), Range(0, |r.data|), t.writes, blockSize)
  {
    hide Execute, Statuses, OnDisk, Wrap, ReadBack, Answers;
    var job, got := JobOf(t, r, data), Range(0, |r.data|);
    Effect(t, r, blockSize);
    RangeSize(0, |r.data|);
    WholeBlocks(|r.data|, blockSize);
    FitsWord(|r.data|);
    NoStatusYet(t, r, data, blockSize);
    Immediate(t.writes, job, r, blockSize);
  }

  /** The request for data is no status. */
  lemma NoStatusYet(t: Target, r: Request, data: seq<byte>, blockSize: nat)
    requires Valid(t, blockSize) && WellFormedRequest(r, blockSize) && Solicits(r, data, blockSize)
    ensures Statuses(Execute(t, r, blockSize).out, r.tag) == Statuses(t.out, r.tag)
  {
    hide Execute, Statuses;
    AsksForTheRest(t, r, blockSize);
    var out := Execute(t, r, blockSize).out;
    assert out == t.out + [out[|t.out|]];
    StatusesSnoc(t.out, out[|t.out|], r.tag);
  }

  lemma Immediate(writes: seq<DiskWrite>, job: Job, r: Request, blockSize: nat)
    requires r.Write10? && job.lba == r.lba && |r.data| <= |job.data| && r.data == job.data[..|r.data|]
    ensures OnDisk(writes + [DiskWrite(r.lba * blockSize, r.data, r.blocks)], job, Range(0, |r.data|), writes, blockSize)
  {
    var w := DiskWrite(r.lba * blockSize, r.data, r.blocks);
    hide ReadBack;
    forall a: nat
      ensures ReadBack(writes + [w], a) == Expected(job, Range(0, |r.data|), writes, blockSize, a)
    {
      WriteSeen(writes, w, a);
    }
  }

  /** All data of a job in one call of the handler. */
  function WholeWrite(job: Job, blockSize: nat): DiskWrite
    requires blockSize > 0
  {
    DiskWrite(job.lba * blockSize, job.data, |job.data| / blockSize)
  }

  /** The disk is the one that the others' writes followed by one whole write of the data would leave. */
  ghost predicate AsOneWrite(writes: seq<DiskWrite>, others: seq<DiskWrite>, job: Job, blockSize: nat)
    requires blockSize > 0
  {
    forall a: nat :: ReadBack(writes, a) == ReadBack(others + [WholeWrite(job, blockSize)], a)
  }

  lemma EverythingArrived(writes: seq<DiskWrite>, job: Job, got: set<nat>, others: seq<DiskWrite>, blockSize: nat)
    requires blockSize > 0 && OnDisk(writes, job, got, others, blockSize) && got == Range(0, |job.data|)
    ensures AsOneWrite(writes, others, job, blockSize)
    ensures DiskBytes(writes, job.lba * blockSize, |job.data|) == job.data
  {
    var base := job.lba * blockSize;
    hide ReadBack;
    forall a: nat
      ensures ReadBack(writes, a) == ReadBack(others + [WholeWrite(job, blockSize)], a)
    {
      WriteSeen(others, WholeWrite(job, blockSize), a);
      assert ReadBack(writes, a) == Expected(job, got, others, blockSize, a);
    }
    forall i | 0 <= i < |job.data|
      ensures DiskBytes(writes, base, |job.data|)[i] == job.data[i]
    {
      assert ReadBack(writes, base + i) == Expected(job, got, others, blockSize, base + i);
    }
  }

  /** From a state in which some of a transfer's data are in, through any traffic that stays away from its
      blocks and begins fewer than 128 further transfers: the final status goes out once, and not before
      all data are in; then the disk is as one whole write would have left it. */
  lemma TransferCompletes(t: Target, job: Job, got: set<nat>, others: seq<DiskWrite>, rs: seq<Request>,
                          start: nat, age: nat, blockSize: nat)
    requires Valid(t, blockSize) && |job.data| < TWO_32 && Progress(t, job, got, others, blockSize)
    requires forall r | r in rs :: WellFormedRequest(r, blockSize)
    requires Arrivals(t, job, got, rs, blockSize)
    requires job.slot == start % MAX_TRANSFERS && t.currentTransfer == Wrap(start + age)
    requires 0 < age && age + Begun(rs) <= MAX_TRANSFERS
    ensures var t', all := IscsiReplies.ExecuteAll(t, rs, blockSize), Received(job, got, rs);
            && all <= Range(0, |job.data|)
            && Statuses(t'.out, job.tag) == job.before + (if all == Range(0, |job.data|) then 1 else 0)
            && (all == Range(0, |job.data|) ==>
                  && AsOneWrite(t'.writes, others + Others(t, job, rs, blockSize), job, blockSize)
                  && DiskBytes(t'.writes, job.lba * blockSize, |job.data|) == job.data)
  {
    hide Execute, Arrivals, IscsiReplies.ExecuteAll, Wrap, Statuses, OnDisk, AsOneWrite, InTable, WellFormedRequest;
    RunProgresses(t, job, got, others, rs, start, age, blockSize);
    var all := Received(job, got, rs);
    RangeSize(0, |job.data|);
    SubsetSize(all, Range(0, |job.data|));
    if all == Range(0, |job.data|) {
      EverythingArrived(IscsiReplies.ExecuteAll(t, rs, blockSize).writes, job, all,
                        others + Others(t, job, rs, blockSize), blockSize);
    }
  }

  /** The whole of a solicited write, from its command on. */
  lemma SegmentedWrite(t: Target, r: Request, data: seq<byte>, rs: seq<Request>, blockSize: nat)
    requires Valid(t, blockSize) && WellFormedRequest(r, blockSize) && Solicits(r, data, blockSize)
    requires forall q | q in rs :: WellFormedRequest(q, blockSize)
    requires Arrivals(IscsiReplies.Accepted(t, r, blockSize), JobOf(t, r, data), Range(0, |r.data|), rs, blockSize)
    requires Begun(rs) < MAX_TRANSFERS
    ensures var t1, job := IscsiReplies.Accepted(t, r, blockSize), JobOf(t, r, data);
            var t2, got := IscsiReplies.ExecuteAll(t1, rs, blockSize), Received(job, Range(0, |r.data|), rs);
            && Statuses(t2.out, r.tag) == Statuses(t.out, r.tag) + (if got == Range(0, |data|) then 1 else 0)
            && (got == Range(0, |data|) ==>
                  && AsOneWrite(t2.writes, t.writes + Others(t1, job, rs, blockSize), job, blockSize)
                  && DiskBytes(t2.writes, r.lba * blockSize, |data|) == data)
  {
    Effect(t, r, blockSize);
    JobBegins(t, r, data, blockSize);
    hide Execute, Arrivals, IscsiReplies.ExecuteAll, Wrap, Statuses, OnDisk, AsOneWrite, InTable, WellFormedRequest, Progress;
    TransferCompletes(Execute(t, r, blockSize), JobOf(t, r, data), Range(0, |r.data|), t.writes, rs, t.currentTransfer, 1, blockSize);
  }

  /** What the handler is told: for pieces of whole blocks, how many blocks it is given; for the command of a
      solicited write, the blocks of the whole write, which are more than came with it. */
  lemma BlocksTold(t: Target, r: Request, data: seq<byte>, blockSize: nat)
    requires Valid(t, blockSize) && WellFormedRequest(r, blockSize)
    ensures Solicits(r, data, blockSize) ==>
              |Writes(t, r, blockSize)| == 1 && Writes(t, r, blockSize)[0].blocks * blockSize == |data| > |r.data|
    ensures r.DataOut? && r.slot < MAX_TRANSFERS && |r.data| % blockSize == 0 ==>
              |Writes(t, r, blockSize)| == 1 && Writes(t, r, blockSize)[0].blocks * blockSize == |r.data|
  {
    if r.DataOut? && |r.data| % blockSize == 0 {
      FitsWord(|r.data|);
      WholeBlocks(|r.data|, blockSize);
    }
    hide Wrap;
  }

  /** The other branch: a write whose data all come with the command is that one write and one status. */
  lemma ImmediateWrite(t: Target, r: Request, blockSize: nat)
    requires Valid(t, blockSize) && r.Write10? && !Starts(r)
    ensures var t' := Execute(t, r, blockSize);
            && t'.writes == t.writes + [DiskWrite(r.lba * blockSize, r.data, r.blocks)]
            && Statuses(t'.out, r.tag) == Statuses(t.out, r.tag) + 1
            && t'.transfers == t.transfers
  {
    hide Statuses, Wrap, Residual;
    var t1 := Send(t, r.tag, 0, NO_WORDS, NO_DATA, 0, SCSI_REPLY, false, false, true);
    assert t1.out == t.out + [t1.out[|t.out|]];
    StatusesSnoc(t.out, t1.out[|t.out|], r.tag);
  }

  /** What READ(10) then sends for the same blocks is what was written. */
  lemma ReadReturnsWrite(t: Target, r: Request, data: seq<byte>, blockSize: nat)
    requires Valid(t, blockSize) && r.Read10? && r.blocks * blockSize == |data| && ReadEnds(t, r.blocks, blockSize)
    requires DiskBytes(t.writes, r.lba * blockSize, |data|) == data
    ensures IscsiReads.Payload(IscsiReads.ReadPlan(t, r.blocks, blockSize), t.writes, r.lba, blockSize) == data
  {
    hide DiskBytes, IscsiReads.ReadPlan, IscsiReads.Payload;
    IscsiReads.PlanSums(t, r.blocks, blockSize);
    IscsiReads.PayloadIsRange(IscsiReads.ReadPlan(t, r.blocks, blockSize), t.writes, r.lba, blockSize);
  }

  // ----- the limit is on transfers begun since, not on transfers open

  /** Every transfer but the one in slot `a` has all its data. */
  ghost predicate OnlyOpen(t: Target, a: nat) {
    forall k | 0 <= k < |t.transfers| && k != a :: t.transfers[k].current == t.transfers[k].length
  }

  const BRIEF_TAG: seq<byte> := [0, 0, 0, 9]

  /** A one-block write without immediate data, and the Data-Out that completes it. */
  function BriefWrite(blockSize: nat): Request {
    Write10(BRIEF_TAG, true, blockSize, 0, 1, [])
  }

  function BriefData(slot: nat, blockSize: nat): Request {
    DataOut(BRIEF_TAG, slot, 0, seq<byte>(blockSize, _ => 0))
  }

  function Brief(c: nat, n: nat, blockSize: nat): seq<Request>
    decreases n
  {
    if n == 0 then [] else [BriefWrite(blockSize), BriefData(c % MAX_TRANSFERS, blockSize)] + Brief(c + 1, n - 1, blockSize)
  }

  lemma {:induction false} BriefWellFormed(c: nat, n: nat, blockSize: nat)
    requires blockSize < TWO_32
    ensures forall r | r in Brief(c, n, blockSize) :: WellFormedRequest(r, blockSize)
    decreases n
  {
    if n > 0 {
      BriefWellFormed(c + 1, n - 1, blockSize);
    }
  }

  lemma BriefBegins(t: Target, c: nat, blockSize: nat)
    requires Valid(t, blockSize) && t.currentTransfer == c < MAX_TRANSFERS
    requires blockSize < TWO_32
    ensures var t1 := Execute(t, BriefWrite(blockSize), blockSize);
            && Valid(t1, blockSize) && t1.currentTransfer == c + 1
            && t1.transfers == t.transfers[c := Transfer(0, 1, 0)]
  {
    var w := BriefWrite(blockSize);
    hide Execute, Answers;
    Effect(t, w, blockSize);
    IscsiReplies.ExecuteValid(t, w, blockSize);
  }

  lemma BriefEnds(t: Target, c: nat, blockSize: nat)
    requires Valid(t, blockSize) && c < MAX_TRANSFERS && t.transfers[c] == Transfer(0, 1, 0) && blockSize < TWO_32
    ensures var t1 := Execute(t, BriefData(c, blockSize), blockSize);
            && Valid(t1, blockSize) && t1.currentTransfer == t.currentTransfer
            && t1.transfers == t.transfers[c := Transfer(0, 1, 1)]
  {
    var d := BriefData(c, blockSize);
    FitsWord(blockSize);
    FitsWord(1);
    assert blockSize / blockSize == 1;
    hide Execute, Answers, Wrap;
    Effect(t, d, blockSize);
    IscsiReplies.ExecuteValid(t, d, blockSize);
  }

  lemma OneBrief(t: Target, a: nat, c: nat, blockSize: nat)
    requires Valid(t, blockSize) && OnlyOpen(t, a) && t.currentTransfer == c < MAX_TRANSFERS && a != c && blockSize < TWO_32
    ensures var t1 := Execute(t, BriefWrite(blockSize), blockSize);
            && Valid(t1, blockSize)
            && var t2 := Execute(t1, BriefData(c, blockSize), blockSize);
            && Valid(t2, blockSize) && OnlyOpen(t2, a) && t2.currentTransfer == c + 1
            && (a < MAX_TRANSFERS ==> t2.transfers[a] == t.transfers[a])
  {
    hide Execute, BriefWrite, BriefData;
    BriefBegins(t, c, blockSize);
    BriefEnds(Execute(t, BriefWrite(blockSize), blockSize), c, blockSize);
  }

  lemma {:induction false} ManyBriefs(t: Target, a: nat, c: nat, n: nat, blockSize: nat)
    requires Valid(t, blockSize) && OnlyOpen(t, a) && a < c == t.currentTransfer && c + n <= MAX_TRANSFERS
    requires forall r | r in Brief(c, n, blockSize) :: WellFormedRequest(r, blockSize)
    ensures var t' := IscsiReplies.ExecuteAll(t, Brief(c, n, blockSize), blockSize);
            Valid(t', blockSize) && OnlyOpen(t', a) && t'.currentTransfer == c + n && t'.transfers[a] == t.transfers[a]
    decreases n
  {
    hide Execute, OnlyOpen, WellFormedRequest;
    if n > 0 {
      BriefStep(t, c, n, blockSize);
      OneBrief(t, a, c, blockSize);
      hide IscsiReplies.ExecuteAll, Brief, BriefWrite, BriefData, Valid;
      ManyBriefs(Execute(Execute(t, BriefWrite(blockSize), blockSize), BriefData(c, blockSize), blockSize), a, c + 1, n - 1, blockSize);
    }
  }

  lemma BriefFits(c: nat, blockSize: nat)
    ensures WellFormedRequest(BriefData(c, blockSize), blockSize) ==> blockSize < TWO_32
  {
  }

  lemma BriefStep(t: Target, c: nat, n: nat, blockSize: nat)
    requires Valid(t, blockSize) && 0 < n && c < MAX_TRANSFERS
    requires forall r | r in Brief(c, n, blockSize) :: WellFormedRequest(r, blockSize)
    ensures WellFormedRequest(BriefWrite(blockSize), blockSize) && WellFormedRequest(BriefData(c, blockSize), blockSize)
    ensures blockSize < TWO_32
    ensures forall r | r in Brief(c + 1, n - 1, blockSize) :: WellFormedRequest(r, blockSize)
    ensures var t1 := Execute(t, BriefWrite(blockSize), blockSize);
            && Valid(t1, blockSize)
            && var t2 := Execute(t1, BriefData(c, blockSize), blockSize);
            && Valid(t2, blockSize)
            && IscsiReplies.ExecuteAll(t, Brief(c, n, blockSize), blockSize)
               == IscsiReplies.ExecuteAll(t2, Brief(c + 1, n - 1, blockSize), blockSize)
  {
    hide Execute, WellFormedRequest, BriefWrite, BriefData;
    var w, d, rest := BriefWrite(blockSize), BriefData(c, blockSize), Brief(c + 1, n - 1, blockSize);
    var all := Brief(c, n, blockSize);
    assert all == [w, d] + rest && all[0] == w;
    assert all[1..] == [d] + rest && all[1..][0] == d && all[1..][1..] == rest;
    assert w in all && d in all;
    BriefFits(c, blockSize);
    IscsiReplies.ExecuteValid(t, w, blockSize);
    var t1 := Execute(t, w, blockSize);
    IscsiReplies.ExecuteValid(t1, d, blockSize);
    assert IscsiReplies.ExecuteAll(t, all, blockSize) == IscsiReplies.ExecuteAll(t1, all[1..], blockSize);
  }

  /** The one call of the disk handler that the piece causes (`Effect`) is for the place it has in the transfer
      at `lba`. */
  ghost predicate WrittenAt(t: Target, piece: Request, lba: nat, blockSize: nat)
    requires Valid(t, blockSize) && piece.DataOut?
  {
    Writes(t, piece, blockSize) == [DiskWrite(Place(lba, piece.offset, blockSize), piece.data, BlocksIn(|piece.data|, blockSize))]
  }

  lemma SlotWritesAt(t: Target, piece: Request, lba: nat, blockSize: nat)
    requires Valid(t, blockSize) && piece.DataOut? && piece.slot < MAX_TRANSFERS && t.transfers[piece.slot].offset == lba
    ensures WrittenAt(t, piece, lba, blockSize)
  {
  }

  /** A piece sent for a transfer at `lba`, after `b` is accepted, is written to the place it has in `b`, which is
      another one. */
  ghost predicate GoesAstray(t: Target, b: Request, piece: Request, lba: nat, blockSize: nat)
    requires Valid(t, blockSize) && WellFormedRequest(b, blockSize) && b.Write10? && piece.DataOut?
  {
    && WrittenAt(IscsiReplies.Accepted(t, b, blockSize), piece, b.lba, blockSize)
    && Place(b.lba, piece.offset, blockSize) != Place(lba, piece.offset, blockSize)
  }

  lemma PlacesDiffer(a: nat, b: nat, offset: nat, blockSize: nat)
    requires blockSize > 0 && a != b
    ensures Place(a, offset, blockSize) != Place(b, offset, blockSize)
  {
    ProductsEqual(a + offset / blockSize, b + offset / blockSize, blockSize);
  }

  lemma TakenSlotGoesAstray(t: Target, b: Request, piece: Request, lba: nat, blockSize: nat)
    requires Valid(t, blockSize) && WellFormedRequest(b, blockSize) && Starts(b) && piece.DataOut?
    requires t.currentTransfer % MAX_TRANSFERS == piece.slot && b.lba != lba
    ensures GoesAstray(t, b, piece, lba, blockSize)
  {
    hide Execute, Answers, Wrap, WellFormedRequest, WrittenAt, Place, BlocksIn;
    Effect(t, b, blockSize);
    SlotWritesAt(IscsiReplies.Accepted(t, b, blockSize), piece, b.lba, blockSize);
    PlacesDiffer(b.lba, lba, piece.offset, blockSize);
  }

  /** `rs[i]` begins a transfer that takes `slot`. */
  ghost predicate TakesSlot(t: Target, rs: seq<Request>, i: nat, slot: nat, blockSize: nat)
    requires Valid(t, blockSize) && i < |rs| && forall r | r in rs :: WellFormedRequest(r, blockSize)
  {
    Starts(rs[i]) && IscsiReplies.ExecuteAll(t, rs[..i], blockSize).currentTransfer % MAX_TRANSFERS == slot
  }

  lemma TakesSlotLater(t: Target, rs: seq<Request>, i: nat, slot: nat, blockSize: nat)
    requires Valid(t, blockSize) && 0 < i < |rs| && forall r | r in rs :: WellFormedRequest(r, blockSize)
    ensures TakesSlot(t, rs, i, slot, blockSize) <==> TakesSlot(IscsiReplies.Accepted(t, rs[0], blockSize), rs[1..], i - 1, slot, blockSize)
  {
    hide Execute, WellFormedRequest, Starts;
    assert rs[..i][0] == rs[0] && rs[..i][1..] == rs[1..][..i - 1];
  }

  /** Of any run: some command takes the slot of the transfer that was number `start`, `age` starts ago, exactly
      when the run brings the starts since then to more than 128. */
  lemma {:induction false} SlotTakenInRunIff(t: Target, rs: seq<Request>, start: nat, age: nat, blockSize: nat)
    requires Valid(t, blockSize) && forall r | r in rs :: WellFormedRequest(r, blockSize)
    requires t.currentTransfer == Wrap(start + age) && 0 < age <= MAX_TRANSFERS
    ensures (exists i :: 0 <= i < |rs| && TakesSlot(t, rs, i, start % MAX_TRANSFERS, blockSize))
            <==> age + Begun(rs) > MAX_TRANSFERS
    decreases |rs|
  {
    hide Execute, WellFormedRequest, Starts, Wrap, Valid;
    if rs != [] {
      var slot := start % MAX_TRANSFERS;
      assert rs[..0] == [] && rs[0] in rs;
      SlotRetakenIff(start, age);
      if Starts(rs[0]) && age == MAX_TRANSFERS {
        assert TakesSlot(t, rs, 0, slot, blockSize);
      } else {
        assert !TakesSlot(t, rs, 0, slot, blockSize);
        var t1, age1 := IscsiReplies.Accepted(t, rs[0], blockSize), if Starts(rs[0]) then age + 1 else age;
        Effect(t, rs[0], blockSize);
        IscsiReplies.WrapNext(start + age);
        SlotTakenInRunIff(t1, rs[1..], start, age1, blockSize);
        forall i | 0 < i < |rs|
          ensures TakesSlot(t, rs, i, slot, blockSize) <==> TakesSlot(t1, rs[1..], i - 1, slot, blockSize)
        {
          TakesSlotLater(t, rs, i, slot, blockSize);
        }
        assert forall j | 0 <= j < |rs[1..]| :: TakesSlot(t1, rs[1..], j, slot, blockSize) ==> TakesSlot(t, rs, j + 1, slot, blockSize);
      }
    }
  }

  /** And then data of the old transfer do not reach its blocks, unless both writes are for the same ones. */
  lemma ClashInRun(t: Target, rs: seq<Request>, start: nat, age: nat, piece: Request, lba: nat, blockSize: nat) returns (i: nat)
    requires Valid(t, blockSize) && forall r | r in rs :: WellFormedRequest(r, blockSize)
    requires t.currentTransfer == Wrap(start + age) && 0 < age <= MAX_TRANSFERS < age + Begun(rs)
    requires piece.DataOut? && piece.slot == start % MAX_TRANSFERS
    requires forall r | r in rs && Starts(r) :: r.lba != lba
    ensures i < |rs| && Starts(rs[i])
    ensures GoesAstray(IscsiReplies.ExecuteAll(t, rs[..i], blockSize), rs[i], piece, lba, blockSize)
  {
    hide Execute, WellFormedRequest, Wrap, Valid, GoesAstray, IscsiReplies.ExecuteAll;
    SlotTakenInRunIff(t, rs, start, age, blockSize);
    i :| 0 <= i < |rs| && TakesSlot(t, rs, i, start % MAX_TRANSFERS, blockSize);
    TakenSlotGoesAstray(IscsiReplies.ExecuteAll(t, rs[..i], blockSize), rs[i], piece, lba, blockSize);
  }

  /** Two open transfers can clash: `a` stays open while 127 one-block writes begin and complete one after
      the other; then `b` takes the slot of `a`, and the next data of `a` are written to the blocks of `b`. */
  lemma TwoOpenTransfersClash(t0: Target, a: Request, b: Request, piece: Request, n: nat, blockSize: nat)
    requires Valid(t0, blockSize) && OnlyOpen(t0, 0) && t0.currentTransfer == 1 && n < MAX_TRANSFERS
    requires Starts(a) && Starts(b) && WellFormedRequest(b, blockSize) && a.lba != b.lba
    requires t0.transfers[0] == Transfer(a.lba, a.blocks, BlocksIn(|a.data|, blockSize))
    requires piece.DataOut? && piece.slot == 0
    requires forall r | r in Brief(1, n, blockSize) :: WellFormedRequest(r, blockSize)
    ensures var t := IscsiReplies.ExecuteAll(t0, Brief(1, n, blockSize), blockSize);
            && OnlyOpen(t, 0) && |t.transfers| == MAX_TRANSFERS && t.transfers[0] == t0.transfers[0]
            && (n == 127 ==> GoesAstray(t, b, piece, a.lba, blockSize))
  {
    hide Execute, IscsiReplies.ExecuteAll, Brief, OnlyOpen, WellFormedRequest, GoesAstray;
    ManyBriefs(t0, 0, 1, n, blockSize);
    var t := IscsiReplies.ExecuteAll(t0, Brief(1, n, blockSize), blockSize);
    if n == 127 {
      TakenSlotGoesAstray(t, b, piece, a.lba, blockSize);
    }
  }

  /** The first write of a new connection is in the state the clash starts from. */
  lemma FirstWrite(maxRecv: nat, a: Request, blockSize: nat)
    requires 0 < blockSize && maxRecv < TWO_32 && WellFormedRequest(a, blockSize) && Starts(a)
    ensures var t0 := Execute(IscsiReplies.NewConnection(maxRecv), a, blockSize);
            && Valid(t0, blockSize) && OnlyOpen(t0, 0) && t0.currentTransfer == 1
            && t0.transfers[0] == Transfer(a.lba, a.blocks, BlocksIn(|a.data|, blockSize))
  {
    hide Execute, Answers;
    Effect(IscsiReplies.NewConnection(maxRecv), a, blockSize);
    IscsiReplies.ExecuteValid(IscsiReplies.NewConnection(maxRecv), a, blockSize);
  }
}
