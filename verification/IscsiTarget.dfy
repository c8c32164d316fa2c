/** The command engine of the iSCSI target (`ISCSIBaseCommands`).  Requests are given by the fields the
    engine reads, replies by their headers and data; `IscsiPdu` ties those to bytes.  Key/value texts of
    login and text commands are computed elsewhere and enter as parameters. */
module IscsiTarget {
  import opened Bytes
  import opened IscsiPdu

  const QUEUE_SIZE: nat := 64
  const MAX_TRANSFERS: nat := 128
  const MAX_TARGET: nat := 1024 * 1024

  const SCSI_REPLY: nat := 0x21
  const LOGIN_REPLY: nat := 0x23
  const TEXT_REPLY: nat := 0x24
  const DATA_IN: nat := 0x25
  const LOGOUT_REPLY: nat := 0x26
  const READY: nat := 0x31

  /** 32-bit unsigned arithmetic. */
  function Wrap(n: int): (r: nat)
    ensures r < TWO_32
    ensures 0 <= n < TWO_32 ==> r == n
  {
    n % TWO_32
  }

  datatype Transfer = Transfer(offset: nat, length: nat, current: nat)

  /** A call of the disk handler: `data` for byte address `addr`, and the number of blocks it is told. */
  datatype DiskWrite = DiskWrite(addr: nat, data: seq<byte>, blocks: nat)

  /** What the engine hands to `AsyncWrite`. */
  datatype Out =
    | Reply(h: Header, size: nat, data: seq<byte>)
    | Block(data: seq<byte>)

  datatype Target = Target(
    sn: nat, cmdSN: nat,
    maxRecv: nat,
    currentTransfer: nat,
    transfers: seq<Transfer>,
    out: seq<Out>,
    writes: seq<DiskWrite>)

  datatype Request =
    | Login(tag: seq<byte>, final: bool, resumed: bool, maxRecv: nat, text: seq<byte>, size: nat)
    | Text(tag: seq<byte>, finished: bool, text: seq<byte>, size: nat)
    | Logout(tag: seq<byte>, finished: bool)
    | Inquire(tag: seq<byte>, transferLength: nat, cmd: nat, data: seq<byte>, size: nat)  // ready, sense, capacity, inquiry, LUNs, flush
    | Write10(tag: seq<byte>, write: bool, transferLength: nat, lba: nat, blocks: nat, data: seq<byte>)
    | DataOut(tag: seq<byte>, slot: nat, offset: nat, data: seq<byte>)
    | Read10(tag: seq<byte>, transferLength: nat, lba: nat, blocks: nat)
    | Unsupported

  // ----- the disk behind the handlers

  /** The last write that covers an address decides its content. */
  function ReadBack(writes: seq<DiskWrite>, a: nat): byte {
    if writes == [] then 0
    else
      var w := writes[|writes| - 1];
      if w.addr <= a < w.addr + |w.data| then w.data[a - w.addr]
      else ReadBack(writes[..|writes| - 1], a)
  }

  function DiskBytes(writes: seq<DiskWrite>, from: nat, size: nat): (r: seq<byte>)
    ensures |r| == size
  {
    seq<byte>(size, (i: nat) => ReadBack(writes, from + i))
  }

  // ----- one reply

  /** The three header words that differ between kinds of reply. */
  datatype Words = Words(word0: nat, word4: nat, word5: nat, word6: nat)

  const NO_WORDS := Words(0, 0, 0, 0)
  const NO_DATA: seq<byte> := [0, 0, 0, 0, 0, 0, 0, 0, 0, 0, 0, 0, 0, 0, 0, 0]

  /** Residual accounting: what is missing from, or does not fit into, the initiator's buffer. */
  function Residual(expected: nat, size: nat): nat {
    Wrap(if expected >= size then expected - size else size - expected)
  }

  /** `send_scsi_reply`. */
  function Send(t: Target, tag: seq<byte>, expected: nat, words: Words, data: seq<byte>, size: nat,
                cmd: nat, status: bool, flow: bool, finished: bool): Target {
    var over, under := flow && expected < size, flow && expected > size;
    var h := Header(cmd, finished, over, under, status && finished, tag,
                    words.word0, t.sn, t.cmdSN, Wrap(t.cmdSN + QUEUE_SIZE),
                    words.word4, words.word5, if over || under then Residual(expected, size) else words.word6);
    t.(out := t.out + [Reply(h, if over then expected else size, data)],
       sn := Wrap(t.sn + 1),
       cmdSN := Wrap(t.cmdSN + 1))
  }

  /** Login, text and logout build their headers themselves; only login keeps the command number. */
  function SendPlain(t: Target, tag: seq<byte>, finished: bool, cmd: nat, data: seq<byte>, size: nat, advance: bool): Target {
    var h := Header(cmd, finished, false, false, false, tag, 0, t.sn, t.cmdSN, Wrap(t.cmdSN + QUEUE_SIZE), 0, 0, 0);
    t.(out := t.out + [Reply(h, size, data)],
       sn := Wrap(t.sn + 1),
       cmdSN := if advance then Wrap(t.cmdSN + 1) else t.cmdSN)
  }

  // ----- WRITE(10) and Data-Out

  /** The number of R2Ts for `rem` outstanding bytes, with the precedence the source has. */
  function R2TCount(rem: nat): nat {
    if rem / MAX_TARGET + rem % MAX_TARGET != 0 then 1 else 0
  }

  function R2TWords(slot: nat, i: nat, count: nat, immediate: nat, rem: nat): Words {
    Words(slot, Wrap(i), Wrap(immediate + MAX_TARGET * i), if i + 1 == count then rem % MAX_TARGET else MAX_TARGET)
  }

  function SendR2Ts(t: Target, tag: seq<byte>, slot: nat, i: nat, count: nat, immediate: nat, rem: nat): Target
    requires i <= count
    decreases count - i
  {
    if i == count then t
    else
      SendR2Ts(Send(t, tag, 0, R2TWords(slot, i, count, immediate, rem), NO_DATA, 0, READY, false, false, true),
               tag, slot, i + 1, count, immediate, rem)
  }

  /** The disk address of byte `offset` of a transfer that starts at block `lba`, cut down to a block. */
  function Place(lba: nat, offset: nat, blockSize: nat): nat
    requires blockSize > 0
  {
    (lba + offset / blockSize) * blockSize
  }

  /** The number of whole blocks in `size` bytes, the size taken as a 32-bit number. */
  function BlocksIn(size: nat, blockSize: nat): nat
    requires blockSize > 0
  {
    Wrap(size) / blockSize
  }

  function Written(t: Target, addr: nat, data: seq<byte>, blocks: nat): Target {
    t.(writes := t.writes + [DiskWrite(addr, data, blocks)])
  }

  /** Does this command leave data to be solicited? */
  predicate Starts(r: Request) {
    r.Write10? && r.write && r.transferLength > |r.data|
  }

  function DoWrite10(t: Target, r: Request, blockSize: nat): Target
    requires r.Write10? && blockSize > 0 && |t.transfers| == MAX_TRANSFERS
  {
    var t' :=
      if Starts(r) then
        var rem := r.transferLength - |r.data|;
        var slot := t.currentTransfer % MAX_TRANSFERS;
        SendR2Ts(t.(currentTransfer := Wrap(t.currentTransfer + 1),
                    transfers := t.transfers[slot := Transfer(r.lba, r.blocks, BlocksIn(|r.data|, blockSize))]),
                 r.tag, slot, 0, R2TCount(rem), |r.data|, rem)
      else Send(t, r.tag, 0, NO_WORDS, NO_DATA, 0, SCSI_REPLY, false, false, true);
    Written(t', r.lba * blockSize, r.data, r.blocks)
  }

  /** A transfer tag outside the table is an error that the caller of the engine swallows. */
  function DoDataOut(t: Target, r: Request, blockSize: nat): Target
    requires r.DataOut? && blockSize > 0 && |t.transfers| == MAX_TRANSFERS
  {
    if r.slot >= MAX_TRANSFERS then t
    else
      var was := t.transfers[r.slot];
      var handle := was.(current := Wrap(was.current + BlocksIn(|r.data|, blockSize)));
      Finished(t.(transfers := t.transfers[r.slot := handle]), r, handle, blockSize)
  }

  /** The status goes out when the count is complete, and before the last data reach the disk. */
  function Finished(t: Target, r: Request, handle: Transfer, blockSize: nat): Target
    requires r.DataOut? && blockSize > 0
  {
    Written(if handle.current == handle.length
            then Send(t, r.tag, 0, NO_WORDS, NO_DATA, 0, SCSI_REPLY, false, false, true)
            else t,
            Place(handle.offset, r.offset, blockSize), r.data, BlocksIn(|r.data|, blockSize))
  }

  // ----- READ(10)

  /** One Data-In header and the block that follows it. */
  function SendDataIn(t: Target, tag: seq<byte>, expected: nat, itr: nat, offset: nat, current: nat, last: bool, blockSize: nat): Target {
    var t1 := Send(t, tag, expected, Words(0, Wrap(itr), Wrap(itr * t.maxRecv), 0), [], Wrap(current * blockSize), DATA_IN, true, false, last);
    t1.(out := t1.out + [Block(DiskBytes(t.writes, offset * blockSize, current * blockSize))])
  }

  /** With a maximum below one block the loop does not get on and there is no state after it; the function then
      stays where it is, and `Ends` tells. */
  function SplitRead(t: Target, tag: seq<byte>, expected: nat, itr: nat, offset: nat, count: nat, blockSize: nat): Target
    requires 0 < blockSize
    decreases count
  {
    var max := t.maxRecv / blockSize;
    if count == 0 || max == 0 then t
    else
      var current := if count > max then max else count;
      SplitRead(SendDataIn(t, tag, expected, itr, offset, current, current == count, blockSize),
                tag, expected, itr + 1, offset + current, count - current, blockSize)
  }

  function DoRead10(t: Target, r: Request, blockSize: nat): Target
    requires r.Read10? && 0 < blockSize
  {
    if Wrap(r.blocks * blockSize) > t.maxRecv then SplitRead(t, r.tag, r.transferLength, 0, r.lba, r.blocks, blockSize)
    else SendDataIn(t, r.tag, r.transferLength, 0, r.lba, r.blocks, true, blockSize)
  }

  /** A read that has to be split ends when a block fits the negotiated maximum. */
  predicate ReadEnds(t: Target, blocks: nat, blockSize: nat) {
    Wrap(blocks * blockSize) > t.maxRecv ==> blockSize <= t.maxRecv
  }

  predicate Ends(t: Target, r: Request, blockSize: nat) {
    r.Read10? ==> ReadEnds(t, r.blocks, blockSize)
  }

  // ----- the engine

  /** The block size is the disk's. */
  ghost predicate Valid(t: Target, blockSize: nat) {
    && 0 < blockSize && t.maxRecv < TWO_32
    && |t.transfers| == MAX_TRANSFERS
    && t.sn < TWO_32 && t.cmdSN < TWO_32 && t.currentTransfer < TWO_32
  }

  /** Field widths of the wire format. */
  ghost predicate WellFormedRequest(r: Request, blockSize: nat) {
    match r
    case Login(tag, _, _, maxRecv, _, size) => |tag| == 4 && maxRecv < TWO_32
    case Text(tag, _, _, size) => |tag| == 4
    case Logout(tag, _) => |tag| == 4
    case Inquire(tag, expected, cmd, _, size) => |tag| == 4 && expected < TWO_32 && cmd < 64
    case Write10(tag, _, expected, lba, blocks, data) =>
      |tag| == 4 && expected < TWO_32 && lba < TWO_32 && blocks < 0x1_0000 && |data| < TWO_32
    case DataOut(tag, slot, offset, data) => |tag| == 4 && slot < TWO_32 && offset < TWO_32 && |data| < TWO_32
    case Read10(tag, expected, lba, blocks) => |tag| == 4 && expected < TWO_32 && lba < TWO_32 && blocks < 0x1_0000
    case Unsupported => true
  }

  function Execute(t: Target, r: Request, blockSize: nat): Target
    requires |t.transfers| == MAX_TRANSFERS && 0 < blockSize
  {
    match r
    case Login(tag, final, resumed, maxRecv, text, size) =>
      if resumed then t else SendPlain(t.(maxRecv := maxRecv), tag, true, LOGIN_REPLY, text, size, final)
    case Text(tag, finished, text, size) => SendPlain(t, tag, finished, TEXT_REPLY, text, size, true)
    case Logout(tag, finished) => SendPlain(t, tag, finished, LOGOUT_REPLY, [], 0, true)
    case Inquire(tag, expected, cmd, data, size) =>
      Send(t, tag, expected, NO_WORDS, data, size, cmd, cmd == DATA_IN, true, true)
    case Write10(_, _, _, _, _, _) => DoWrite10(t, r, blockSize)
    case DataOut(_, _, _, _) => DoDataOut(t, r, blockSize)
    case Read10(_, _, _, _) => DoRead10(t, r, blockSize)
    case Unsupported => t
  }

  // ----- the engine as the object it is

  class ISCSIConnection {
    const blockSize: nat
    const transfers: array<Transfer>
    var sn: nat
    var cmdSN: nat
    var maxRecv: nat
    var currentTransfer: nat
    /** What went to `AsyncWrite` and to the disk, in order. */
    var out: seq<Out>
    var writes: seq<DiskWrite>

    ghost function View(): Target
      reads this, transfers
    {
      Target(sn, cmdSN, maxRecv, currentTransfer, transfers[..], out, writes)
    }

    ghost predicate Ok()
      reads this, transfers
    {
      Valid(View(), blockSize)
    }

    constructor (blockSize: nat, maxRecv: nat)
      requires 0 < blockSize && maxRecv < TWO_32
      ensures Ok() && this.blockSize == blockSize && fresh(transfers)
      ensures sn == 0 && cmdSN == 1 && currentTransfer == 0 && out == [] && writes == []
    {
      this.blockSize, this.maxRecv := blockSize, maxRecv;
      transfers := new Transfer[128](_ => Transfer(0, 0, 0));
      sn, cmdSN, currentTransfer, out, writes := 0, 1, 0, [], [];
    }

    /** `send_scsi_reply`. */
    method SendScsiReply(tag: seq<byte>, expected: nat, words: Words, data: seq<byte>, size: nat,
                         cmd: nat, status: bool, flow: bool, finished: bool)
      modifies `sn, `cmdSN, `out
      ensures View() == Send(old(View()), tag, expected, words, data, size, cmd, status, flow, finished)
    {
      var h := Header(cmd, finished, false, false, status && finished, tag, words.word0, 0, 0, 0, words.word4, words.word5, words.word6);
      var sz := size;
      if flow {
        if expected > size {
          h := h.(underflow := true, word6 := Wrap(expected - size));
        } else if expected < size {
          h := h.(overflow := true, word6 := Wrap(size - expected));
          sz := expected;
        }
      }
      h := h.(statSN := sn, expCmdSN := cmdSN, maxCmdSN := Wrap(cmdSN + QUEUE_SIZE));
      sn, cmdSN := Wrap(sn + 1), Wrap(cmdSN + 1);
      out := out + [Reply(h, sz, data)];
    }

    /** The disk handler's `on_write`. */
    method OnWrite(sector: nat, blocks: nat, data: seq<byte>)
      modifies `writes
      ensures View() == Written(old(View()), sector * blockSize, data, blocks)
    {
      writes := writes + [DiskWrite(sector * blockSize, data, blocks)];
    }

    method Write10(r: Request)
      requires Ok() && r.Write10?
      modifies this, transfers
      ensures View() == DoWrite10(old(View()), r, blockSize)
    {
      hide Send, Wrap;
      if r.write && r.transferLength > |r.data| {
        var rem := r.transferLength - |r.data|;
        var count := R2TCount(rem);
        var slot := currentTransfer % MAX_TRANSFERS;
        currentTransfer := Wrap(currentTransfer + 1);
        transfers[slot] := Transfer(r.lba, r.blocks, BlocksIn(|r.data|, blockSize));
        ghost var t := View();
        for i := 0 to count
          invariant transfers[..] == t.transfers
          invariant SendR2Ts(View(), r.tag, slot, i, count, |r.data|, rem) == SendR2Ts(t, r.tag, slot, 0, count, |r.data|, rem)
        {
          SendScsiReply(r.tag, 0, R2TWords(slot, i, count, |r.data|, rem), NO_DATA, 0, READY, false, false, true);
        }
      } else {
        SendScsiReply(r.tag, 0, NO_WORDS, NO_DATA, 0, SCSI_REPLY, false, false, true);
      }
      OnWrite(r.lba, r.blocks, r.data);
    }

    /** The part of the Data-Out branch after the count is updated. */
    method Account(r: Request, handle: Transfer)
      requires Ok() && r.DataOut?
      modifies `sn, `cmdSN, `out, `writes
      ensures View() == Finished(old(View()), r, handle, blockSize)
    {
      hide Send, Wrap;
      if handle.current == handle.length {
        SendScsiReply(r.tag, 0, NO_WORDS, NO_DATA, 0, SCSI_REPLY, false, false, true);
      }
      OnWrite(handle.offset + r.offset / blockSize, BlocksIn(|r.data|, blockSize), r.data);
    }

    method DataOut(r: Request) returns (accepted: bool)
      requires Ok() && r.DataOut?
      modifies this, transfers
      ensures View() == DoDataOut(old(View()), r, blockSize)
      ensures accepted == (r.slot < MAX_TRANSFERS)
    {
      hide Finished, Wrap;
      if r.slot >= MAX_TRANSFERS {
        return false;
      }
      var handle := transfers[r.slot];
      handle := handle.(current := Wrap(handle.current + BlocksIn(|r.data|, blockSize)));
      transfers[r.slot] := handle;
      assert transfers[..] == old(transfers[..])[r.slot := handle];
      assert View() == old(View()).(transfers := old(transfers[..])[r.slot := handle]);
      Account(r, handle);
      accepted := true;
    }

    /** One Data-In header, then the block from the disk handler's callback. */
    method DataIn(tag: seq<byte>, expected: nat, itr: nat, offset: nat, current: nat, last: bool)
      modifies `sn, `cmdSN, `out
      ensures View() == SendDataIn(old(View()), tag, expected, itr, offset, current, last, blockSize)
    {
      SendScsiReply(tag, expected, Words(0, Wrap(itr), Wrap(itr * maxRecv), 0), [], Wrap(current * blockSize), DATA_IN, true, false, last);
      out := out + [Block(DiskBytes(writes, offset * blockSize, current * blockSize))];
    }

    method Read10(r: Request)
      requires Ok() && r.Read10? && Ends(View(), r, blockSize)
      modifies `sn, `cmdSN, `out
      ensures View() == DoRead10(old(View()), r, blockSize)
    {
      hide Send, Wrap, SendDataIn;
      var count: nat, offset: nat := r.blocks, r.lba;
      if Wrap(count * blockSize) > maxRecv {
        var max := maxRecv / blockSize;
        var itr := 0;
        while count > 0
          invariant SplitRead(View(), r.tag, r.transferLength, itr, offset, count, blockSize)
                    == SplitRead(old(View()), r.tag, r.transferLength, 0, r.lba, r.blocks, blockSize)
          decreases count
        {
          var current := count;
          if current > max {
            current := max;
          }
          DataIn(r.tag, r.transferLength, itr, offset, current, current == count);
          itr, offset, count := itr + 1, offset + current, count - current;
        }
      } else {
        DataIn(r.tag, r.transferLength, 0, offset, count, true);
      }
    }

    /** Login, text and logout replies. */
    method SendLoginReply(tag: seq<byte>, finished: bool, cmd: nat, data: seq<byte>, size: nat, advance: bool)
      modifies `sn, `cmdSN, `out
      ensures View() == SendPlain(old(View()), tag, finished, cmd, data, size, advance)
    {
      out := out + [Reply(Header(cmd, finished, false, false, false, tag, 0, sn, cmdSN, Wrap(cmdSN + QUEUE_SIZE), 0, 0, 0), size, data)];
      sn := Wrap(sn + 1);
      if advance {
        cmdSN := Wrap(cmdSN + 1);
      }
    }

    /** `ISCSIBaseCommands`.  A command it does not know is rejected, and the rejection is never sent. */
    method Command(r: Request) returns (ok: bool)
      requires Ok() && Ends(View(), r, blockSize)
      modifies this, transfers
      ensures View() == Execute(old(View()), r, blockSize)
      ensures ok == !(r.Unsupported? || (r.DataOut? && r.slot >= MAX_TRANSFERS))
    {
      hide Send, SendPlain, DoWrite10, DoDataOut, DoRead10;
      ok := true;
      match r {
        case Login(tag, final, resumed, newMaxRecv, text, size) =>
          if !resumed {
            maxRecv := newMaxRecv;
            SendLoginReply(tag, true, LOGIN_REPLY, text, size, final);
          }
        case Text(tag, finished, text, size) => SendLoginReply(tag, finished, TEXT_REPLY, text, size, true);
        case Logout(tag, finished) => SendLoginReply(tag, finished, LOGOUT_REPLY, [], 0, true);
        case Inquire(tag, expected, cmd, data, size) =>
          SendScsiReply(tag, expected, NO_WORDS, data, size, cmd, cmd == DATA_IN, true, true);
        case Write10(_, _, _, _, _, _) => Write10(r);
        case DataOut(_, _, _, _) => ok := DataOut(r);
        case Read10(_, _, _, _) => Read10(r);
        case Unsupported => ok := false;
      }
    }
  }
}
