/** The Data-In sequence that answers one READ(10): how the blocks are divided, what each header says,
    and when the Buffer Offset fields are right. */
module IscsiReads {
  import opened Bytes
  import opened IscsiPdu
  import opened IscsiTarget

  /** How many blocks each PDU carries when none may carry more than `max`. */
  function Plan(count: nat, max: nat): seq<nat>
    requires 0 < max
    decreases count
  {
    if count == 0 then []
    else if count > max then [max] + Plan(count - max, max)
    else [count]
  }

  function Sum(s: seq<nat>): nat {
    if s == [] then 0 else s[0] + Sum(s[1..])
  }

  /** Every PDU but the last is full, none is empty or too large, and together they carry everything. */
  lemma {:induction false} PlanFacts(count: nat, max: nat)
    requires 0 < max
    ensures var plan := Plan(count, max);
            && Sum(plan) == count
            && (forall k | 0 <= k < |plan| :: 0 < plan[k] <= max && (k + 1 < |plan| ==> plan[k] == max))
            && (count > max ==> |plan| >= 2)
            && (count > 0 ==> |plan| >= 1)
    decreases count
  {
    if count > max {
      PlanFacts(count - max, max);
      var rest := Plan(count - max, max);
      assert Plan(count, max)[1..] == rest;
      assert forall k | 0 < k < |Plan(count, max)| :: Plan(count, max)[k] == rest[k - 1];
    } else if count > 0 {
      assert Sum([count]) == count + Sum([count][1..]);
    }
  }

  lemma {:induction false} FullPrefix(plan: seq<nat>, max: nat, k: nat)
    requires k <= |plan| && forall i | 0 <= i < k :: plan[i] == max
    ensures Sum(plan[..k]) == k * max
    decreases k
  {
    if k > 0 {
      assert plan[..k][1..] == plan[1..][..k - 1];
      FullPrefix(plan[1..], max, k - 1);
    }
  }

  /** The `k`-th PDU of the sequence whose first element in `out` is at `base`. */
  ghost predicate DataInAt(out: seq<Out>, base: nat, k: nat, plan: seq<nat>, writes: seq<DiskWrite>,
                           tag: seq<byte>, itr: nat, offset: nat, maxRecv: nat, blockSize: nat)
    requires k < |plan| && base + 2 * k + 1 < |out|
  {
    && HeaderIs(out[base + 2 * k], k + 1 == |plan|, itr + k, plan[k] * blockSize, tag, maxRecv)
    && out[base + 2 * k + 1] == Block(DiskBytes(writes, (offset + Sum(plan[..k])) * blockSize, plan[k] * blockSize))
  }

  /** All PDUs of a plan. */
  ghost predicate DataInSequence(out: seq<Out>, base: nat, plan: seq<nat>, writes: seq<DiskWrite>,
                                 tag: seq<byte>, itr: nat, offset: nat, maxRecv: nat, blockSize: nat) {
    && base + 2 * |plan| <= |out|
    && forall k | 0 <= k < |plan| :: DataInAt(out, base, k, plan, writes, tag, itr, offset, maxRecv, blockSize)
  }

  /** DataSN, Buffer Offset, the final and status bits, and the announced data length. */
  ghost predicate HeaderIs(o: Out, last: bool, dataSN: nat, size: nat, tag: seq<byte>, maxRecv: nat) {
    && o.Reply? && o.data == [] && o.size == size && ValidHeader(o.h)
    && o.h.cmd == DATA_IN && o.h.taskTag == tag
    && o.h.finished == o.h.status == last
    && !o.h.overflow && !o.h.underflow
    && o.h.word4 == Wrap(dataSN)
    && o.h.word5 == Wrap(dataSN * maxRecv)
  }

  /** Counters and tag fit their fields. */
  predicate FitsFields(t: Target, tag: seq<byte>) {
    |tag| == 4 && t.sn < TWO_32 && t.cmdSN < TWO_32
  }

  lemma OneDataIn(t: Target, tag: seq<byte>, expected: nat, itr: nat, offset: nat, current: nat, last: bool, blockSize: nat)
    requires current * blockSize < TWO_32 && FitsFields(t, tag)
    ensures var t' := SendDataIn(t, tag, expected, itr, offset, current, last, blockSize);
            && |t'.out| == |t.out| + 2 && t.out <= t'.out
            && t'.writes == t.writes && t'.maxRecv == t.maxRecv && FitsFields(t', tag)
            && HeaderIs(t'.out[|t.out|], last, itr, current * blockSize, tag, t.maxRecv)
            && t'.out[|t.out| + 1] == Block(DiskBytes(t.writes, offset * blockSize, current * blockSize))
  {
    hide DiskBytes, Residual;
  }

  lemma FitsLimit(current: nat, maxRecv: nat, blockSize: nat)
    requires 0 < blockSize && current <= maxRecv / blockSize
    ensures current * blockSize <= maxRecv
  {
    var max := maxRecv / blockSize;
    assert max * blockSize <= maxRecv;
    assert current * blockSize <= max * blockSize;
  }

  /** One round of the split: the PDU it emits and what is left of the plan. */
  lemma SplitRound(t: Target, tag: seq<byte>, expected: nat, itr: nat, offset: nat, count: nat, current: nat, blockSize: nat)
    requires 0 < blockSize <= t.maxRecv < TWO_32 && 0 < t.maxRecv / blockSize
    requires 0 < count && current == if count > t.maxRecv / blockSize then t.maxRecv / blockSize else count
    ensures var t1 := SendDataIn(t, tag, expected, itr, offset, current, current == count, blockSize);
            && t1.maxRecv == t.maxRecv
            && SplitRead(t, tag, expected, itr, offset, count, blockSize)
               == SplitRead(t1, tag, expected, itr + 1, offset + current, count - current, blockSize)
    ensures var rest := Plan(count - current, t.maxRecv / blockSize);
            Plan(count, t.maxRecv / blockSize) == [current] + rest && (rest == [] <==> current == count)
  {
    hide DiskBytes, Residual;
  }

  lemma {:induction false} SplitShape(t: Target, tag: seq<byte>, expected: nat, itr: nat, offset: nat, count: nat, blockSize: nat)
    requires 0 < blockSize <= t.maxRecv < TWO_32 && FitsFields(t, tag)
    ensures 0 < t.maxRecv / blockSize
    ensures var t' := SplitRead(t, tag, expected, itr, offset, count, blockSize);
            var plan := Plan(count, t.maxRecv / blockSize);
            && |t'.out| == |t.out| + 2 * |plan| && t.out <= t'.out && t'.writes == t.writes
            && DataInSequence(t'.out, |t.out|, plan, t.writes, tag, itr, offset, t.maxRecv, blockSize)
    decreases count
  {
    hide DiskBytes, SendDataIn, HeaderIs, FitsFields;
    var max := t.maxRecv / blockSize;
    assert 0 < max;
    if count > 0 {
      hide SplitRead, Plan, DataInSequence, DataInAt;
      var current := if count > max then max else count;
      FitsLimit(current, t.maxRecv, blockSize);
      OneDataIn(t, tag, expected, itr, offset, current, current == count, blockSize);
      SplitRound(t, tag, expected, itr, offset, count, current, blockSize);
      var t1 := SendDataIn(t, tag, expected, itr, offset, current, current == count, blockSize);
      SplitShape(t1, tag, expected, itr + 1, offset + current, count - current, blockSize);
      var t' := SplitRead(t, tag, expected, itr, offset, count, blockSize);
      assert t'.out[|t.out|] == t1.out[|t.out|] && t'.out[|t.out| + 1] == t1.out[|t.out| + 1];
      Prepend(t'.out, |t.out|, current, Plan(count - current, max), t.writes, tag, itr, offset, t.maxRecv, blockSize);
    }
  }

  /** A first PDU in front of the sequence of the remaining ones. */
  lemma Prepend(out: seq<Out>, base: nat, first: nat, rest: seq<nat>, writes: seq<DiskWrite>,
                tag: seq<byte>, itr: nat, offset: nat, maxRecv: nat, blockSize: nat)
    requires DataInSequence(out, base + 2, rest, writes, tag, itr + 1, offset + first, maxRecv, blockSize)
    requires base + 1 < |out| && HeaderIs(out[base], rest == [], itr, first * blockSize, tag, maxRecv)
    requires out[base + 1] == Block(DiskBytes(writes, offset * blockSize, first * blockSize))
    ensures DataInSequence(out, base, [first] + rest, writes, tag, itr, offset, maxRecv, blockSize)
  {
    hide DiskBytes, HeaderIs;
    forall k | 0 <= k < |[first] + rest|
      ensures DataInAt(out, base, k, [first] + rest, writes, tag, itr, offset, maxRecv, blockSize)
    {
      if k == 0 {
        assert ([first] + rest)[..0] == [] && Sum([]) == 0;
      } else {
        LaterPdu(out, base, k, first, rest, writes, tag, itr, offset, maxRecv, blockSize);
      }
    }
  }

  /** Renumbering: element `k` of a plan is element `k - 1` of its tail. */
  lemma LaterPdu(out: seq<Out>, base: nat, k: nat, first: nat, rest: seq<nat>, writes: seq<DiskWrite>,
                 tag: seq<byte>, itr: nat, offset: nat, maxRecv: nat, blockSize: nat)
    requires 0 < k <= |rest| && base + 2 * k + 1 < |out|
    requires DataInAt(out, base + 2, k - 1, rest, writes, tag, itr + 1, offset + first, maxRecv, blockSize)
    ensures DataInAt(out, base, k, [first] + rest, writes, tag, itr, offset, maxRecv, blockSize)
  {
    hide DiskBytes, HeaderIs;
    var plan := [first] + rest;
    assert plan[..k][1..] == rest[..k - 1];
    assert Sum(plan[..k]) == first + Sum(rest[..k - 1]);
    assert base + 2 + 2 * (k - 1) == base + 2 * k;
  }

  /** The plan the engine follows for a read of `blocks` blocks.  The comparison is in 32-bit arithmetic. */
  function ReadPlan(t: Target, blocks: nat, blockSize: nat): seq<nat>
    requires 0 < blockSize && ReadEnds(t, blocks, blockSize)
  {
    if Wrap(blocks * blockSize) > t.maxRecv then
      assert 0 < t.maxRecv / blockSize;
      Plan(blocks, t.maxRecv / blockSize)
    else [blocks]
  }

  /** The size of the read does not wrap around to one that seems to fit into a single PDU. */
  predicate ReadFits(t: Target, blocks: nat, blockSize: nat) {
    blocks * blockSize < TWO_32 || Wrap(blocks * blockSize) > t.maxRecv
  }

  /** READ(10): the reply is one header and one block per element of the plan, in order, with DataSN
      0, 1, 2, ..., only the last one final and carrying status, and each block read from where the
      previous ones ended. */
  lemma ReadShape(t: Target, r: Request, blockSize: nat)
    requires Valid(t, blockSize) && r.Read10? && |r.tag| == 4
    requires ReadFits(t, r.blocks, blockSize) && ReadEnds(t, r.blocks, blockSize)
    ensures var t' := DoRead10(t, r, blockSize);
            var plan := ReadPlan(t, r.blocks, blockSize);
            && |t'.out| == |t.out| + 2 * |plan| && t.out <= t'.out && t'.writes == t.writes
            && DataInSequence(t'.out, |t.out|, plan, t.writes, r.tag, 0, r.lba, t.maxRecv, blockSize)
  {
    hide DiskBytes, SendDataIn, SplitRead, HeaderIs;
    if Wrap(r.blocks * blockSize) > t.maxRecv {
      hide Wrap;
      SplitShape(t, r.tag, r.transferLength, 0, r.lba, r.blocks, blockSize);
    } else {
      OneDataIn(t, r.tag, r.transferLength, 0, r.lba, r.blocks, true, blockSize);
      assert [r.blocks][..0] == [];
    }
  }

  /** And only then: otherwise one header announces fewer bytes than the block that follows it has. */
  lemma TruncatedRead(t: Target, r: Request, blockSize: nat)
    requires Valid(t, blockSize) && r.Read10? && !ReadFits(t, r.blocks, blockSize)
    ensures var out := DoRead10(t, r, blockSize).out;
            && |out| == |t.out| + 2 && out[|t.out|].Reply? && out[|t.out| + 1].Block?
            && out[|t.out|].size < |out[|t.out| + 1].data|
  {
    hide DiskBytes, SplitRead, Residual;
    var size := r.blocks * blockSize;
    assert Wrap(size) < TWO_32 <= size;
  }

  lemma PlanSums(t: Target, blocks: nat, blockSize: nat)
    requires 0 < blockSize && ReadEnds(t, blocks, blockSize)
    ensures Sum(ReadPlan(t, blocks, blockSize)) == blocks
  {
    if Wrap(blocks * blockSize) > t.maxRecv {
      assert 0 < t.maxRecv / blockSize;
      PlanFacts(blocks, t.maxRecv / blockSize);
    } else {
      assert Sum([blocks]) == blocks + Sum([blocks][1..]);
    }
  }

  /** No PDU is larger than the initiator accepts, and all blocks are sent. */
  lemma PlanSound(t: Target, blocks: nat, blockSize: nat)
    requires 0 < blockSize && ReadFits(t, blocks, blockSize) && ReadEnds(t, blocks, blockSize)
    ensures var plan := ReadPlan(t, blocks, blockSize);
            && plan != [] && Sum(plan) == blocks
            && forall k | 0 <= k < |plan| :: plan[k] * blockSize <= t.maxRecv
  {
    PlanSums(t, blocks, blockSize);
    assert blocks == 0 ==> Wrap(blocks * blockSize) == 0;
    if Wrap(blocks * blockSize) > t.maxRecv {
      hide Wrap;
      var max := t.maxRecv / blockSize;
      assert 0 < max;
      PlanFacts(blocks, max);
      forall k | 0 <= k < |Plan(blocks, max)|
        ensures Plan(blocks, max)[k] * blockSize <= t.maxRecv
      {
        FitsLimit(Plan(blocks, max)[k], t.maxRecv, blockSize);
      }
    }
  }

  /** Blocks still to be sent after `k` rounds of the splitting loop. */
  function LeftAfter(count: nat, max: nat, k: nat): nat {
    if k == 0 then count
    else
      var left := LeftAfter(count, max, k - 1);
      if left > max then left - max else 0
  }

  /** The loop ends exactly when there is nothing to send, or a PDU may carry at least one block.  The original has
      no other guard, and its step is the smaller of what is left and `max`. */
  lemma ReadEndsIff(count: nat, max: nat)
    ensures (exists k: nat :: LeftAfter(count, max, k) == 0) <==> count == 0 || max > 0
  {
    if count == 0 {
      assert LeftAfter(count, max, 0) == 0;
    } else if max > 0 {
      RoundsShrink(count, max, count);
    } else {
      forall k: nat
        ensures LeftAfter(count, max, k) != 0
      {
        NoRoundHelps(count, k);
      }
    }
  }

  lemma {:induction false} RoundsShrink(count: nat, max: nat, k: nat)
    requires max > 0
    ensures LeftAfter(count, max, k) <= if k > count then 0 else count - k
    decreases k
  {
    if k > 0 {
      RoundsShrink(count, max, k - 1);
    }
  }

  lemma {:induction false} NoRoundHelps(count: nat, k: nat)
    ensures LeftAfter(count, 0, k) == count
    decreases k
  {
    if k > 0 {
      NoRoundHelps(count, k - 1);
    }
  }

  // ----- the concatenated payload

  function Payload(plan: seq<nat>, writes: seq<DiskWrite>, offset: nat, blockSize: nat): seq<byte> {
    if plan == [] then []
    else DiskBytes(writes, offset * blockSize, plan[0] * blockSize) + Payload(plan[1..], writes, offset + plan[0], blockSize)
  }

  /** The blocks put together are the contiguous range that was asked for. */
  lemma {:induction false} PayloadIsRange(plan: seq<nat>, writes: seq<DiskWrite>, offset: nat, blockSize: nat)
    ensures Payload(plan, writes, offset, blockSize) == DiskBytes(writes, offset * blockSize, Sum(plan) * blockSize)
    decreases |plan|
  {
    if plan != [] {
      PayloadIsRange(plan[1..], writes, offset + plan[0], blockSize);
      var here, rest := plan[0] * blockSize, Sum(plan[1..]) * blockSize;
      assert (offset + plan[0]) * blockSize == offset * blockSize + here;
      assert Sum(plan) * blockSize == here + rest;
      RangeSplits(writes, offset * blockSize, here, rest);
    }
  }

  lemma RangeSplits(writes: seq<DiskWrite>, from: nat, a: nat, b: nat)
    ensures DiskBytes(writes, from, a) + DiskBytes(writes, from + a, b) == DiskBytes(writes, from, a + b)
  {
    hide ReadBack;
  }

  // ----- Buffer Offset

  /** The 32-bit offset field of PDU `k` says how many bytes the earlier PDUs carried. */
  ghost predicate OffsetRight(t: Target, plan: seq<nat>, k: nat, blockSize: nat)
    requires k <= |plan|
  {
    Wrap(k * t.maxRecv) == Wrap(Sum(plan[..k]) * blockSize)
  }

  /** A split read has at least two PDUs, all but the last of them full. */
  lemma SplitPlan(t: Target, blocks: nat, blockSize: nat)
    requires 0 < blockSize <= t.maxRecv < Wrap(blocks * blockSize)
    ensures var max := t.maxRecv / blockSize;
            var plan := ReadPlan(t, blocks, blockSize);
            && |plan| >= 2 && Sum(plan) == blocks
            && forall k | 0 <= k < |plan| :: Sum(plan[..k]) == k * max
  {
    var max := t.maxRecv / blockSize;
    var plan := ReadPlan(t, blocks, blockSize);
    assert Wrap(blocks * blockSize) <= blocks * blockSize;
    hide Wrap;
    if blocks <= max {
      FitsLimit(blocks, t.maxRecv, blockSize);
    }
    assert 0 < max;
    PlanFacts(blocks, max);
    forall k | 0 <= k < |plan|
      ensures Sum(plan[..k]) == k * max
    {
      FullPrefix(plan, max, k);
    }
  }

  lemma SameProduct(k: nat, max: nat, blockSize: nat, maxRecv: nat)
    requires maxRecv == max * blockSize
    ensures k * maxRecv == k * max * blockSize
  {
  }

  /** The offset advances by the negotiated maximum, not by what was sent.  So the offsets of a split
      read are right exactly when the block size divides that maximum. */
  lemma OffsetsRightIff(t: Target, r: Request, blockSize: nat)
    requires Valid(t, blockSize) && r.Read10? && blockSize <= t.maxRecv < Wrap(r.blocks * blockSize)
    ensures var plan := ReadPlan(t, r.blocks, blockSize);
            (forall k | 0 <= k < |plan| :: OffsetRight(t, plan, k, blockSize)) <==> t.maxRecv % blockSize == 0
  {
    var max := t.maxRecv / blockSize;
    var plan := ReadPlan(t, r.blocks, blockSize);
    SplitPlan(t, r.blocks, blockSize);
    assert t.maxRecv == max * blockSize + t.maxRecv % blockSize;
    if t.maxRecv % blockSize == 0 {
      hide Wrap;
      forall k | 0 <= k < |plan|
        ensures OffsetRight(t, plan, k, blockSize)
      {
        SameProduct(k, max, blockSize, t.maxRecv);
      }
    } else {
      assert Sum(plan[..1]) == 1 * max;
      assert Wrap(1 * t.maxRecv) == t.maxRecv && Wrap(max * blockSize) == max * blockSize;
      assert !OffsetRight(t, plan, 1, blockSize);
    }
  }
}
