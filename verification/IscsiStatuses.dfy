/** When the final status of a solicited write goes out, for Data-Outs of any sizes at any offsets among other commands:
    the target counts whole blocks per PDU and does not look where they go. */
module IscsiStatuses {
  import opened Bytes
  import opened IscsiTarget
  import opened IscsiTransfers
  import IscsiReplies

  /** Data-Outs of one task. */
  ghost predicate AllPieces(rs: seq<Request>, slot: nat, tag: seq<byte>, blockSize: nat) {
    forall r | r in rs :: r.DataOut? && r.slot == slot && r.tag == tag && WellFormedRequest(r, blockSize)
  }

  function TotalBytes(rs: seq<Request>): nat {
    if rs == [] then 0 else (if rs[0].DataOut? then |rs[0].data| else 0) + TotalBytes(rs[1..])
  }

  function Counted(r: Request, blockSize: nat): nat
    requires blockSize > 0
  {
    if r.DataOut? then BlocksIn(|r.data|, blockSize) else 0
  }

  function TotalCounted(rs: seq<Request>, blockSize: nat): nat
    requires blockSize > 0
  {
    if rs == [] then 0 else Counted(rs[0], blockSize) + TotalCounted(rs[1..], blockSize)
  }

  ghost predicate Whole(r: Request, blockSize: nat)
    requires blockSize > 0
  {
    r.DataOut? ==> |r.data| % blockSize == 0
  }

  ghost predicate AllWhole(rs: seq<Request>, blockSize: nat)
    requires blockSize > 0
  {
    forall r | r in rs :: Whole(r, blockSize)
  }

  /** How often the count, starting from `current`, is found equal to `length`. */
  function Completions(current: nat, length: nat, rs: seq<Request>, blockSize: nat): nat
    requires blockSize > 0
    decreases |rs|
  {
    if rs == [] then 0
    else
      var now := current + Counted(rs[0], blockSize);
      (if now == length then 1 else 0) + Completions(now, length, rs[1..], blockSize)
  }

  lemma {:induction false} NeverReached(current: nat, length: nat, rs: seq<Request>, blockSize: nat)
    requires blockSize > 0 && current + TotalCounted(rs, blockSize) < length
    ensures Completions(current, length, rs, blockSize) == 0
    decreases |rs|
  {
    hide Counted;
    if rs != [] {
      NeverReached(current + Counted(rs[0], blockSize), length, rs[1..], blockSize);
    }
  }

  lemma {:induction false} StaysReached(length: nat, rs: seq<Request>, blockSize: nat)
    requires blockSize > 0 && TotalCounted(rs, blockSize) == 0
    ensures Completions(length, length, rs, blockSize) == |rs|
    ensures rs != [] ==> Counted(rs[|rs| - 1], blockSize) == 0
    decreases |rs|
  {
    hide Counted;
    if rs != [] {
      StaysReached(length, rs[1..], blockSize);
    }
  }

  lemma {:induction false} Reached(current: nat, length: nat, rs: seq<Request>, blockSize: nat)
    requires blockSize > 0 && current < length == current + TotalCounted(rs, blockSize)
    ensures rs != [] && 1 <= Completions(current, length, rs, blockSize)
    ensures Completions(current, length, rs, blockSize) == 1 <==> 0 < Counted(rs[|rs| - 1], blockSize)
    decreases |rs|
  {
    hide Counted;
    var now := current + Counted(rs[0], blockSize);
    if now == length {
      StaysReached(length, rs[1..], blockSize);
    } else {
      Reached(now, length, rs[1..], blockSize);
    }
  }

  lemma OneCounted(r: Request, blockSize: nat)
    requires blockSize > 0 && r.DataOut? && |r.data| < TWO_32
    ensures Counted(r, blockSize) * blockSize <= |r.data|
    ensures Counted(r, blockSize) * blockSize == |r.data| <==> Whole(r, blockSize)
  {
  }

  lemma {:induction false} CountedAtMost(rs: seq<Request>, slot: nat, tag: seq<byte>, blockSize: nat)
    requires blockSize > 0 && AllPieces(rs, slot, tag, blockSize)
    ensures TotalCounted(rs, blockSize) * blockSize <= TotalBytes(rs)
    ensures TotalCounted(rs, blockSize) * blockSize == TotalBytes(rs) <==> AllWhole(rs, blockSize)
    decreases |rs|
  {
    hide Counted, Whole;
    if rs != [] {
      OneCounted(rs[0], blockSize);
      CountedAtMost(rs[1..], slot, tag, blockSize);
      ProductOfSum(Counted(rs[0], blockSize), TotalCounted(rs[1..], blockSize), blockSize);
      assert AllWhole(rs, blockSize) <==> Whole(rs[0], blockSize) && AllWhole(rs[1..], blockSize) by {
        assert forall r :: r in rs <==> r == rs[0] || r in rs[1..];
      }
    }
  }

  // ----- among other commands

  predicate ForSlot(r: Request, slot: nat) {
    r.DataOut? && r.slot == slot
  }

  /** The Data-Outs for a slot, in order. */
  function Pieces(rs: seq<Request>, slot: nat): (ps: seq<Request>)
    ensures forall p | p in ps :: p.DataOut?
  {
    if rs == [] then [] else (if ForSlot(rs[0], slot) then [rs[0]] else []) + Pieces(rs[1..], slot)
  }

  /** The task's Data-Outs and commands of other tasks. */
  ghost predicate Traffic(rs: seq<Request>, slot: nat, tag: seq<byte>, blockSize: nat) {
    forall r | r in rs :: WellFormedRequest(r, blockSize) && if ForSlot(r, slot) then r.tag == tag else TagOf(r) != tag
  }

  lemma {:induction false} PiecesOfTraffic(rs: seq<Request>, slot: nat, tag: seq<byte>, blockSize: nat)
    requires Traffic(rs, slot, tag, blockSize)
    ensures AllPieces(Pieces(rs, slot), slot, tag, blockSize)
    decreases |rs|
  {
    hide WellFormedRequest, TagOf;
    if rs != [] {
      PiecesOfTraffic(rs[1..], slot, tag, blockSize);
    }
  }

  /** A command of another task: the entry and the statuses stay. */
  lemma Stranger(t: Target, r: Request, slot: nat, tag: seq<byte>, start: nat, age: nat, blockSize: nat)
    requires Valid(t, blockSize) && slot < MAX_TRANSFERS && !ForSlot(r, slot) && TagOf(r) != tag
    requires slot == start % MAX_TRANSFERS && t.currentTransfer == Wrap(start + age) && 0 < age
    requires Starts(r) ==> age < MAX_TRANSFERS
    ensures var t' := Execute(t, r, blockSize);
            && |t'.transfers| == MAX_TRANSFERS && t'.transfers[slot] == t.transfers[slot]
            && Statuses(t'.out, tag) == Statuses(t.out, tag)
            && t'.currentTransfer == Wrap(start + if Starts(r) then age + 1 else age)
  {
    hide Execute, Statuses, Wrap;
    Effect(t, r, blockSize);
    SlotRetakenIff(start, age);
    IscsiReplies.WrapNext(start + age);
    OtherStatuses(t.out, Execute(t, r, blockSize).out, TagOf(r), tag);
  }

  /** One of the task's Data-Outs. */
  lemma OnePiece(t: Target, r: Request, slot: nat, tag: seq<byte>, blockSize: nat)
    requires Valid(t, blockSize) && slot < MAX_TRANSFERS && ForSlot(r, slot) && r.tag == tag
    requires t.transfers[slot].current + Counted(r, blockSize) < TWO_32
    ensures var t', now := Execute(t, r, blockSize), t.transfers[slot].current + Counted(r, blockSize);
            && |t'.transfers| == MAX_TRANSFERS && t'.transfers[slot] == t.transfers[slot].(current := now)
            && Statuses(t'.out, tag) == Statuses(t.out, tag) + (if now == t.transfers[slot].length then 1 else 0)
            && t'.currentTransfer == t.currentTransfer
  {
    hide Execute, Statuses, Answers;
    PieceStatus(t, Job(slot, tag, 0, [], 0), r, blockSize);
    Effect(t, r, blockSize);
  }

  /** One status for each time the count is found complete, with fewer than 128 transfers begun meanwhile. */
  lemma {:induction false} StatusPerCompletion(t: Target, rs: seq<Request>, slot: nat, tag: seq<byte>,
                                               start: nat, age: nat, blockSize: nat)
    requires Valid(t, blockSize) && Traffic(rs, slot, tag, blockSize)
    requires slot == start % MAX_TRANSFERS && t.currentTransfer == Wrap(start + age)
    requires 0 < age && age + Begun(rs) <= MAX_TRANSFERS
    requires t.transfers[slot].current + TotalCounted(Pieces(rs, slot), blockSize) < TWO_32
    ensures var t' := IscsiReplies.ExecuteAll(t, rs, blockSize);
            Statuses(t'.out, tag)
            == Statuses(t.out, tag) + Completions(t.transfers[slot].current, t.transfers[slot].length, Pieces(rs, slot), blockSize)
    decreases |rs|
  {
    hide Execute, Statuses, WellFormedRequest, TagOf, Counted, Wrap, Starts;
    if rs != [] {
      var r, rest := rs[0], Pieces(rs[1..], slot);
      IscsiReplies.ExecuteValid(t, r, blockSize);
      if ForSlot(r, slot) {
        assert Pieces(rs, slot)[0] == r && Pieces(rs, slot)[1..] == rest;
        OnePiece(t, r, slot, tag, blockSize);
        PiecesDoNotStart(r, slot);
      } else {
        assert Pieces(rs, slot) == rest;
        Stranger(t, r, slot, tag, start, age, blockSize);
      }
      hide Valid;
      StatusPerCompletion(Execute(t, r, blockSize), rs[1..], slot, tag, start, if Starts(r) then age + 1 else age, blockSize);
    }
  }

  lemma PiecesDoNotStart(r: Request, slot: nat)
    ensures ForSlot(r, slot) ==> !Starts(r)
  {
  }

  /** Data-Outs that together have exactly the bytes still missing, among other commands: a status goes out exactly when
      each carries whole blocks, and it goes out once exactly when, besides, the last of them is not empty. */
  lemma StatusIff(t: Target, rs: seq<Request>, slot: nat, tag: seq<byte>, start: nat, age: nat, blockSize: nat)
    requires Valid(t, blockSize) && Traffic(rs, slot, tag, blockSize)
    requires slot == start % MAX_TRANSFERS && t.currentTransfer == Wrap(start + age)
    requires 0 < age && age + Begun(rs) <= MAX_TRANSFERS
    requires t.transfers[slot].current < t.transfers[slot].length < TWO_32
    requires TotalBytes(Pieces(rs, slot)) == (t.transfers[slot].length - t.transfers[slot].current) * blockSize
    ensures var sent := Statuses(IscsiReplies.ExecuteAll(t, rs, blockSize).out, tag) - Statuses(t.out, tag);
            var pieces := Pieces(rs, slot);
            && 0 <= sent
            && (sent != 0 <==> AllWhole(pieces, blockSize))
            && (sent == 1 <==> pieces != [] && AllWhole(pieces, blockSize) && pieces[|pieces| - 1].data != [])
  {
    hide Statuses, IscsiReplies.ExecuteAll, WellFormedRequest, Completions, Counted, TotalCounted, TotalBytes, AllPieces, AllWhole, Pieces;
    var pieces := Pieces(rs, slot);
    var current, length := t.transfers[slot].current, t.transfers[slot].length;
    PiecesOfTraffic(rs, slot, tag, blockSize);
    CompleteIff(pieces, slot, tag, length - current, blockSize);
    StatusPerCompletion(t, rs, slot, tag, start, age, blockSize);
    if current + TotalCounted(pieces, blockSize) < length {
      NeverReached(current, length, pieces, blockSize);
    } else {
      Reached(current, length, pieces, blockSize);
      LastCounted(pieces, slot, tag, blockSize);
    }
  }

  lemma CompleteIff(rs: seq<Request>, slot: nat, tag: seq<byte>, missing: nat, blockSize: nat)
    requires blockSize > 0 && AllPieces(rs, slot, tag, blockSize) && TotalBytes(rs) == missing * blockSize
    ensures TotalCounted(rs, blockSize) <= missing
    ensures TotalCounted(rs, blockSize) == missing <==> AllWhole(rs, blockSize)
  {
    hide TotalCounted, TotalBytes, AllPieces, AllWhole;
    CountedAtMost(rs, slot, tag, blockSize);
    ProductsEqual(TotalCounted(rs, blockSize), missing, blockSize);
    NotMore(TotalCounted(rs, blockSize), missing, blockSize);
  }

  lemma NotMore(a: nat, b: nat, c: nat)
    requires c > 0 && a * c <= b * c
    ensures a <= b
  {
    if b < a {
      ProductGrows(b, a, c);
    }
  }

  lemma LastCounted(rs: seq<Request>, slot: nat, tag: seq<byte>, blockSize: nat)
    requires blockSize > 0 && rs != [] && AllPieces(rs, slot, tag, blockSize) && AllWhole(rs, blockSize)
    ensures rs[|rs| - 1].DataOut? && (0 < Counted(rs[|rs| - 1], blockSize) <==> rs[|rs| - 1].data != [])
  {
    var last := rs[|rs| - 1];
    OneCounted(last, blockSize);
    assert Whole(last, blockSize);
  }

  // ----- what the status says of the data

  /** Where the target puts the data of a piece, relative to the first block of the write. */
  function Landing(r: Request, blockSize: nat): set<nat>
    requires r.DataOut? && blockSize > 0
  {
    Range(r.offset / blockSize * blockSize, |r.data|)
  }

  lemma LandsThere(t: Target, r: Request, blockSize: nat)
    requires Valid(t, blockSize) && r.DataOut? && r.slot < MAX_TRANSFERS
    ensures Writes(t, r, blockSize) == [DiskWrite(t.transfers[r.slot].offset * blockSize + r.offset / blockSize * blockSize,
                                                  r.data, BlocksIn(|r.data|, blockSize))]
  {
    ProductOfSum(t.transfers[r.slot].offset, r.offset / blockSize, blockSize);
  }

  ghost predicate AllData(rs: seq<Request>) {
    forall r | r in rs :: r.DataOut?
  }

  function Landed(got: set<nat>, rs: seq<Request>, blockSize: nat): set<nat>
    requires blockSize > 0
    decreases |rs|
  {
    if rs == [] then got else Landed(if rs[0].DataOut? then got + Landing(rs[0], blockSize) else got, rs[1..], blockSize)
  }

  /** No piece lands on what is there already or on another piece. */
  ghost predicate Separate(got: set<nat>, rs: seq<Request>, blockSize: nat)
    requires blockSize > 0 && AllData(rs)
    decreases |rs|
  {
    rs == [] || (Landing(rs[0], blockSize) !! got && Separate(got + Landing(rs[0], blockSize), rs[1..], blockSize))
  }

  lemma {:induction false} LandedSize(got: set<nat>, rs: seq<Request>, blockSize: nat)
    requires blockSize > 0 && AllData(rs)
    ensures got <= Landed(got, rs, blockSize) && |Landed(got, rs, blockSize)| <= |got| + TotalBytes(rs)
    ensures |Landed(got, rs, blockSize)| == |got| + TotalBytes(rs) <==> Separate(got, rs, blockSize)
    decreases |rs|
  {
    if rs != [] {
      var more := Landing(rs[0], blockSize);
      RangeSize(rs[0].offset / blockSize * blockSize, |rs[0].data|);
      UnionSize(got, more);
      LandedSize(got + more, rs[1..], blockSize);
    }
  }

  lemma UnionSize(a: set<nat>, b: set<nat>)
    ensures |a + b| <= |a| + |b|
    ensures |a + b| == |a| + |b| <==> b !! a
  {
    assert a + b == a + (b - a);
    assert |a + (b - a)| == |a| + |b - a|;
    assert b == (b - a) + (b * a);
    assert |b| == |b - a| + |b * a|;
    if b !! a {
      assert b * a == {};
    }
  }

  /** With whole blocks and exactly the missing bytes the status goes out.  Then all data are in if and only if the pieces
      lie within the write and fall neither on each other nor on what was there: the target does not look. */
  lemma AllInIff(t: Target, rs: seq<Request>, got: set<nat>, slot: nat, tag: seq<byte>, start: nat, age: nat, blockSize: nat)
    requires Valid(t, blockSize) && Traffic(rs, slot, tag, blockSize)
    requires slot == start % MAX_TRANSFERS && t.currentTransfer == Wrap(start + age)
    requires 0 < age && age + Begun(rs) <= MAX_TRANSFERS
    requires t.transfers[slot].current < t.transfers[slot].length < TWO_32
    requires TotalBytes(Pieces(rs, slot)) == (t.transfers[slot].length - t.transfers[slot].current) * blockSize
    requires AllWhole(Pieces(rs, slot), blockSize)
    requires |got| == t.transfers[slot].current * blockSize
    ensures Statuses(IscsiReplies.ExecuteAll(t, rs, blockSize).out, tag) > Statuses(t.out, tag)
    ensures AllData(Pieces(rs, slot))
    ensures var all, landed := Range(0, t.transfers[slot].length * blockSize), Landed(got, Pieces(rs, slot), blockSize);
            all <= landed <==> landed <= all && Separate(got, Pieces(rs, slot), blockSize)
  {
    hide Statuses, IscsiReplies.ExecuteAll, WellFormedRequest, TotalBytes, AllWhole, Landed, Separate, Pieces, Traffic, Range;
    var current, length := t.transfers[slot].current, t.transfers[slot].length;
    var pieces := Pieces(rs, slot);
    StatusIff(t, rs, slot, tag, start, age, blockSize);
    PiecesOfTraffic(rs, slot, tag, blockSize);
    var all, landed := Range(0, length * blockSize), Landed(got, pieces, blockSize);
    RangeSize(0, length * blockSize);
    LandedSize(got, pieces, blockSize);
    ProductOfSum(current, length - current, blockSize);
    if all <= landed {
      SubsetSize(all, landed);
    } else if landed <= all {
      SubsetSize(landed, all);
    }
  }
}
