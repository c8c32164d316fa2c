/** For which HTTP streams the stale bound makes no difference under any chunking: only those with at most one message,
    complete at the end. */
module HttpStreams {
  import opened Bytes
  import opened TextFraming

  // ----- where `std::stoi` stops

  predicate NumberByte(b: byte) {
    Space(b) || b == 43 || b == 45 || Digit(b)
  }

  /** From `i` to `e` there are white space, a sign and digits, the last of them a digit. */
  predicate NumberUntil(b: seq<byte>, i: nat, e: nat) {
    i < e < |b| && Digit(b[e - 1]) && forall j | i <= j < e :: NumberByte(b[j])
  }

  lemma {:induction false} DigitsStop(b: seq<byte>, i: nat, acc: nat) returns (e: nat)
    requires MoreDigits(b, i, acc).Value?
    ensures i <= e < |b| && (Digit(b[i]) ==> i < e) && forall j | i <= j < e :: Digit(b[j])
    ensures forall k | e < k <= |b| :: MoreDigits(b[..k], i, acc) == MoreDigits(b, i, acc)
    decreases |b| - i
  {
    e := i;
    if Digit(b[i]) {
      e := DigitsStop(b, i + 1, acc * 10 + (b[i] - 48));
    }
  }

  lemma {:induction false} StoiStops(b: seq<byte>, i: nat) returns (e: nat)
    requires Stoi(b, i).Value?
    ensures NumberUntil(b, i, e)
    ensures forall k | e < k <= |b| :: Stoi(b[..k], i) == Stoi(b, i)
    decreases |b| - i
  {
    if Space(b[i]) {
      e := StoiStops(b, i + 1);
    } else if b[i] == 45 || b[i] == 43 {
      e := DigitsStop(b, i + 1, 0);
    } else {
      e := DigitsStop(b, i, 0);
    }
  }

  // ----- what a far number leaves behind a message

  /** The end of a number and the byte that ended it. */
  predicate Residue(x: seq<byte>) {
    && x != [] && (|x| >= 2 ==> Digit(x[|x| - 2]))
    && forall j | 0 <= j < |x| - 1 :: NumberByte(x[j])
  }

  predicate ResidueFrom(x: seq<byte>, s: nat) {
    s <= |x| && Residue(x[s..])
  }

  predicate ResiduesFrom(x: seq<byte>, start: nat) {
    forall s | start <= s < |x| :: ResidueFrom(x, s)
  }

  lemma {:induction false} NothingAnnounced(x: seq<byte>, j: nat, stop: nat)
    requires Residue(x) && j <= stop < |x|
    ensures Search(x, j, stop) == stop
    decreases stop - j
  {
    if j + |TARGET| <= stop {
      assert Lower(x[j + 0]) != TARGET[0];
      NothingAnnounced(x, j + 1, stop);
    }
  }

  /** A scan finds only blank lines, and never the last two bytes. */
  lemma ResidueScan(x: seq<byte>)
    requires Residue(x)
    ensures var v := Scan(Http, x, 0, |x|); v.Missing? || (v.At? && v.size + 2 <= |x|)
  {
    ResidueScanFrom(x, 0);
  }

  lemma {:induction false} ResidueScanFrom(x: seq<byte>, i: nat)
    requires Residue(x)
    ensures var v := Scan(Http, x, i, |x|); v.Missing? || (v.At? && v.size + 2 <= |x|)
    decreases |x| - i
  {
    if i + 4 <= |x| {
      SeenInside(Http, x, i);
      if LookAt(Http, x, i) == Yes {
        FourEols(x, i);
        assert x[|x| - 2] != x[i + 2] && x[|x| - 2] != x[i + 3];
        NothingAnnounced(x, 0, i);
      } else {
        ResidueScanFrom(x, i + 1);
      }
    }
  }

  lemma FourEols(x: seq<byte>, i: nat)
    requires Eols(x, i, 4) == Yes
    ensures i + 4 <= |x| && Eol(x[i]) && Eol(x[i + 1]) && Eol(x[i + 2]) && Eol(x[i + 3])
  {
    EolsInside(x, i, 4);
    assert Eols(x, i, 4) == Eols(x, i + 1, 3) == Eols(x, i + 2, 2) == Eols(x, i + 3, 1);
  }

  /** So something is left, and no head in it. */
  lemma {:induction false} ResidueStays(x: seq<byte>)
    requires Residue(x)
    ensures var end := Live(Http, x).end;
            end.Waiting? && end.held != [] && Scan(Http, end.held, 0, |end.held|).Missing?
    decreases |x|
  {
    ResidueScan(x);
    hide Scan;
    var v := Scan(Http, x, 0, |x|);
    if v.At? {
      assert Residue(x[v.size..]);
      ResidueStays(x[v.size..]);
    }
  }

  // ----- the first message in a prefix of the stream

  /** The first message is found in any prefix that holds its head and the number announced. */
  lemma {:induction false} FirstFound(b: seq<byte>, i: nat, start: nat, k: nat)
    requires i <= start && start + 4 <= k <= |b|
    requires LookAt(Http, b, start) == Yes && forall j | i <= j < start :: LookAt(Http, b, j) == No
    requires Announced(b[..k], start) == Announced(b, start)
    ensures Scan(Http, b[..k], i, k) == Found(Http, b, start)
    decreases start - i
  {
    LookExtends(Http, b[..k], b[k..], i);
    assert b[..k] + b[k..] == b;
    SeenInside(Http, b[..k], i);
    if i < start {
      FirstFound(b, i + 1, start, k);
    }
  }

  /** The announcement is found and read in any prefix that reaches beyond the number. */
  lemma AnnouncementEnds(b: seq<byte>, start: nat) returns (e: nat)
    requires start <= |b| && Announced(b, start).Value?
    ensures e < |b| || e == start
    ensures forall k | e < k <= |b| && start <= k :: Announced(b[..k], start) == Announced(b, start)
    ensures e > start ==> ResiduesFrom(b[..e + 1], start)
  {
    var it := Search(b, 0, start);
    e := start;
    if it != start {
      e := StoiStops(b, it + |TARGET|);
    }
    forall k | e < k <= |b| && start <= k
      ensures Announced(b[..k], start) == Announced(b, start)
    {
      assert b[..k] + b[k..] == b;
      SearchExtends(b[..k], b[k..], 0, start);
    }
  }

  /** A prefix that holds the first message, the number it announced, and one byte more at least: what follows the
      message in it is one byte, or the end of that number. */
  lemma PrefixBeyond(b: seq<byte>) returns (k: nat)
    requires Complete(Http, b) && Scan(Http, b, 0, |b|).size < |b|
    ensures var s := Scan(Http, b, 0, |b|).size;
            s < k <= |b| && Scan(Http, b[..k], 0, k) == Scan(Http, b, 0, |b|) && Residue(b[..k][s..])
  {
    var s := Scan(Http, b, 0, |b|).size;
    var start := ScanFinds(Http, b, 0, |b|);
    hide Announced, Scan, LookAt;
    var e := AnnouncementEnds(b, start);
    k := if e > s then e + 1 else s + 1;
    FirstFound(b, 0, start, k);
    if k == s + 1 {
      assert b[..k][s..] == [b[s]];
    } else {
      assert ResidueFrom(b[..e + 1], s);
    }
  }

  /** Two messages, or bytes after one: there is a prefix on which the stale bound goes wrong. */
  lemma HttpHarmed(b: seq<byte>) returns (k: nat)
    requires Live(Http, b).end.Waiting? && !OneAtMost(Http, b)
    ensures k <= |b| && !Good(Http, b[..k])
  {
    var s := Scan(Http, b, 0, |b|).size;
    if s == |b| {
      EndsThere(b);
    }
    k := PrefixBeyond(b);
    hide Scan;
    LiveCut(Http, b[..k]);
    ResidueStays(b[..k][s..]);
  }

  lemma EndsThere(b: seq<byte>)
    requires Complete(Http, b) && Scan(Http, b, 0, |b|).size == |b|
    ensures OneAtMost(Http, b)
  {
    hide Scan;
    NothingHeld(Http);
    assert b[|b|..] == [];
  }

  /** As for FTP: for a stream that leaves the decoder waiting the bound makes no difference exactly when it is at most
      one message, ended by its last byte. */
  lemma HttpHarmlessIff(whole: seq<byte>)
    requires Live(Http, whole).end.Waiting?
    ensures BoundHarmless(Http, whole) <==> OneAtMost(Http, whole)
  {
    if OneAtMost(Http, whole) {
      OneMessageHarmless(Http, whole);
    } else {
      var k := HttpHarmed(whole);
      NothingHeld(Http);
      hide Live, Good;
      assert whole[..0] == [] && [] + whole[0..k] == whole[..k];
      assert !GoodStep(Http, whole, 0, k);
    }
  }
}
