/** Heads that announce a length and leave it blank.  `std::stoi` skips the blank line that ends such a head and
    looks for the number in the body, so that what is decoded depends on how much of the body has arrived. */
module BlankLengths {
  import opened Bytes
  import opened TextFraming

  /** Nothing but white space follows the announcement, through the blank line at `start`. */
  predicate LeavesBlank(b: seq<byte>, start: nat)
    requires start + 4 <= |b|
  {
    var it := Search(b, 0, start);
    it != start && forall j | it + |TARGET| <= j < start + 4 :: Space(b[j])
  }

  /** The first head in `b` ends at `start`. */
  ghost predicate FirstHead(p: Text, b: seq<byte>, start: nat) {
    start + Least(p) <= |b| && LookAt(p, b, start) == Yes && forall k | 0 <= k < start :: LookAt(p, b, k) == No
  }

  ghost predicate BlankAt(p: Text, b: seq<byte>, start: nat) {
    p.Http? && FirstHead(p, b, start) && LeavesBlank(b, start)
  }

  ghost predicate BlankHead(p: Text, b: seq<byte>) {
    exists start: nat :: BlankAt(p, b, start)
  }

  /** No head of the stream leaves its length blank for later bytes to fill in. */
  ghost predicate NoBlank(p: Text, b: seq<byte>)
    decreases |b|
  {
    var v := Scan(p, b, 0, |b|);
    v.Missing? || v.Overrun? || (!BlankHead(p, b) && (v.At? && v.size <= |b| ==> NoBlank(p, b[v.size..])))
  }

  // ----- what a scan says of a first head

  lemma {:induction false} ScanAtHead(p: Text, b: seq<byte>, i: nat, start: nat)
    requires FirstHead(p, b, start) && i <= start
    ensures Scan(p, b, i, |b|) == Found(p, b, start)
    decreases start - i
  {
    hide Found;
    if i < start {
      ScanAtHead(p, b, i + 1, start);
    }
  }

  lemma {:induction false} HeadOfScan(p: Text, b: seq<byte>, i: nat) returns (start: nat)
    requires i <= |b| && !Scan(p, b, i, |b|).Missing?
    ensures i <= start && start + Least(p) <= |b| && LookAt(p, b, start) == Yes
    ensures forall k | i <= k < start :: LookAt(p, b, k) == No
    decreases |b| - i
  {
    hide Found;
    SeenInside(p, b, i);
    start := i;
    if LookAt(p, b, i) == No {
      start := HeadOfScan(p, b, i + 1);
    }
  }

  /** A first head stays first when bytes are added, and in every prefix that holds it. */
  lemma HeadInPrefix(p: Text, b: seq<byte>, start: nat, k: nat)
    requires start + Least(p) <= k <= |b|
    ensures FirstHead(p, b[..k], start) <==> FirstHead(p, b, start)
  {
    forall j | 0 <= j <= start
      ensures LookAt(p, b[..k], j) == LookAt(p, b, j)
    {
      SeenInside(p, b[..k], j);
      LookExtends(p, b[..k], b[k..], j);
      assert b[..k] + b[k..] == b;
    }
  }

  // ----- blank lengths and `std::stoi`

  lemma {:induction false} SpacesRunOut(b: seq<byte>, i: nat)
    requires i < |b| && Eol(b[|b| - 1])
    ensures Stoi(b, i).RunsOut? <==> forall j | i <= j < |b| :: Space(b[j])
    decreases |b| - i
  {
    if Space(b[i]) {
      if i + 1 < |b| {
        SpacesRunOut(b, i + 1);
      }
    } else {
      DigitsEnd(b, i, 0);
      if i + 1 < |b| {
        DigitsEnd(b, i + 1, 0);
      }
    }
  }

  lemma {:induction false} DigitsEnd(b: seq<byte>, i: nat, acc: nat)
    requires i < |b| && Eol(b[|b| - 1])
    ensures !MoreDigits(b, i, acc).RunsOut?
    decreases |b| - i
  {
    if Digit(b[i]) {
      assert i + 1 < |b|;
      DigitsEnd(b, i + 1, acc * 10 + (b[i] - 48));
    }
  }

  lemma LastIsEol(b: seq<byte>, start: nat)
    requires start + 4 <= |b| && LookAt(Http, b, start) == Yes
    ensures Eol(b[start + 3])
  {
    assert Eols(b, start, 4) == Eols(b, start + 1, 3) == Eols(b, start + 2, 2) == Eols(b, start + 3, 1);
  }

  /** A blank length is one that cannot be read from the head alone. */
  lemma BlankIff(b: seq<byte>, start: nat)
    requires start + 4 <= |b| && LookAt(Http, b, start) == Yes
    ensures LeavesBlank(b, start) <==> Announced(b[..start + 4], start).RunsOut?
  {
    var a := b[..start + 4];
    LastIsEol(b, start);
    assert a + b[start + 4..] == b;
    SearchExtends(a, b[start + 4..], 0, start);
    var it := Search(b, 0, start);
    if it != start {
      SpacesRunOut(a, it + |TARGET|);
      assert forall j | it + |TARGET| <= j < start + 4 :: a[j] == b[j];
    }
  }

  /** More bytes do not change a length that has been read. */
  lemma AnnouncedExtends(a: seq<byte>, b: seq<byte>, start: nat)
    requires start <= |a| && !Announced(a, start).RunsOut?
    ensures Announced(a + b, start) == Announced(a, start)
  {
    SearchExtends(a, b, 0, start);
    StoiExtends(a, b, Search(a, 0, start) + |TARGET|);
  }

  /** On the bytes held the scan reads past the end only because of a blank length. */
  lemma OverrunIsBlank(p: Text, b: seq<byte>)
    requires Scan(p, b, 0, |b|).Overrun?
    ensures BlankHead(p, b)
  {
    var start := HeadOfScan(p, b, 0);
    ScanAtHead(p, b, 0, start);
    hide Announced, LeavesBlank;
    if Announced(b[..start + Least(p)], start).RunsOut? {
      BlankIff(b, start);
      assert BlankAt(p, b, start);
    } else {
      assert b[..start + Least(p)] + b[start + Least(p)..] == b;
      AnnouncedExtends(b[..start + Least(p)], b[start + Least(p)..], start);
    }
  }

  /** When not blank, a first head gives the same in every prefix that holds it. */
  lemma HeadAlone(p: Text, b: seq<byte>, start: nat, k: nat)
    requires FirstHead(p, b, start) && !BlankAt(p, b, start) && start + Least(p) <= k <= |b|
    ensures Scan(p, b[..k], 0, k) == Scan(p, b, 0, |b|)
  {
    hide Scan, LookAt, LeavesBlank, Announced;
    HeadInPrefix(p, b, start, k);
    ScanAtHead(p, b, 0, start);
    ScanAtHead(p, b[..k], 0, start);
    if p.Http? {
      SameAnnounced(b, start, k);
    }
  }

  lemma SameAnnounced(b: seq<byte>, start: nat, k: nat)
    requires start + 4 <= k <= |b| && LookAt(Http, b, start) == Yes && !LeavesBlank(b, start)
    ensures Announced(b[..k], start) == Announced(b, start)
  {
    hide LeavesBlank, Announced, LookAt;
    BlankIff(b, start);
    var a := b[..start + 4];
    assert b[..k] == a + b[start + 4..k] && b == a + b[start + 4..];
    AnnouncedExtends(a, b[start + 4..k], start);
    AnnouncedExtends(a, b[start + 4..], start);
  }

  /** In particular a complete message is found in every prefix that holds it. */
  lemma MessageAlone(p: Text, b: seq<byte>, k: nat)
    requires Complete(p, b) && !BlankHead(p, b) && Scan(p, b, 0, |b|).size <= k <= |b|
    ensures Scan(p, b[..k], 0, k) == Scan(p, b, 0, |b|)
  {
    var start := HeadOfScan(p, b, 0);
    ScanAtHead(p, b, 0, start);
    hide Scan, LookAt, Announced;
    assert !BlankAt(p, b, start);
    HeadAlone(p, b, start, k);
  }

  /** Where a head leaves its length blank, the bytes up to its end are too few. */
  lemma BlankOverruns(p: Text, b: seq<byte>) returns (k: nat)
    requires BlankHead(p, b)
    ensures k <= |b| && Scan(p, b[..k], 0, k).Overrun?
  {
    var start: nat :| BlankAt(p, b, start);
    k := start + 4;
    BlankIff(b, start);
    HeadInPrefix(p, b, start, k);
    ScanAtHead(p, b[..k], 0, start);
  }

  lemma BlankExtends(p: Text, a: seq<byte>, b: seq<byte>)
    requires BlankHead(p, a)
    ensures BlankHead(p, a + b)
  {
    var start: nat :| BlankAt(p, a, start);
    assert (a + b)[..|a|] == a;
    HeadInPrefix(p, a + b, start, |a|);
    SearchExtends(a, b, 0, start);
    assert BlankAt(p, a + b, start);
  }

  // ----- streams

  /** A pass that ends badly stays as it is when more bytes come, unless a blank length is filled in. */
  lemma {:induction false} LiveStops(p: Text, a: seq<byte>, b: seq<byte>)
    requires !Live(p, a).end.Waiting? && NoBlank(p, a + b)
    ensures Live(p, a + b) == Live(p, a)
    decreases |a|
  {
    hide Scan, Live, Front, BlankHead;
    LiveCut(p, a);
    if Complete(p, a) {
      var size := Scan(p, a, 0, |a|).size;
      FrontExtends(p, a, b);
      LiveCut(p, a + b);
      LiveStops(p, a[size..], b);
    } else {
      StoppedAt(p, a);
      if Scan(p, a, 0, |a|).Overrun? {
        OverrunIsBlank(p, a);
        BlankExtends(p, a, b);
        StillThere(p, a, b);
      } else {
        ScanExtends(p, a, b, 0);
      }
      StoppedAt(p, a + b);
    }
  }

  lemma StoppedAt(p: Text, b: seq<byte>)
    ensures var v := Scan(p, b, 0, |b|); !v.At? && !v.Missing? ==> Live(p, b) == Pass([], Stopped(v))
    ensures var v := Scan(p, b, 0, |b|); v.Missing? || (v.At? && v.size > |b|) ==> Live(p, b) == Pass([], Waiting(b))
  {
    hide Scan;
  }

  /** What a first head leads to: a length that is negative or above 8 MiB is refused, one that is no number, or no
      32-bit number, throws, a blank one is read past the end, and any other makes a message of its size. */
  lemma LengthDecides(b: seq<byte>, start: nat)
    requires FirstHead(Http, b, start)
    ensures var n := Announced(b, start);
            && (Live(Http, b) == Pass([], Refuses) <==> n.Value? && (n.n < 0 || n.n > MAX_CONTENT))
            && (Live(Http, b) == Pass([], Threw) <==> n == NoNumber)
            && (Live(Http, b) == Pass([], Overran) <==> n == RunsOut)
            && (n.Value? && 0 <= n.n <= MAX_CONTENT && start + 4 + n.n <= |b| ==>
                  Live(Http, b).out != [] && Live(Http, b).out[0] == Message(b[..start + 4 + n.n], b[start + 4..start + 4 + n.n]))
            && (n.Value? && 0 <= n.n <= MAX_CONTENT && start + 4 + n.n > |b| ==> Live(Http, b) == Pass([], Waiting(b)))
  {
    hide Scan, LookAt, Announced, Live;
    ScanAtHead(Http, b, 0, start);
    StoppedAt(Http, b);
    LiveCut(Http, b);
  }

  lemma StillThere(p: Text, a: seq<byte>, b: seq<byte>)
    requires BlankHead(p, a)
    ensures !Scan(p, a + b, 0, |a + b|).Missing?
  {
    BlankExtends(p, a, b);
    var start: nat :| BlankAt(p, a + b, start);
    ScanAtHead(p, a + b, 0, start);
  }

  lemma {:induction false} NoBlankPrefix(p: Text, a: seq<byte>, b: seq<byte>)
    requires NoBlank(p, a + b)
    ensures NoBlank(p, a)
    decreases |a|
  {
    hide Scan, BlankHead;
    var v := Scan(p, a, 0, |a|);
    if !v.Missing? && !v.Overrun? {
      ScanExtends(p, a, b, 0);
      if BlankHead(p, a) {
        BlankExtends(p, a, b);
      }
      if v.At? && v.size <= |a| {
        FrontExtends(p, a, b);
        NoBlankPrefix(p, a[v.size..], b);
      }
    }
  }

  /** A blank length that is filled in: there is a prefix that ends badly although the stream goes on. */
  lemma {:induction false} BlankCut(p: Text, whole: seq<byte>) returns (k: nat)
    requires !NoBlank(p, whole)
    ensures k <= |whole| && Live(p, whole[..k]).end == Overran && Live(p, whole[..k]) != Live(p, whole)
    decreases |whole|
  {
    hide Scan, BlankHead, Live, Front;
    LiveCut(p, whole);
    StoppedAt(p, whole);
    if BlankHead(p, whole) {
      k := BlankOverruns(p, whole);
      StoppedAt(p, whole[..k]);
    } else {
      var v := Scan(p, whole, 0, |whole|);
      var rest := whole[v.size..];
      var k' := BlankCut(p, rest);
      k := v.size + k';
      MessageAlone(p, whole, k);
      LiveCut(p, whole[..k]);
      SameFrontIn(p, whole, k);
      assert whole[..k][v.size..] == rest[..k'];
      hide Complete;
      Peel(Front(p, whole), Live(p, rest[..k']), Live(p, rest));
    }
  }

  lemma SameFrontIn(p: Text, b: seq<byte>, k: nat)
    requires Complete(p, b) && Scan(p, b, 0, |b|).size <= k <= |b| && Scan(p, b[..k], 0, k) == Scan(p, b, 0, |b|)
    ensures Complete(p, b[..k]) && Front(p, b[..k]) == Front(p, b)
  {
    hide Scan;
    var v := Scan(p, b, 0, |b|);
    assert b[..k][..v.size] == b[..v.size] && b[..k][v.from..v.to] == b[v.from..v.to];
  }

  /** The decoder waits after every prefix of a stream exactly when it waits after the stream, and no head leaves its
      length blank. */
  lemma WaitsThroughoutIff(p: Text, b: seq<byte>)
    ensures (forall k | 0 <= k <= |b| :: Live(p, b[..k]).end.Waiting?) <==> Live(p, b).end.Waiting? && NoBlank(p, b)
  {
    hide Live, NoBlank;
    assert b[..|b|] == b;
    if !NoBlank(p, b) {
      var k := BlankCut(p, b);
    } else if Live(p, b).end.Waiting? {
      forall k | 0 <= k <= |b|
        ensures Live(p, b[..k]).end.Waiting?
      {
        if !Live(p, b[..k]).end.Waiting? {
          assert b[..k] + b[k..] == b;
          LiveStops(p, b[..k], b[k..]);
        }
      }
    }
  }

  /** FTP announces no lengths. */
  lemma {:induction false} FtpNoBlank(b: seq<byte>)
    ensures NoBlank(Ftp, b)
    decreases |b|
  {
    hide Scan;
    var v := Scan(Ftp, b, 0, |b|);
    if v.At? && v.size <= |b| {
      FtpNoBlank(b[v.size..]);
    }
  }

  /** A message that no prefix of itself breaks, in front of a stream without blank lengths. */
  lemma NoBlankFront(p: Text, m: seq<byte>, rest: seq<byte>)
    requires forall k | 0 <= k <= |m| :: Live(p, m[..k]).end.Waiting?
    requires Complete(p, m) && Scan(p, m, 0, |m|).size == |m| && NoBlank(p, rest)
    ensures NoBlank(p, m + rest)
  {
    hide Scan, Live, BlankHead;
    FrontExtends(p, m, rest);
    assert m[|m|..] + rest == rest;
    if BlankHead(p, m + rest) {
      FirstIsIn(p, m, rest);
      var k := BlankOverruns(p, m);
      StoppedAt(p, m[..k]);
    }
  }

  lemma FirstIsIn(p: Text, m: seq<byte>, rest: seq<byte>)
    requires Complete(p, m) && BlankHead(p, m + rest)
    ensures BlankHead(p, m)
  {
    var start := HeadOfScan(p, m, 0);
    var start': nat :| BlankAt(p, m + rest, start');
    assert (m + rest)[..|m|] == m;
    HeadInPrefix(p, m + rest, start, |m|);
    assert start == start';
    SearchExtends(m, rest, 0, start);
    assert BlankAt(p, m, start);
  }
}
