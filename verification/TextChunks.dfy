/** The passes over the chunks of a stream, and the streams that are decoded under every chunking. */
module TextChunks {
  import opened Bytes
  import opened TextFraming
  import opened BlankLengths
  import H = Http
  import HttpStreams

  ghost function Passing(p: Text, live: bool, b: seq<byte>, end: nat): Pass {
    if live then Live(p, b) else Stale(p, b, end)
  }

  /** One pass and what came after it. */
  function Then(a: Pass, b: Pass): Pass {
    Pass(a.out + b.out, b.end)
  }

  lemma ThenThen(a: Pass, b: Pass, c: Pass)
    ensures Then(Then(a, b), c) == Then(a, Then(b, c))
  {
    assert a.out + b.out + c.out == a.out + (b.out + c.out);
  }

  lemma NothingThen(held: seq<byte>, a: Pass)
    ensures Then(Pass([], Waiting(held)), a) == a
    ensures Then(a, Pass([], a.end)) == a
  {
    assert [] + a.out == a.out && a.out + [] == a.out;
  }

  /** What the passes over a list of received chunks hand out, and how the last one ends. */
  ghost function Passes(p: Text, live: bool, held: seq<byte>, chunks: seq<seq<byte>>): Pass
    decreases |chunks|
  {
    if chunks == [] then Pass([], Waiting(held))
    else
      var b := held + chunks[0];
      var pass := Passing(p, live, b, |b|);
      if pass.end.Waiting? then Then(pass, Passes(p, live, pass.end.held, chunks[1..])) else pass
  }

  lemma {:induction false} PassesAppend(p: Text, live: bool, held: seq<byte>, chunks: seq<seq<byte>>, chunk: seq<byte>)
    requires Passes(p, live, held, chunks).end.Waiting?
    ensures var before := Passes(p, live, held, chunks);
            var b := before.end.held + chunk;
            Passes(p, live, held, chunks + [chunk]) == Then(before, Passing(p, live, b, |b|))
    decreases |chunks|
  {
    hide Passing, Then;
    var all := chunks + [chunk];
    if chunks == [] {
      assert all[1..] == [];
      var b := held + chunk;
      var pass := Passing(p, live, b, |b|);
      NothingThen(held, pass);
      LastPass(p, live, pass);
    } else {
      var b := held + chunks[0];
      var pass := Passing(p, live, b, |b|);
      assert all[1..] == chunks[1..] + [chunk];
      EndOfThen(pass, Passes(p, live, pass.end.held, chunks[1..]));
      PassesAppend(p, live, pass.end.held, chunks[1..], chunk);
      var rest := Passes(p, live, pass.end.held, chunks[1..]);
      ThenThen(pass, rest, Passing(p, live, rest.end.held + chunk, |rest.end.held + chunk|));
    }
  }

  lemma LastPass(p: Text, live: bool, pass: Pass)
    ensures pass.end.Waiting? ==> Then(pass, Passes(p, live, pass.end.held, [])) == pass
  {
    NothingThen([], pass);
  }

  lemma EndOfThen(a: Pass, b: Pass)
    ensures Then(a, b).end == b.end
  {
  }

  /** What a pass over a filled buffer adds to the messages decoded so far. */
  lemma Received(p: Text, live: bool, before: seq<byte>, data: seq<byte>, whole: seq<byte>)
    requires Live(p, before).end.Waiting? && before + data <= whole && (live || BoundHarmless(p, whole))
    ensures var b := Live(p, before).end.held + data;
            var pass := Passing(p, live, b, |b|);
            Live(p, before + data) == Pass(Live(p, before).out + pass.out, pass.end)
  {
    hide Live, Stale, Good;
    LiveAppend(p, before, data);
    if !live {
      var j, k := |before|, |before + data|;
      assert whole[..j] == before && whole[j..k] == data;
      assert GoodStep(p, whole, j, k);
      StaleAgreesIff(p, Live(p, before).end.held + data);
    }
  }

  /** With the renewed bound, or where it does no harm, the passes over any chunks decode them, unless one of them
      ends badly where a blank length is filled in. */
  lemma {:induction false} PassesDecode(p: Text, live: bool, before: seq<byte>, chunks: seq<seq<byte>>, whole: seq<byte>)
    requires Live(p, before).end.Waiting? && before + Concat(chunks) <= whole && (live || BoundHarmless(p, whole))
    requires Passes(p, live, Live(p, before).end.held, chunks).end.Waiting? || NoBlank(p, before + Concat(chunks))
    ensures var passes := Passes(p, live, Live(p, before).end.held, chunks);
            Live(p, before + Concat(chunks)) == Pass(Live(p, before).out + passes.out, passes.end)
    decreases |chunks|
  {
    hide Live, Passing, BoundHarmless, NoBlank;
    if chunks == [] {
      assert before + Concat(chunks) == before;
    } else {
      assert before + chunks[0] + Concat(chunks[1..]) == before + Concat(chunks);
      assert before + chunks[0] <= before + Concat(chunks);
      Received(p, live, before, chunks[0], whole);
      if Live(p, before + chunks[0]).end.Waiting? {
        PassesDecode(p, live, before + chunks[0], chunks[1..], whole);
      } else {
        LiveStops(p, before + chunks[0], Concat(chunks[1..]));
      }
    }
  }

  /** The same when only the last pass ends badly: then the decoder ends so too. */
  lemma PassesFail(p: Text, live: bool, before: seq<byte>, chunks: seq<seq<byte>>, last: seq<byte>, whole: seq<byte>)
    requires Live(p, before).end.Waiting? && before + Concat(chunks) + last <= whole && (live || BoundHarmless(p, whole))
    requires Passes(p, live, Live(p, before).end.held, chunks).end.Waiting?
    ensures var passes := Passes(p, live, Live(p, before).end.held, chunks + [last]);
            Live(p, before + Concat(chunks) + last) == Pass(Live(p, before).out + passes.out, passes.end)
  {
    hide Live, Passing, BoundHarmless, Passes;
    PassesDecode(p, live, before, chunks, whole);
    Received(p, live, before + Concat(chunks), last, whole);
    PassesAppend(p, live, Live(p, before).end.held, chunks, last);
  }

  /** A stream with two messages, or with bytes after one, has a first chunk on which the reader as it is goes wrong:
      it hands out something else than the decoder, or reads past what it holds. */
  lemma Misreads(p: Text, whole: seq<byte>) returns (k: nat)
    requires Live(p, whole).end.Waiting? && !OneAtMost(p, whole)
    ensures k <= |whole| && Passes(p, false, [], [whole[..k]]) != Live(p, whole[..k])
  {
    hide Live, Good;
    match p {
      case Ftp => k := FtpHarmed(whole);
      case Http => k := HttpStreams.HttpHarmed(whole);
    }
    StaleAgreesIff(p, whole[..k]);
    OnePass(p, whole[..k]);
  }

  lemma OnePass(p: Text, b: seq<byte>)
    ensures Passes(p, false, [], [b]) == Stale(p, b, |b|)
  {
    var chunks: seq<seq<byte>> := [b];
    assert [] + b == b && chunks[1..] == [];
    LastPass(p, false, Stale(p, b, |b|));
  }

  // ----- streams decoded under every chunking

  /** Every chunking of `whole` hands out the messages of the decoder, and leaves what it leaves. */
  ghost predicate Tame(p: Text, live: bool, whole: seq<byte>) {
    forall chunks: seq<seq<byte>> | Concat(chunks) == whole :: Passes(p, live, [], chunks) == Live(p, whole)
  }

  /** Nothing comes after a first message, or nothing but a head with a blank length. */
  predicate Alone(p: Text, whole: seq<byte>) {
    var pass := Live(p, whole);
    pass.out == [] || (|pass.out| == 1 && (pass.end == Waiting([]) || pass.end == Overran))
  }

  /** Cut in two where the first part ends badly, a stream is not decoded. */
  lemma CutInTwo(p: Text, live: bool, whole: seq<byte>, k: nat)
    requires k <= |whole| && !Passing(p, live, whole[..k], k).end.Waiting?
    requires Passing(p, live, whole[..k], k) != Live(p, whole)
    ensures Passes(p, live, [], [whole[..k], whole[k..]]) == Passing(p, live, whole[..k], k)
    ensures !Tame(p, live, whole)
  {
    hide Passing;
    assert [] + whole[..k] == whole[..k] && whole[..k] + whole[k..] == whole;
    TwoParts(whole[..k], whole[k..]);
  }

  lemma TwoParts(a: seq<byte>, b: seq<byte>)
    ensures Concat([a, b]) == a + b
  {
    var parts: seq<seq<byte>> := [a, b];
    assert parts[1..] == [b] && [b][1..] == [];
    assert b + Concat([]) == b;
  }

  /** With the renewed bound a stream is decoded under every chunking exactly when no head in it leaves its length blank
      for the body to fill in. */
  lemma LiveTameIff(p: Text, whole: seq<byte>)
    ensures Tame(p, true, whole) <==> NoBlank(p, whole)
  {
    hide Live, NoBlank, Passes;
    if NoBlank(p, whole) {
      NothingHeld(p);
      forall chunks: seq<seq<byte>> | Concat(chunks) == whole
        ensures Passes(p, true, [], chunks) == Live(p, whole)
      {
        assert [] + Concat(chunks) == whole;
        PassesDecode(p, true, [], chunks, whole);
        NothingThen([], Passes(p, true, [], chunks));
      }
    } else {
      var k := BlankCut(p, whole);
      CutInTwo(p, true, whole, k);
    }
  }

  // ----- the same with the bound as it is

  /** What is held gives nothing by itself. */
  lemma HeldQuiet(p: Text, b: seq<byte>)
    requires Live(p, b).end.Waiting?
    ensures Live(p, Live(p, b).end.held) == Pass([], Live(p, b).end)
  {
    hide Live;
    LiveAppend(p, b, []);
    var held := Live(p, b).end.held;
    assert b + [] == b && held + [] == held;
    assert |Live(p, held).out| == 0;
  }

  /** With bytes held behind a message and no head in them, the bound as it is leads past the end. */
  lemma StaleOverruns(p: Text, b: seq<byte>)
    requires |Live(p, b).out| == 1 && Live(p, b).end.Waiting?
    requires var held := Live(p, b).end.held; held != [] && Scan(p, held, 0, |held|).Missing?
    ensures Stale(p, b, |b|) == Pass(Live(p, b).out, Overran)
  {
    hide Scan, Live;
    LiveCut(p, b);
    var m, size := CutOff(p, b, |b|);
    var rest := b[size..];
    LiveQuiet(p, rest);
    ScanWider(p, rest, 0, |b|);
    assert Stale(p, rest, |b|) == Pass([], Overran);
  }

  /** A pass over what is held and the next chunk is the decoder's, or it ends as the decoder does on the whole. */
  lemma StalePass(p: Text, before: seq<byte>, data: seq<byte>, whole: seq<byte>)
    requires Live(p, before).end.Waiting? && before + data <= whole && Alone(p, whole)
    ensures var b := Live(p, before).end.held + data;
            var pass := Stale(p, b, |b|);
            pass == Live(p, b) || Pass(Live(p, before).out + pass.out, pass.end) == Live(p, whole)
    ensures var b := Live(p, before).end.held + data;
            Stale(p, b, |b|) == Live(p, b) || !Stale(p, b, |b|).end.Waiting?
  {
    hide Live, Stale, Scan;
    var b := Live(p, before).end.held + data;
    StaleAgreesIff(p, b);
    if !Good(p, b) {
      var held := Live(p, b).end.held;
      var rest := whole[|before + data|..];
      assert before + data + rest == whole;
      LiveAppend(p, before, data);
      LiveAppend(p, before + data, rest);
      var r := Live(p, held + rest);
      assert |Live(p, whole).out| == 1 && Live(p, before).out == [] && r.out == [] && |Live(p, b).out| == 1;
      HeadlessHeld(p, b, rest);
      StaleOverruns(p, b);
    }
  }

  /** Such held bytes hold no head, if they are not taken up by what follows. */
  lemma HeadlessHeld(p: Text, b: seq<byte>, rest: seq<byte>)
    requires Live(p, b).end.Waiting? && Live(p, b).end.held != []
    requires var r := Live(p, Live(p, b).end.held + rest); r.out == [] && (r.end == Waiting([]) || r.end == Overran)
    ensures var held := Live(p, b).end.held;
            Scan(p, held, 0, |held|).Missing? && Live(p, held + rest).end == Overran
  {
    hide Live, Scan;
    var held := Live(p, b).end.held;
    if Live(p, held + rest).end.Waiting? {
      LiveQuiet(p, held + rest);
    }
    HeldQuiet(p, b);
    StoppedAt(p, held);
    StoppedAt(p, held + rest);
    LiveCut(p, held);
    LiveCut(p, held + rest);
    if Scan(p, held, 0, |held|).At? {
      ScanExtends(p, held, rest, 0);
    }
  }

  lemma {:induction false} StaleDecodes(p: Text, before: seq<byte>, chunks: seq<seq<byte>>, whole: seq<byte>)
    requires Live(p, before).end.Waiting? && before + Concat(chunks) == whole && NoBlank(p, whole) && Alone(p, whole)
    ensures var passes := Passes(p, false, Live(p, before).end.held, chunks);
            Live(p, whole) == Pass(Live(p, before).out + passes.out, passes.end)
    decreases |chunks|
  {
    hide Live, Stale, NoBlank, Alone;
    if chunks == [] {
      assert before + Concat(chunks) == before;
    } else {
      var more := before + chunks[0];
      assert more + Concat(chunks[1..]) == whole;
      StalePass(p, before, chunks[0], whole);
      LiveAppend(p, before, chunks[0]);
      var b := Live(p, before).end.held + chunks[0];
      if Stale(p, b, |b|) == Live(p, b) {
        if Live(p, more).end.Waiting? {
          StaleDecodes(p, more, chunks[1..], whole);
        } else {
          LiveStops(p, more, Concat(chunks[1..]));
        }
      }
    }
  }

  /** A message and one byte more: there the reader as it is goes past the end. */
  lemma OneByteMore(p: Text, whole: seq<byte>)
    requires Complete(p, whole) && !BlankHead(p, whole) && Scan(p, whole, 0, |whole|).size < |whole|
    ensures var k := Scan(p, whole, 0, |whole|).size + 1;
            Stale(p, whole[..k], k) == Pass([Front(p, whole)], Overran)
  {
    hide Live, Stale, Scan, BlankHead;
    var s := Scan(p, whole, 0, |whole|).size;
    var b := whole[..s + 1];
    MessageAlone(p, whole, s + 1);
    SameFrontIn(p, whole, s + 1);
    LiveCut(p, b);
    OneByteQuiet(p, b[s..]);
    StaleOverruns(p, b);
  }

  lemma OneByteQuiet(p: Text, b: seq<byte>)
    requires |b| == 1
    ensures Scan(p, b, 0, |b|).Missing? && Live(p, b) == Pass([], Waiting(b))
  {
  }

  /** The reader as it is decodes a stream under every chunking exactly when no head in it leaves its length blank for
      the body to fill in, and nothing follows a first message. */
  lemma StaleTameIff(p: Text, whole: seq<byte>)
    ensures Tame(p, false, whole) <==> NoBlank(p, whole) && Alone(p, whole)
  {
    hide Live, Stale, Passes, Scan;
    if !NoBlank(p, whole) {
      hide NoBlank;
      var k := BlankCut(p, whole);
      StaleAgreesIff(p, whole[..k]);
      CutInTwo(p, false, whole, k);
    } else if !Alone(p, whole) {
      NothingAlone(p, whole);
      OneByteMore(p, whole);
      CutInTwo(p, false, whole, Scan(p, whole, 0, |whole|).size + 1);
    } else {
      NothingHeld(p);
      hide NoBlank, Alone;
      forall chunks: seq<seq<byte>> | Concat(chunks) == whole
        ensures Passes(p, false, [], chunks) == Live(p, whole)
      {
        assert [] + Concat(chunks) == whole;
        StaleDecodes(p, [], chunks, whole);
        NothingThen([], Passes(p, false, [], chunks));
      }
    }
  }

  /** Where more follows a message there is a first message, and a byte behind it. */
  lemma NothingAlone(p: Text, whole: seq<byte>)
    requires !Alone(p, whole)
    ensures Complete(p, whole) && Scan(p, whole, 0, |whole|).size < |whole|
    ensures Live(p, whole) != Pass([Front(p, whole)], Overran)
  {
    hide Live, Scan;
    LiveCut(p, whole);
    StoppedAt(p, whole);
    NothingHeld(p);
    assert whole[|whole|..] == [];
  }

  /** For a stream that leaves the decoder waiting: it is one message at most, ended by its last byte. */
  lemma AloneIff(p: Text, whole: seq<byte>)
    requires Live(p, whole).end.Waiting?
    ensures Alone(p, whole) <==> OneAtMost(p, whole)
  {
    hide Live;
  }

  // ----- printed messages

  /** A printed message has a length that its head suffices to read. */
  lemma {:induction false} PipelineNoBlank(ms: seq<H.Sent>)
    requires forall s | s in ms :: H.Plain(s.head) && |s.contents| <= MAX_CONTENT
    ensures NoBlank(Http, H.Stream(ms))
  {
    hide Live, H.Announce, H.Plain, NoBlank, Scan;
    if ms == [] {
      EmptyNoBlank(Http);
    } else {
      assert ms[0] in ms;
      var head, contents := ms[0].head, ms[0].contents;
      var m := H.Announce(head, contents);
      forall k | 0 <= k <= |m|
        ensures Live(Http, m[..k]).end.Waiting?
      {
        H.RoundTrip(head, contents, k);
      }
      PrintedComplete(head, contents);
      PipelineNoBlank(ms[1..]);
      NoBlankFront(Http, m, H.Stream(ms[1..]));
    }
  }

  lemma EmptyNoBlank(p: Text)
    ensures NoBlank(p, [])
  {
  }

  lemma PrintedComplete(head: seq<byte>, contents: seq<byte>)
    requires H.Plain(head) && |contents| <= MAX_CONTENT
    ensures var m := H.Announce(head, contents); Complete(Http, m) && Scan(Http, m, 0, |m|).size == |m|
  {
    var m := H.Announce(head, contents);
    H.ScanPrefix(m, 0, head, contents);
    hide Scan;
  }

  /** Printed messages back to back are decoded under every chunking with the renewed bound; with the bound as it is only
      one at a time. */
  lemma PipelineTameIff(ms: seq<H.Sent>)
    requires forall s | s in ms :: H.Plain(s.head) && |s.contents| <= MAX_CONTENT
    ensures Live(Http, H.Stream(ms)) == Pass(H.Arrived(ms), Waiting([]))
    ensures Tame(Http, true, H.Stream(ms))
    ensures Tame(Http, false, H.Stream(ms)) <==> |ms| <= 1
  {
    hide Live, H.Stream, NoBlank, Tame, H.Plain;
    H.PipelineRoundTrip(ms);
    PipelineNoBlank(ms);
    LiveTameIff(Http, H.Stream(ms));
    StaleTameIff(Http, H.Stream(ms));
    AsManyArrive(ms);
  }

  lemma {:induction false} AsManyArrive(ms: seq<H.Sent>)
    ensures |H.Arrived(ms)| == |ms|
  {
    if ms != [] {
      AsManyArrive(ms[1..]);
    }
  }

  // ----- a length left blank

  /** "content-length:", a blank line, "3xy". */
  const BLANK: seq<byte> := TARGET + [CR, LF, CR, LF] + [51, 120, 121]

  /** The first 20 bytes. */
  ghost predicate BlankStart(b: seq<byte>) {
    20 <= |b| && b[..15] == TARGET && b[15..20] == [CR, LF, CR, LF, 51]
  }

  lemma TargetPlain(t: nat)
    requires t < |TARGET|
    ensures Lower(TARGET[t]) == TARGET[t] && !Eol(TARGET[t])
  {
  }

  lemma BlankHeadFound(b: seq<byte>)
    requires BlankStart(b)
    ensures Search(b, 0, 15) == 0 && FirstHead(Http, b, 15) && LeavesBlank(b, 15)
    ensures Stoi(b, 15) == MoreDigits(b, 20, 3)
  {
    var x := b[15..20];
    assert b[15] == x[0] && b[16] == x[1] && b[17] == x[2] && b[18] == x[3] && b[19] == x[4];
    assert Eols(b, 19, 0) == Yes && Eols(b, 18, 1) == Yes && Eols(b, 17, 2) == Yes && Eols(b, 16, 3) == Yes;
    assert Stoi(b, 15) == Stoi(b, 16) == Stoi(b, 17) == Stoi(b, 18) == Stoi(b, 19) == MoreDigits(b, 19, 0);
    hide Stoi, Lower, Eol;
    forall t | 0 <= t < |TARGET|
      ensures Lower(b[0 + t]) == TARGET[t] && LookAt(Http, b, t) == No
    {
      assert b[t] == b[..15][t];
      TargetPlain(t);
    }
    assert Matches(b, 0);
  }

  lemma BlankScan()
    ensures BlankAt(Http, BLANK, 15)
    ensures Scan(Http, BLANK, 0, |BLANK|) == At(22, 19, 22)
    ensures Scan(Http, BLANK[..20], 0, 20) == Overrun
  {
    var b, a := BLANK, BLANK[..20];
    BlankParts();
    BlankHeadFound(b);
    BlankHeadFound(a);
    hide Scan, LookAt, LeavesBlank, Matches, Stoi, Search;
    ScanAtHead(Http, b, 0, 15);
    ScanAtHead(Http, a, 0, 15);
  }

  lemma BlankParts()
    ensures |BLANK| == 22 && BlankStart(BLANK) && BlankStart(BLANK[..20])
    ensures BLANK[20] == 120
  {
    var b, a := BLANK, BLANK[..20];
    assert a[..15] == b[..15] == TARGET && a[15..20] == b[15..20] == [CR, LF, CR, LF, 51];
  }

  /** One message, ended by its last byte, and still no reader decodes it under every chunking: cut after the 3, the
      number in the body runs out and nothing is handed out, whichever bound is used. */
  lemma BlankLengthMisread(live: bool)
    ensures Live(Http, BLANK) == Pass([Message(BLANK, [51, 120, 121])], Waiting([])) && Alone(Http, BLANK)
    ensures !NoBlank(Http, BLANK) && !Tame(Http, live, BLANK)
    ensures Passes(Http, live, [], [BLANK[..20], BLANK[20..]]) == Pass([], Overran)
  {
    hide Scan, LookAt, LeavesBlank;
    BlankScan();
    LiveCut(Http, BLANK);
    NothingHeld(Http);
    assert BLANK[22..] == [] && BLANK[..22] == BLANK && BLANK[19..22] == [51, 120, 121];
    StoppedAt(Http, BLANK[..20]);
    StaleAgreesIff(Http, BLANK[..20]);
    hide Live;
    CutInTwo(Http, live, BLANK, 20);
  }
}
