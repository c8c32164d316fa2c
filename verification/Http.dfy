/** HTTP messages as `FormatHttpRequest` and `FormatHttpResponse` print them, and their way back through
    the reader (section 6.3 of RFC 9112 for the announced length). */
module Http {
  import opened Bytes
  import opened TextFraming

  /** "HTTP/1.1" */
  const PROTO: seq<byte> := [72, 84, 84, 80, 47, 49, 46, 49]
  const SPACE: seq<byte> := [32]
  const NEWLINE: seq<byte> := [13, 10]

  function Eof(): (r: seq<byte>)
    ensures |r| == 4
  {
    [13, 10, 13, 10]
  }

  /** "Content-Length: " */
  function ContentLength(): (r: seq<byte>)
    ensures |r| == 16
  {
    [67, 111, 110, 116, 101, 110, 116, 45, 76, 101, 110, 103, 116, 104, 58, 32]
  }

  /** `std::to_string`. */
  function ToString(n: nat): (d: seq<byte>)
    ensures d != [] && forall i | 0 <= i < |d| :: Digit(d[i])
  {
    if n < 10 then [48 + n] else ToString(n / 10) + [48 + n % 10]
  }

  /** What both formatters share: the head so far, the announced length, the contents. */
  function Announce(head: seq<byte>, contents: seq<byte>): seq<byte> {
    head + ContentLength() + ToString(|contents|) + Eof() + contents
  }

  function ResponseHead(status: seq<byte>, headers: seq<seq<byte>>): seq<byte> {
    PROTO + SPACE + status + NEWLINE + Concat(headers)
  }

  function RequestHead(command: seq<byte>, path: seq<byte>, headers: seq<seq<byte>>): seq<byte> {
    command + SPACE + path + SPACE + PROTO + NEWLINE + Concat(headers)
  }

  function FormatHttpResponse(status: seq<byte>, contents: seq<byte>, headers: seq<seq<byte>>): seq<byte> {
    Announce(ResponseHead(status, headers), contents)
  }

  function FormatHttpRequest(command: seq<byte>, path: seq<byte>, contents: seq<byte>, headers: seq<seq<byte>>): seq<byte> {
    Announce(RequestHead(command, path, headers), contents)
  }

  /** The head does not end early and announces no length of its own. */
  predicate Plain(head: seq<byte>) {
    && (forall i | 0 <= i && i + 4 <= |head| :: Eols(head, i, 4) == No)
    && (forall j | 0 <= j && j + |TARGET| <= |head| :: !Matches(head, j))
  }

  // ----- decimal numbers

  /** Reading back what was printed. */
  lemma {:induction false} DigitsBack(b: seq<byte>, i: nat, n: nat)
    requires i + |ToString(n)| <= |b| && b[i..i + |ToString(n)|] == ToString(n)
    ensures MoreDigits(b, i, 0) == MoreDigits(b, i + |ToString(n)|, n)
    decreases n
  {
    if n < 10 {
      assert b[i] == ToString(n)[0];
    } else {
      var d := ToString(n / 10);
      assert ToString(n) == d + [48 + n % 10];
      assert b[i..i + |d|] == b[i..i + |d| + 1][..|d|] == d;
      DigitsBack(b, i, n / 10);
      assert b[i + |d|] == b[i..i + |d| + 1][|d|] == 48 + n % 10;
    }
  }

  lemma StoiBack(b: seq<byte>, i: nat, n: nat)
    requires i + 1 + |ToString(n)| < |b| && b[i] == 32
    requires b[i + 1..i + 1 + |ToString(n)|] == ToString(n) && !Digit(b[i + 1 + |ToString(n)|])
    ensures Stoi(b, i) == Value(n)
  {
    DigitsBack(b, i + 1, n);
    assert b[i + 1] == ToString(n)[0];
    assert Stoi(b, i) == Stoi(b, i + 1) == Digits(b, i + 1);
  }

  // ----- the parts of a printed message

  /** Where the head ends. */
  function HeadEnd(head: seq<byte>, contents: seq<byte>): nat {
    |head| + 16 + |ToString(|contents|)|
  }

  /** A prefix of a printed message that includes its head. */
  ghost predicate Opens(b: seq<byte>, head: seq<byte>, contents: seq<byte>) {
    HeadEnd(head, contents) + 4 <= |b| && b <= Announce(head, contents)
  }

  lemma Middle(p: seq<byte>, a: seq<byte>, b: seq<byte>, c: seq<byte>)
    requires p <= a + b + c && |a| + |b| <= |p|
    ensures p[|a|..|a| + |b|] == b
  {
  }

  /** The first `|b|` bytes of a printed message, part by part. */
  ghost predicate PartsAre(b: seq<byte>, head: seq<byte>, contents: seq<byte>) {
    var h, e := |head|, HeadEnd(head, contents);
    && e <= |b| && b[..h] == head && b[h..h + 16] == ContentLength() && b[h + 16..e] == ToString(|contents|)
    && (e + 4 <= |b| ==> b[e..e + 4] == Eof())
  }

  lemma Parts(b: seq<byte>, head: seq<byte>, contents: seq<byte>)
    requires b <= Announce(head, contents) && HeadEnd(head, contents) <= |b|
    ensures PartsAre(b, head, contents)
  {
    hide ToString, Eof, ContentLength;
    FiveParts(b, head, ContentLength(), ToString(|contents|), Eof(), contents);
  }

  lemma FiveParts(p: seq<byte>, a: seq<byte>, b: seq<byte>, c: seq<byte>, d: seq<byte>, e: seq<byte>)
    requires p <= a + b + c + d + e && |a| + |b| + |c| <= |p|
    ensures p[..|a|] == a && p[|a|..|a| + |b|] == b && p[|a| + |b|..|a| + |b| + |c|] == c
    ensures |a| + |b| + |c| + |d| <= |p| ==> p[|a| + |b| + |c|..|a| + |b| + |c| + |d|] == d
  {
    Regroup(a, b, c, d, e);
    InFront(p, a, b + (c + d + e));
    Middle(p, a, b, c + d + e);
    Middle(p, a + b, c, d + e);
    if |a| + |b| + |c| + |d| <= |p| {
      Middle(p, a + b + c, d, e);
    }
  }

  lemma InFront(p: seq<byte>, a: seq<byte>, b: seq<byte>)
    requires p <= a + b && |a| <= |p|
    ensures p[..|a|] == a
  {
  }

  lemma Regroup(a: seq<byte>, b: seq<byte>, c: seq<byte>, d: seq<byte>, e: seq<byte>)
    ensures a + b + c + d + e == a + (b + (c + d + e)) == a + b + (c + d + e) == a + b + c + (d + e)
  {
  }

  /** The first announcement is the printed one: an earlier one would lie in the head, or begin there and
      reach into the printed one, whose first letter occurs only at its beginning. */
  lemma {:induction false} SearchFinds(b: seq<byte>, j: nat, head: seq<byte>, contents: seq<byte>)
    requires Plain(head) && Opens(b, head, contents) && j <= |head|
    ensures Search(b, j, HeadEnd(head, contents)) == |head|
    decreases |head| - j
  {
    hide Matches, Announce, ContentLength, ToString;
    if j == |head| {
      AnnouncementMatches(b, head, contents);
    } else {
      NoMatchBefore(b, j, head, contents);
      SearchFinds(b, j + 1, head, contents);
    }
  }

  /** The letters of the printed announcement, in lower case, are those looked for. */
  lemma Letter(t: nat)
    requires t < |TARGET|
    ensures Lower(ContentLength()[t]) == TARGET[t]
  {
    var c := ContentLength();
    assert c[0] == 67 && c[1] == 111 && c[2] == 110 && c[3] == 116 && c[4] == 101;
    assert c[5] == 110 && c[6] == 116 && c[7] == 45 && c[8] == 76 && c[9] == 101;
    assert c[10] == 110 && c[11] == 103 && c[12] == 116 && c[13] == 104 && c[14] == 58;
    hide ContentLength;
  }

  lemma AnnouncementMatches(b: seq<byte>, head: seq<byte>, contents: seq<byte>)
    requires Opens(b, head, contents)
    ensures Matches(b, |head|)
  {
    Parts(b, head, contents);
    var h := |head|;
    hide ContentLength, Announce, Lower;
    forall t | 0 <= t < |TARGET|
      ensures Lower(b[h + t]) == TARGET[t]
    {
      assert b[h + t] == b[h..h + 16][t];
      Letter(t);
    }
  }

  lemma NoMatchBefore(b: seq<byte>, j: nat, head: seq<byte>, contents: seq<byte>)
    requires Plain(head) && Opens(b, head, contents) && j < |head|
    ensures j + |TARGET| <= |b| && !Matches(b, j)
  {
    Parts(b, head, contents);
    var h := |head|;
    if j + |TARGET| <= h {
      hide Matches, Announce;
      assert b[..h] == head;
      InHead(b, j, head);
    } else {
      assert b[h] == b[h..h + 16][0] == ContentLength()[0];
      hide Matches, Announce, Plain;
      Straddles(b, j, h);
    }
  }

  lemma Straddles(b: seq<byte>, j: nat, h: nat)
    requires j < h < j + |TARGET| <= |b| && b[h] == 67
    ensures !Matches(b, j)
  {
    assert Lower(b[j + (h - j)]) == 99 && TARGET[h - j] != 99;
  }

  lemma InHead(b: seq<byte>, j: nat, head: seq<byte>)
    requires head <= b && j + |TARGET| <= |head| && !Matches(head, j)
    ensures !Matches(b, j)
  {
    if Matches(b, j) {
      forall t | 0 <= t < |TARGET|
        ensures Lower(head[j + t]) == TARGET[t]
      {
        assert head[j + t] == b[j + t];
      }
    }
  }

  lemma AnnouncedRight(b: seq<byte>, head: seq<byte>, contents: seq<byte>)
    requires Plain(head) && Opens(b, head, contents)
    ensures Announced(b, HeadEnd(head, contents)) == if |contents| <= INT_MAX then Value(|contents|) else NoNumber
  {
    SearchFinds(b, 0, head, contents);
    Parts(b, head, contents);
    var h, e := |head|, HeadEnd(head, contents);
    assert b[h + 15] == b[h..h + 16][15] == 32;
    assert b[e] == b[e..e + 4][0] == 13;
    StoiBack(b, h + 15, |contents|);
  }

  /** Before the printed end of the head there is no run of four CR/LF bytes. */
  lemma NoRunBefore(b: seq<byte>, i: nat, head: seq<byte>, contents: seq<byte>)
    requires Plain(head) && b <= Announce(head, contents) && i < HeadEnd(head, contents) && i + 4 <= |b|
    ensures Eols(b, i, 4) == No
  {
    var m, h, e := Announce(head, contents), |head|, HeadEnd(head, contents);
    Parts(m, head, contents);
    if i + 4 <= h {
      assert Eols(head, i, 4) == No;
      assert b[i..i + 4] == m[..h][i..i + 4] == head[i..i + 4];
      EolsSame(b, head, i);
    } else if i < h {
      assert b[h] == m[h..h + 16][0] == 67;
    } else if i < h + 16 {
      assert b[i] == m[h..h + 16][i - h];
    } else {
      assert b[i] == m[h + 16..e][i - h - 16];
    }
  }

  lemma EolsSame(a: seq<byte>, b: seq<byte>, i: nat)
    requires i + 4 <= |a| && i + 4 <= |b| && a[i..i + 4] == b[i..i + 4]
    ensures Eols(a, i, 4) == Eols(b, i, 4)
  {
    var x, y := a[i..i + 4], b[i..i + 4];
    assert x[0] == a[i] && x[1] == a[i + 1] && x[2] == a[i + 2] && x[3] == a[i + 3];
    assert y[0] == b[i] && y[1] == b[i + 1] && y[2] == b[i + 2] && y[3] == b[i + 3];
  }

  lemma RunAtEnd(b: seq<byte>, e: nat)
    requires e + 4 <= |b| && b[e..e + 4] == Eof()
    ensures Eols(b, e, 4) == Yes
  {
    var x := b[e..e + 4];
    assert x[0] == b[e] && x[1] == b[e + 1] && x[2] == b[e + 2] && x[3] == b[e + 3];
  }

  // ----- the scan of a prefix

  /** What a complete printed head leads to. */
  function Printed(e: nat, size: nat): Verdict {
    if size > INT_MAX then Throws else if size > MAX_CONTENT then Refused else At(e + 4 + size, e + 4, e + 4 + size)
  }

  lemma {:induction false} ScanPrefix(b: seq<byte>, i: nat, head: seq<byte>, contents: seq<byte>)
    requires Plain(head) && b <= Announce(head, contents) && i <= HeadEnd(head, contents)
    ensures var e := HeadEnd(head, contents);
            Scan(Http, b, i, |b|) == if |b| < e + 4 then Missing else Printed(e, |contents|)
    decreases HeadEnd(head, contents) - i
  {
    var e := HeadEnd(head, contents);
    hide Announce, Plain, Announced;
    if i + 4 <= |b| {
      if i == e {
        Parts(b, head, contents);
        RunAtEnd(b, e);
        AnnouncedRight(b, head, contents);
      } else {
        NoRunBefore(b, i, head, contents);
        ScanPrefix(b, i + 1, head, contents);
      }
    }
  }

  /** The printed message comes back as one message with exactly the contents, whatever they are; and no
      shorter prefix of it gives anything, or fails. */
  lemma RoundTrip(head: seq<byte>, contents: seq<byte>, k: nat)
    requires Plain(head) && |contents| <= MAX_CONTENT && k <= |Announce(head, contents)|
    ensures var m := Announce(head, contents);
            Live(Http, m[..k]) == if k < |m| then Pass([], Waiting(m[..k])) else Pass([Message(m, contents)], Waiting([]))
  {
    var m, e := Announce(head, contents), HeadEnd(head, contents);
    ScanPrefix(m[..k], 0, head, contents);
    assert |m| == e + 4 + |contents| && m[e + 4..] == contents;
    hide Scan;
    NothingHeld(Http);
    if k == |m| {
      assert m[..k] == m && m[|m|..] == [] && m[e + 4..|m|] == contents;
    }
  }

  /** So on a printed message the bound makes no difference under any chunking. */
  lemma PrintedIsHarmless(head: seq<byte>, contents: seq<byte>)
    requires Plain(head) && |contents| <= MAX_CONTENT
    ensures BoundHarmless(Http, Announce(head, contents))
  {
    var m := Announce(head, contents);
    RoundTrip(head, contents, |m|);
    assert m[..|m|] == m;
    OneMessageHarmless(Http, m);
  }

  lemma ResponseRoundTrip(status: seq<byte>, contents: seq<byte>, headers: seq<seq<byte>>)
    requires Plain(ResponseHead(status, headers)) && |contents| <= MAX_CONTENT
    ensures var m := FormatHttpResponse(status, contents, headers);
            Live(Http, m) == Pass([Message(m, contents)], Waiting([]))
  {
    var m := FormatHttpResponse(status, contents, headers);
    RoundTrip(ResponseHead(status, headers), contents, |m|);
    assert m[..|m|] == m;
  }

  lemma RequestRoundTrip(command: seq<byte>, path: seq<byte>, contents: seq<byte>, headers: seq<seq<byte>>)
    requires Plain(RequestHead(command, path, headers)) && |contents| <= MAX_CONTENT
    ensures var m := FormatHttpRequest(command, path, contents, headers);
            Live(Http, m) == Pass([Message(m, contents)], Waiting([]))
  {
    var m := FormatHttpRequest(command, path, contents, headers);
    RoundTrip(RequestHead(command, path, headers), contents, |m|);
    assert m[..|m|] == m;
  }

  /** The size limit is exact. */
  lemma SizeLimit(head: seq<byte>, contents: seq<byte>)
    requires Plain(head)
    ensures var m := Announce(head, contents);
            Live(Http, m) == Pass([Message(m, contents)], Waiting([])) <==> |contents| <= MAX_CONTENT
  {
    var m := Announce(head, contents);
    ScanPrefix(m, 0, head, contents);
    if |contents| <= MAX_CONTENT {
      RoundTrip(head, contents, |m|);
      assert m[..|m|] == m;
    }
  }

  // ----- pipelining

  datatype Sent = Sent(head: seq<byte>, contents: seq<byte>)

  function Stream(ms: seq<Sent>): seq<byte> {
    if ms == [] then [] else Announce(ms[0].head, ms[0].contents) + Stream(ms[1..])
  }

  function Arrived(ms: seq<Sent>): seq<Message> {
    if ms == [] then [] else [Message(Announce(ms[0].head, ms[0].contents), ms[0].contents)] + Arrived(ms[1..])
  }

  /** With the renewed bound, any number of printed messages back to back come out one by one. */
  lemma {:induction false} PipelineRoundTrip(ms: seq<Sent>)
    requires forall s | s in ms :: Plain(s.head) && |s.contents| <= MAX_CONTENT
    ensures Live(Http, Stream(ms)) == Pass(Arrived(ms), Waiting([]))
  {
    hide Live, Announce, Plain;
    if ms == [] {
      NothingHeld(Http);
    } else {
      var m := Announce(ms[0].head, ms[0].contents);
      assert ms[0] in ms;
      RoundTrip(ms[0].head, ms[0].contents, |m|);
      assert m[..|m|] == m;
      PipelineRoundTrip(ms[1..]);
      LiveAppend(Http, m, Stream(ms[1..]));
      assert [] + Stream(ms[1..]) == Stream(ms[1..]);
    }
  }

  // ----- the first line (section 3 of RFC 9112)

  /** The bytes up to the next space or line break. */
  function Word(b: seq<byte>): seq<byte> {
    if b == [] || b[0] == 32 || Eol(b[0]) then [] else [b[0]] + Word(b[1..])
  }

  /** What comes behind the next word and the byte that ends it. */
  function AfterWord(b: seq<byte>): seq<byte> {
    if b == [] then [] else if b[0] == 32 || Eol(b[0]) then b[1..] else AfterWord(b[1..])
  }

  predicate OneWord(w: seq<byte>) {
    forall c | c in w :: c != 32 && !Eol(c)
  }

  lemma {:induction false} WordOf(w: seq<byte>, rest: seq<byte>)
    requires OneWord(w) && rest != [] && (rest[0] == 32 || Eol(rest[0]))
    ensures Word(w + rest) == w && AfterWord(w + rest) == rest[1..]
    decreases |w|
  {
    var b := w + rest;
    if w == [] {
      assert b == rest;
    } else {
      assert b[0] in w && b[1..] == w[1..] + rest;
      assert forall c | c in w[1..] :: c in w;
      WordOf(w[1..], rest);
    }
  }

  /** A printed request says its command, its path and the protocol, in that order; its headers and the announced length
      come behind. */
  lemma RequestLine(command: seq<byte>, path: seq<byte>, contents: seq<byte>, headers: seq<seq<byte>>)
    requires OneWord(command) && OneWord(path)
    ensures var m := FormatHttpRequest(command, path, contents, headers);
            && Word(m) == command && Word(AfterWord(m)) == path && Word(AfterWord(AfterWord(m))) == PROTO
            && AfterWord(AfterWord(AfterWord(m)))
               == [LF] + (Concat(headers) + (ContentLength() + (ToString(|contents|) + (Eof() + contents))))
  {
    hide Concat, ToString, Word, AfterWord, ContentLength, Eof;
    var tail := Concat(headers) + (ContentLength() + (ToString(|contents|) + (Eof() + contents)));
    var line := PROTO + (NEWLINE + tail);
    RequestParts(command, path, contents, headers);
    WordAndSpace(command, path + (SPACE + line));
    WordAndSpace(path, line);
    assert (NEWLINE + tail)[0] == CR && (NEWLINE + tail)[1..] == [LF] + tail;
    WordOf(PROTO, NEWLINE + tail);
  }

  lemma WordAndSpace(w: seq<byte>, rest: seq<byte>)
    requires OneWord(w)
    ensures Word(w + (SPACE + rest)) == w && AfterWord(w + (SPACE + rest)) == rest
  {
    assert (SPACE + rest)[0] == 32 && (SPACE + rest)[1..] == rest;
    WordOf(w, SPACE + rest);
  }

  /** The parts of a printed request, the first word first. */
  lemma RequestParts(command: seq<byte>, path: seq<byte>, contents: seq<byte>, headers: seq<seq<byte>>)
    ensures FormatHttpRequest(command, path, contents, headers) ==
            command + (SPACE + (path + (SPACE + (PROTO + (NEWLINE +
              (Concat(headers) + (ContentLength() + (ToString(|contents|) + (Eof() + contents)))))))))
  {
    hide Concat, ToString, ContentLength, Eof;
    var h, l, n, e := Concat(headers), ContentLength(), ToString(|contents|), Eof();
    var inner := PROTO + (NEWLINE + (h + (l + (n + (e + contents)))));
    Behind5(PROTO + NEWLINE + h, l, n, e, contents);
    Behind3(PROTO, NEWLINE, h, l + (n + (e + contents)));
    Behind3(command, SPACE, path, SPACE + inner);
    Front(command + SPACE + path + SPACE, PROTO, NEWLINE, h);
    Behind5(command + SPACE + path + SPACE + (PROTO + NEWLINE + h), l, n, e, contents);
    Behind3(command + SPACE + path, SPACE, PROTO + NEWLINE + h, l + (n + (e + contents)));
  }

  lemma Front(a: seq<byte>, b: seq<byte>, c: seq<byte>, d: seq<byte>)
    ensures a + b + c + d == a + (b + c + d)
  {
  }

  lemma Behind3(a: seq<byte>, b: seq<byte>, c: seq<byte>, d: seq<byte>)
    ensures a + b + c + d == a + (b + (c + d))
  {
  }

  lemma Behind5(a: seq<byte>, b: seq<byte>, c: seq<byte>, d: seq<byte>, e: seq<byte>)
    ensures a + b + c + d + e == a + (b + (c + (d + e)))
  {
  }

  /** A printed response says the protocol and then its status, whatever words that has. */
  lemma StatusLine(status: seq<byte>, contents: seq<byte>, headers: seq<seq<byte>>)
    ensures var m := FormatHttpResponse(status, contents, headers);
            && Word(m) == PROTO
            && AfterWord(m)
               == status + (NEWLINE + (Concat(headers) + (ContentLength() + (ToString(|contents|) + (Eof() + contents)))))
  {
    hide Concat, ToString, Word, AfterWord, ContentLength, Eof;
    var tail := status + (NEWLINE + (Concat(headers) + (ContentLength() + (ToString(|contents|) + (Eof() + contents)))));
    assert FormatHttpResponse(status, contents, headers) == PROTO + (SPACE + tail);
    assert (SPACE + tail)[0] == 32 && (SPACE + tail)[1..] == tail;
    WordOf(PROTO, SPACE + tail);
  }
}
