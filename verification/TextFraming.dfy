/** Framing of the two text protocols: FTP commands end at CR LF, an HTTP message ends its head with four
    CR/LF bytes in a row and may announce a body.  A reader scans what it holds after each receive.
    The scan bound is fixed at the receive and not renewed when a message has been cut off the front;
    this file states both that scan and the one with a renewed bound, and when they agree. */
module TextFraming {
  import opened Bytes

  const MAX_CONTENT: nat := 1024 * 1024 * 8
  const INT_MAX: nat := 0x7FFF_FFFF

  const CR: byte := 13
  const LF: byte := 10

  datatype Text = Ftp | Http

  /** What scanning a buffer finds: no end of head, a message of `size` bytes whose body is
      `[from..to]`, a read past the bytes held, a refusal, or an exception. */
  datatype Verdict = Missing | At(size: nat, from: nat, to: nat) | Overrun | Refused | Throws

  // ----- the announced length

  /** "content-length:" */
  const TARGET: seq<byte> := [99, 111, 110, 116, 101, 110, 116, 45, 108, 101, 110, 103, 116, 104, 58]

  function Lower(b: byte): byte {
    if 65 <= b <= 90 then b + 32 else b
  }

  predicate Matches(b: seq<byte>, j: nat)
    requires j + |TARGET| <= |b|
  {
    forall t | 0 <= t < |TARGET| :: Lower(b[j + t]) == TARGET[t]
  }

  /** `std::search` in the first `stop` bytes. */
  function Search(b: seq<byte>, j: nat, stop: nat): (r: nat)
    requires j <= stop <= |b|
    ensures j <= r <= stop && (r != stop ==> r + |TARGET| <= stop)
    decreases stop - j
  {
    if j + |TARGET| > stop then stop
    else if Matches(b, j) then j
    else Search(b, j + 1, stop)
  }

  datatype Number = Value(n: int) | RunsOut | NoNumber

  predicate Space(b: byte) {
    b == 32 || 9 <= b <= 13
  }

  predicate Digit(b: byte) {
    48 <= b <= 57
  }

  /** `std::stoi` on the bytes from `i`: white space, a sign, digits. */
  function Stoi(b: seq<byte>, i: nat): Number
    decreases |b| - i
  {
    if i >= |b| then RunsOut
    else if Space(b[i]) then Stoi(b, i + 1)
    else if b[i] == 45 then
      match Digits(b, i + 1) { case Value(n) => Value(-n) case other => other }
    else if b[i] == 43 then Digits(b, i + 1)
    else Digits(b, i)
  }

  function Digits(b: seq<byte>, i: nat): Number {
    if i >= |b| then RunsOut
    else if !Digit(b[i]) then NoNumber
    else MoreDigits(b, i, 0)
  }

  function MoreDigits(b: seq<byte>, i: nat, acc: nat): Number
    decreases |b| - i
  {
    if i >= |b| then RunsOut
    else if !Digit(b[i]) then Value(acc)
    else MoreDigits(b, i + 1, acc * 10 + (b[i] - 48))
  }

  /** The length announced in the head that ends at `start`. */
  function Announced(b: seq<byte>, start: nat): Number
    requires start <= |b|
  {
    var it := Search(b, 0, start);
    if it == start then Value(0)
    else
      var n := Stoi(b, it + |TARGET|);
      if n.Value? && (n.n > INT_MAX || n.n + INT_MAX + 1 < 0) then NoNumber else n
  }

  // ----- one scan

  predicate Eol(b: byte) {
    b == CR || b == LF
  }

  function Least(p: Text): nat {
    if p.Ftp? then 2 else 4
  }

  datatype Look = Yes | No | Beyond

  /** Are the `n` bytes from `i` all CR or LF?  Looks no further than it has to. */
  function Eols(b: seq<byte>, i: nat, n: nat): Look
    decreases n
  {
    if n == 0 then Yes
    else if i >= |b| then Beyond
    else if Eol(b[i]) then Eols(b, i + 1, n - 1)
    else No
  }

  /** Does a terminator start at `i`? */
  function LookAt(p: Text, b: seq<byte>, i: nat): Look {
    match p
    case Ftp =>
      if i >= |b| then Beyond
      else if b[i] != CR then No
      else if i + 1 >= |b| then Beyond
      else if b[i + 1] == LF then Yes
      else No
    case Http => Eols(b, i, 4)
  }

  /** A terminator at `start`. */
  function Found(p: Text, b: seq<byte>, start: nat): (v: Verdict)
    requires start <= |b|
    ensures !v.Missing?
    ensures v.At? ==> start + Least(p) <= v.size && v.from <= v.to <= v.size
  {
    match p
    case Ftp => At(start + 2, 0, start)
    case Http =>
      match Announced(b, start)
      case Value(n) =>
        // a negative number becomes a huge one when it is stored as a size
        if n < 0 || n > MAX_CONTENT then Refused else At(start + 4 + n, start + 4, start + 4 + n)
      case RunsOut => Overrun
      case NoNumber => Throws
  }

  /** The scan of the bytes held, `b`, from `i` up to the bound `end`. */
  function Scan(p: Text, b: seq<byte>, i: nat, end: nat): (v: Verdict)
    ensures v.At? ==> i + Least(p) <= v.size && v.from <= v.to <= v.size
    decreases end - i
  {
    if i + Least(p) > end then Missing
    else
      match LookAt(p, b, i)
      case Yes => SeenInside(p, b, i); Found(p, b, i)
      case No => Scan(p, b, i + 1, end)
      case Beyond => Overrun
  }

  lemma SeenInside(p: Text, b: seq<byte>, i: nat)
    ensures LookAt(p, b, i) == Yes ==> i + Least(p) <= |b|
    ensures i + Least(p) <= |b| ==> LookAt(p, b, i) != Beyond
  {
    if p.Http? {
      EolsInside(b, i, 4);
    }
  }

  lemma {:induction false} EolsInside(b: seq<byte>, i: nat, n: nat)
    ensures Eols(b, i, n) == Yes ==> i + n <= |b| || n == 0
    ensures i + n <= |b| ==> Eols(b, i, n) != Beyond
    decreases n
  {
    if n > 0 {
      EolsInside(b, i + 1, n - 1);
    }
  }

  // ----- a pass over the bytes held

  datatype Message = Message(whole: seq<byte>, body: seq<byte>)

  /** How a pass ends: with bytes kept for later, or not at all well. */
  datatype Ending = Waiting(held: seq<byte>) | Overran | Refuses | Threw

  datatype Pass = Pass(out: seq<Message>, end: Ending)

  function Stopped(v: Verdict): Ending
    requires !v.At? && !v.Missing?
  {
    match v
    case Overrun => Overran
    case Refused => Refuses
    case Throws => Threw
  }

  function After(m: Message, rest: Pass): Pass {
    Pass([m] + rest.out, rest.end)
  }

  /** The pass with the bound renewed after each message: the decoder of the protocol. */
  function Live(p: Text, b: seq<byte>): Pass
    decreases |b|
  {
    var v := Scan(p, b, 0, |b|);
    match v
    case Missing => Pass([], Waiting(b))
    case At(size, from, to) =>
      if size > |b| then Pass([], Waiting(b))
      else After(Message(b[..size], b[from..to]), Live(p, b[size..]))
    case _ => Pass([], Stopped(v))
  }

  function Resized(b: seq<byte>, size: nat): (r: seq<byte>)
    ensures |r| == size
  {
    if size <= |b| then b[..size] else b + seq(size - |b|, _ => 0)
  }

  /** The pass with the bound `end` of the receive. */
  function Stale(p: Text, b: seq<byte>, end: nat): Pass
    decreases |b|
  {
    var v := Scan(p, b, 0, end);
    match v
    case Missing => Pass([], Waiting(b))
    case At(size, from, to) =>
      if size > end then Pass([], Waiting(b))
      else
        var whole := Resized(b, size);
        var m := Message(whole, whole[from..to]);
        if size < |b| then After(m, Stale(p, b[size..], end)) else Pass([m], Waiting([]))
    case _ => Pass([], Stopped(v))
  }

  // ----- when the two agree

  /** The pass stops well under the bound `end`: nothing is left, or the head of what is left is complete
      and announces more than the bound. */
  predicate Fine(p: Text, ending: Ending, end: nat) {
    ending.Waiting? && ending.held != [] ==>
      var v := Scan(p, ending.held, 0, |ending.held|);
      v.At? && v.size > end
  }

  /** A received buffer on which the stale bound does no harm. */
  predicate Good(p: Text, b: seq<byte>) {
    var pass := Live(p, b);
    pass.out == [] || Fine(p, pass.end, |b|)
  }

  /** Raising the bound beyond the bytes held changes nothing but a failure to find: that becomes a read
      past the end. */
  lemma {:induction false} ScanWider(p: Text, b: seq<byte>, i: nat, end: nat)
    requires i <= |b| <= end
    ensures var v := Scan(p, b, i, |b|);
            Scan(p, b, i, end) == if v.Missing? && end >= |b| + Least(p) then Overrun
                                  else if v.Missing? then Scan(p, b, i, end)
                                  else v
    decreases |b| - i
  {
    hide Found;
    SeenInside(p, b, i);
    if i + Least(p) <= |b| {
      if LookAt(p, b, i) == No {
        ScanWider(p, b, i + 1, end);
      }
    } else if end >= |b| + Least(p) {
      RunsOff(p, b, i, end);
    }
  }

  lemma {:induction false} RunsOff(p: Text, b: seq<byte>, i: nat, end: nat)
    requires i <= |b| < i + Least(p) && |b| + Least(p) <= end
    ensures Scan(p, b, i, end) == Overrun
    decreases |b| - i
  {
    SeenInside(p, b, i);
    if i < |b| {
      RunsOff(p, b, i + 1, end);
    } else {
      assert LookAt(p, b, i) == Beyond;
    }
  }

  /** A complete message in front is cut off by both passes alike. */
  lemma CutOff(p: Text, b: seq<byte>, end: nat) returns (m: Message, size: nat)
    requires |b| == end || |b| + Least(p) <= end
    requires Scan(p, b, 0, |b|).At? && Scan(p, b, 0, |b|).size <= |b|
    ensures size == Scan(p, b, 0, |b|).size && Least(p) <= size
    ensures Live(p, b) == After(m, Live(p, b[size..]))
    ensures Stale(p, b, end) == After(m, if size < |b| then Stale(p, b[size..], end) else Live(p, b[size..]))
  {
    hide Scan;
    ScanWider(p, b, 0, end);
    var v := Scan(p, b, 0, |b|);
    m, size := Message(b[..v.size], b[v.from..v.to]), v.size;
    assert b[..size][v.from..v.to] == b[v.from..v.to];
    if size == |b| {
      NothingHeld(p);
      assert b[size..] == [];
    }
  }

  lemma {:induction false} LaterAgrees(p: Text, b: seq<byte>, end: nat)
    requires b != [] && |b| + Least(p) <= end
    ensures Stale(p, b, end) == Live(p, b) <==> Fine(p, Live(p, b).end, end)
    decreases |b|
  {
    hide Scan;
    var v := Scan(p, b, 0, |b|);
    if v.At? && v.size <= |b| {
      var m, size := CutOff(p, b, end);
      if size < |b| {
        LaterAgrees(p, b[size..], end);
        hide Live, Stale, Fine;
        Peel(m, Stale(p, b[size..], end), Live(p, b[size..]));
      } else {
        NothingHeld(p);
        assert b[size..] == [];
      }
    } else {
      ScanWider(p, b, 0, end);
    }
  }

  lemma Peel(m: Message, a: Pass, b: Pass)
    ensures After(m, a) == After(m, b) <==> a == b
  {
    if After(m, a) == After(m, b) {
      assert a.out == After(m, a).out[1..] == b.out;
    }
  }

  lemma NothingHeld(p: Text)
    ensures Live(p, []) == Pass([], Waiting([]))
  {
  }

  /** The pass the original makes over a received buffer decodes it exactly when the buffer is good. */
  lemma StaleAgreesIff(p: Text, b: seq<byte>)
    ensures Stale(p, b, |b|) == Live(p, b) <==> Good(p, b)
  {
    hide Scan;
    var v := Scan(p, b, 0, |b|);
    if v.At? && v.size <= |b| {
      var m, size := CutOff(p, b, |b|);
      if size < |b| {
        LaterAgrees(p, b[size..], |b|);
        hide Live, Stale, Fine;
        Peel(m, Stale(p, b[size..], |b|), Live(p, b[size..]));
      } else {
        NothingHeld(p);
        assert b[size..] == [];
      }
    }
  }

  // ----- independence of chunking

  lemma {:induction false} EolsExtend(a: seq<byte>, b: seq<byte>, i: nat, n: nat)
    ensures Eols(a, i, n) != Beyond ==> Eols(a + b, i, n) == Eols(a, i, n)
    decreases n
  {
    if n > 0 {
      EolsExtend(a, b, i + 1, n - 1);
    }
  }

  lemma LookExtends(p: Text, a: seq<byte>, b: seq<byte>, i: nat)
    ensures LookAt(p, a, i) != Beyond ==> LookAt(p, a + b, i) == LookAt(p, a, i)
  {
    EolsExtend(a, b, i, 4);
  }

  lemma MatchesExtends(a: seq<byte>, b: seq<byte>, j: nat)
    requires j + |TARGET| <= |a|
    ensures Matches(a + b, j) == Matches(a, j)
  {
  }

  lemma {:induction false} SearchExtends(a: seq<byte>, b: seq<byte>, j: nat, stop: nat)
    requires j <= stop <= |a|
    ensures Search(a + b, j, stop) == Search(a, j, stop)
    decreases stop - j
  {
    hide Matches;
    if j + |TARGET| <= stop {
      MatchesExtends(a, b, j);
      SearchExtends(a, b, j + 1, stop);
    }
  }

  lemma {:induction false} DigitsExtend(a: seq<byte>, b: seq<byte>, i: nat, acc: nat)
    ensures !MoreDigits(a, i, acc).RunsOut? ==> MoreDigits(a + b, i, acc) == MoreDigits(a, i, acc)
    decreases |a| - i
  {
    if i < |a| && Digit(a[i]) {
      DigitsExtend(a, b, i + 1, acc * 10 + (a[i] - 48));
    }
  }

  lemma {:induction false} StoiExtends(a: seq<byte>, b: seq<byte>, i: nat)
    ensures !Stoi(a, i).RunsOut? ==> Stoi(a + b, i) == Stoi(a, i)
    decreases |a| - i
  {
    if i < |a| {
      if Space(a[i]) {
        StoiExtends(a, b, i + 1);
      } else {
        DigitsExtend(a, b, i, 0);
        DigitsExtend(a, b, i + 1, 0);
      }
    }
  }

  lemma {:induction false} ScanExtends(p: Text, a: seq<byte>, b: seq<byte>, i: nat)
    requires !Scan(p, a, i, |a|).Missing? && !Scan(p, a, i, |a|).Overrun?
    ensures Scan(p, a + b, i, |a + b|) == Scan(p, a, i, |a|)
    decreases |a| - i
  {
    LookExtends(p, a, b, i);
    if LookAt(p, a, i) == No {
      ScanExtends(p, a, b, i + 1);
    } else {
      SeenInside(p, a, i);
      SearchExtends(a, b, 0, i);
      StoiExtends(a, b, Search(a, 0, i) + |TARGET|);
    }
  }

  /** The message a scan of `b` found, and the pass over what follows it. */
  function Front(p: Text, b: seq<byte>): Message
    requires Scan(p, b, 0, |b|).At? && Scan(p, b, 0, |b|).size <= |b|
  {
    var v := Scan(p, b, 0, |b|);
    Message(b[..v.size], b[v.from..v.to])
  }

  predicate Complete(p: Text, b: seq<byte>) {
    var v := Scan(p, b, 0, |b|);
    v.At? && v.size <= |b|
  }

  lemma LiveCut(p: Text, b: seq<byte>)
    ensures Complete(p, b) ==> Live(p, b) == After(Front(p, b), Live(p, b[Scan(p, b, 0, |b|).size..]))
    ensures !Complete(p, b) && Live(p, b).end.Waiting? ==> Live(p, b) == Pass([], Waiting(b))
  {
    hide Scan;
  }

  lemma FrontExtends(p: Text, a: seq<byte>, b: seq<byte>)
    requires Complete(p, a)
    ensures Complete(p, a + b) && Front(p, a + b) == Front(p, a)
    ensures (a + b)[Scan(p, a + b, 0, |a + b|).size..] == a[Scan(p, a, 0, |a|).size..] + b
  {
    ScanExtends(p, a, b, 0);
    hide Scan;
    var v := Scan(p, a, 0, |a|);
    assert (a + b)[..v.size] == a[..v.size] && (a + b)[v.from..v.to] == a[v.from..v.to];
  }

  /** More bytes: the messages already decoded stay, and decoding goes on from what was held. */
  lemma {:induction false} LiveAppend(p: Text, a: seq<byte>, b: seq<byte>)
    requires Live(p, a).end.Waiting?
    ensures var rest := Live(p, Live(p, a).end.held + b);
            Live(p, a + b) == Pass(Live(p, a).out + rest.out, rest.end)
    decreases |a|
  {
    hide Scan, Live, Front;
    LiveCut(p, a);
    if Complete(p, a) {
      var size := Scan(p, a, 0, |a|).size;
      FrontExtends(p, a, b);
      LiveCut(p, a + b);
      LiveAppend(p, a[size..], b);
    }
  }

  function Wholes(ms: seq<Message>): seq<seq<byte>> {
    if ms == [] then [] else Wholes(ms[..|ms| - 1]) + [ms[|ms| - 1].whole]
  }

  lemma {:induction false} WholesAppend(a: seq<Message>, b: seq<Message>)
    ensures Wholes(a + b) == Wholes(a) + Wholes(b)
    decreases |b|
  {
    if b == [] {
      assert a + b == a;
    } else {
      WholesAppend(a, b[..|b| - 1]);
      assert (a + b)[..|a + b| - 1] == a + b[..|b| - 1];
    }
  }

  /** Nothing is lost or invented: the messages and what is held are the bytes received. */
  lemma {:induction false} LiveConserves(p: Text, b: seq<byte>)
    requires Live(p, b).end.Waiting?
    ensures Concat(Wholes(Live(p, b).out)) + Live(p, b).end.held == b
    decreases |b|
  {
    hide Scan, Live;
    LiveCut(p, b);
    if Complete(p, b) {
      var size := Scan(p, b, 0, |b|).size;
      LiveConserves(p, b[size..]);
      var m, rest := Front(p, b), Live(p, b[size..]);
      WholesAppend([m], rest.out);
      assert Wholes([m]) == [b[..size]];
      assert ([b[..size]] + Wholes(rest.out))[1..] == Wholes(rest.out);
      assert b == b[..size] + b[size..];
    }
  }

  // ----- streams on which the stale bound is harmless under every chunking

  /** No chunking of `whole` leads the decoder to a buffer that is not good. */
  ghost predicate BoundHarmless(p: Text, whole: seq<byte>) {
    forall j: nat, k: nat | j <= k <= |whole| :: GoodStep(p, whole, j, k)
  }

  /** The buffer held after `j` bytes, with the bytes up to `k` received next. */
  ghost predicate GoodStep(p: Text, whole: seq<byte>, j: nat, k: nat)
    requires j <= k <= |whole|
  {
    var before := Live(p, whole[..j]);
    before.end.Waiting? ==> Good(p, before.end.held + whole[j..k])
  }

  /** A stream with at most one message, complete at its end. */
  predicate OneAtMost(p: Text, whole: seq<byte>) {
    var pass := Live(p, whole);
    pass.end.Waiting? && (pass.out == [] || (|pass.out| == 1 && pass.end.held == []))
  }

  lemma LiveQuiet(p: Text, b: seq<byte>)
    requires Live(p, b).end.Waiting? && Live(p, b).out == []
    ensures Live(p, b).end.held == b
  {
    LiveConserves(p, b);
    assert Wholes([]) == [];
  }

  /** Before its end, such a stream has given no message. */
  lemma QuietBefore(p: Text, whole: seq<byte>, j: nat)
    requires OneAtMost(p, whole) && j <= |whole| && Live(p, whole[..j]).end.Waiting?
    requires j < |whole| || Live(p, whole).out == []
    ensures Live(p, whole[..j]) == Pass([], Waiting(whole[..j]))
  {
    hide Live;
    var before := Live(p, whole[..j]);
    assert whole == whole[..j] + whole[j..];
    LiveAppend(p, whole[..j], whole[j..]);
    if before.out == [] {
      LiveQuiet(p, whole[..j]);
    } else {
      LiveQuiet(p, before.end.held + whole[j..]);
    }
  }

  /** One message at most, and only at the end: then under no chunking the bound makes a difference. */
  lemma OneMessageHarmless(p: Text, whole: seq<byte>)
    requires OneAtMost(p, whole)
    ensures BoundHarmless(p, whole)
  {
    hide Live;
    forall j: nat, k: nat | j <= k <= |whole|
      ensures GoodStep(p, whole, j, k)
    {
      var before := Live(p, whole[..j]);
      if before.end.Waiting? {
        if j < |whole| || Live(p, whole).out == [] {
          QuietBefore(p, whole, j);
          assert before.end.held + whole[j..k] == whole[..k];
          if k < |whole| {
            GoodPrefix(p, whole, k);
          } else {
            assert whole[..k] == whole;
          }
        } else {
          assert whole[..j] == whole;
          assert before.end.held + whole[j..k] == [];
          NothingHeld(p);
        }
      }
    }
  }

  lemma GoodPrefix(p: Text, whole: seq<byte>, k: nat)
    requires OneAtMost(p, whole) && k < |whole|
    ensures Good(p, whole[..k])
  {
    hide Live;
    if Live(p, whole[..k]).end.Waiting? {
      QuietBefore(p, whole, k);
    }
  }

  // ----- what a message is

  /** A scan stops at the first terminator. */
  lemma {:induction false} ScanFinds(p: Text, b: seq<byte>, i: nat, end: nat) returns (start: nat)
    requires end <= |b| && Scan(p, b, i, end).At?
    ensures i <= start && start + Least(p) <= end
    ensures LookAt(p, b, start) == Yes && Found(p, b, start) == Scan(p, b, i, end)
    ensures forall k | i <= k < start :: LookAt(p, b, k) == No
    decreases end - i
  {
    SeenInside(p, b, i);
    start := i;
    if LookAt(p, b, i) == No {
      start := ScanFinds(p, b, i + 1, end);
    }
  }

  lemma {:induction false} ScanMisses(p: Text, b: seq<byte>, i: nat, end: nat)
    requires end <= |b| && Scan(p, b, i, end).Missing?
    ensures forall k | i <= k && k + Least(p) <= end :: LookAt(p, b, k) == No
    decreases end - i
  {
    if i + Least(p) <= end {
      SeenInside(p, b, i);
      ScanMisses(p, b, i + 1, end);
    }
  }

  predicate NoLine(s: seq<byte>) {
    forall i | 0 <= i && i + 2 <= |s| :: LookAt(Ftp, s, i) != Yes
  }

  /** A command: its text, then CR LF, which occur nowhere earlier. */
  predicate Line(m: Message) {
    m.whole == m.body + [CR, LF] && NoLine(m.body + [CR])
  }

  lemma FirstLine(b: seq<byte>)
    requires Complete(Ftp, b)
    ensures Line(Front(Ftp, b))
  {
    var start := ScanFinds(Ftp, b, 0, |b|);
    var m := Front(Ftp, b);
    assert m.whole == b[..start + 2] && m.body == b[..start];
    assert m.whole == m.body + [CR, LF];
    forall i | 0 <= i && i + 2 <= |m.body + [CR]|
      ensures LookAt(Ftp, m.body + [CR], i) != Yes
    {
      assert LookAt(Ftp, b, i) == No;
    }
  }

  /** The FTP decoder cuts a stream at every CR LF and nowhere else: its messages are lines, what it holds
      contains none, and together (`LiveConserves`) they are the stream. */
  lemma {:induction false} FtpLines(b: seq<byte>)
    ensures Live(Ftp, b).end.Waiting? && NoLine(Live(Ftp, b).end.held)
    ensures forall m | m in Live(Ftp, b).out :: Line(m)
    decreases |b|
  {
    FtpWaits(b, 0, |b|);
    LiveCut(Ftp, b);
    if Complete(Ftp, b) {
      FirstLine(b);
      FtpLines(b[Scan(Ftp, b, 0, |b|).size..]);
    } else {
      ScanMisses(Ftp, b, 0, |b|);
    }
  }

  // ----- FTP: the condition is exact

  lemma {:induction false} FtpWaits(b: seq<byte>, i: nat, end: nat)
    requires end <= |b|
    ensures var v := Scan(Ftp, b, i, end); v.Missing? || (v.At? && v.size <= end)
    decreases end - i
  {
    if i + 2 <= end {
      FtpWaits(b, i + 1, end);
    }
  }

  lemma {:induction false} FtpAlwaysWaits(b: seq<byte>)
    ensures Live(Ftp, b).end.Waiting?
    decreases |b|
  {
    FtpWaits(b, 0, |b|);
    hide Scan;
    var v := Scan(Ftp, b, 0, |b|);
    if v.At? {
      FtpAlwaysWaits(b[v.size..]);
    }
  }

  /** The first line is found in any prefix that holds all of it. */
  lemma {:induction false} FtpFirst(b: seq<byte>, i: nat, k: nat)
    requires k <= |b| && Scan(Ftp, b, i, |b|).At? && Scan(Ftp, b, i, |b|).size <= k
    ensures Scan(Ftp, b[..k], i, k) == Scan(Ftp, b, i, |b|)
    decreases |b| - i
  {
    if LookAt(Ftp, b, i) == No {
      FtpFirst(b, i + 1, k);
    }
  }

  /** For FTP the bound makes no difference under any chunking exactly when the stream is at most one command
      line, ended by its last two bytes. */
  lemma FtpHarmlessIff(whole: seq<byte>)
    ensures BoundHarmless(Ftp, whole) <==> OneAtMost(Ftp, whole)
  {
    FtpAlwaysWaits(whole);
    if OneAtMost(Ftp, whole) {
      OneMessageHarmless(Ftp, whole);
    } else {
      var k := FtpHarmed(whole);
      NothingHeld(Ftp);
      hide Live, Good;
      assert whole[..0] == [] && [] + whole[0..k] == whole[..k];
      assert !GoodStep(Ftp, whole, 0, k);
    }
  }

  /** A line and one byte more are enough. */
  lemma FtpHarmed(whole: seq<byte>) returns (k: nat)
    requires Live(Ftp, whole).end.Waiting? && !OneAtMost(Ftp, whole)
    ensures k <= |whole| && !Good(Ftp, whole[..k])
  {
    var v := Scan(Ftp, whole, 0, |whole|);
    FtpWaits(whole, 0, |whole|);
    var s := v.size;
    if s == |whole| {
      EndsWithLine(whole);
    }
    var b := whole[..s + 1];
    FtpFirst(whole, 0, s + 1);
    hide Scan;
    OneByte(b[s..]);
    assert Live(Ftp, b).out != [] && Live(Ftp, b).end == Waiting(b[s..]);
    OneByteMissing(b[s..]);
    k := s + 1;
  }

  lemma EndsWithLine(whole: seq<byte>)
    requires Scan(Ftp, whole, 0, |whole|).At? && Scan(Ftp, whole, 0, |whole|).size == |whole|
    ensures OneAtMost(Ftp, whole)
  {
    hide Scan;
    NothingHeld(Ftp);
    assert whole[|whole|..] == [];
  }

  lemma OneByteMissing(b: seq<byte>)
    requires |b| == 1
    ensures Scan(Ftp, b, 0, |b|).Missing?
  {
  }

  lemma OneByte(b: seq<byte>)
    requires |b| == 1
    ensures Live(Ftp, b) == Pass([], Waiting(b))
  {
  }
}
