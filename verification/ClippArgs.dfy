/** The clean-up of command-line arguments before parsing: digits split from their decimal fraction go
    back to it. */
module ClippArgs {
  predicate IsDigit(c: char) {
    '0' <= c <= '9'
  }

  /** ".5" and the like. */
  predicate Fraction(s: string) {
    |s| > 1 && s[0] == '.' && IsDigit(s[1])
  }

  /** Where the digits at the end of `s[..i]` begin. */
  function TrailingDigits(s: string, i: nat): (r: nat)
    requires i <= |s|
    ensures r <= i
  {
    if i > 0 && IsDigit(s[i - 1]) then TrailingDigits(s, i - 1) else i
  }

  predicate IsSign(c: char) {
    c == '+' || c == '-'
  }

  /** Where the number at the end of `s` begins, its sign included. */
  function Cut(s: string): (r: nat)
    ensures r <= |s|
  {
    var first := TrailingDigits(s, |s|);
    if first > 0 && IsSign(s[first - 1]) then first - 1 else first
  }

  predicate AllDigits(s: string) {
    forall i | 0 <= i < |s| :: IsDigit(s[i])
  }

  lemma {:induction false} TrailingAreDigits(s: string, i: nat)
    requires i <= |s|
    ensures var r := TrailingDigits(s, i);
            AllDigits(s[r..i]) && (r > 0 ==> !IsDigit(s[r - 1]))
    decreases i
  {
    if i > 0 && IsDigit(s[i - 1]) {
      TrailingAreDigits(s, i - 1);
      var r := TrailingDigits(s, i - 1);
      assert s[r..i] == s[r..i - 1] + [s[i - 1]];
    }
  }

  /** What is cut off is an optional sign and digits, and nothing more could be cut off. */
  lemma CutIsNumber(s: string)
    ensures var r := Cut(s);
            var sign := if r < |s| && IsSign(s[r]) then 1 else 0;
            && AllDigits(s[r + sign..])
            && (r > 0 && sign == 0 ==> !IsDigit(s[r - 1]) && !IsSign(s[r - 1]))
  {
    TrailingAreDigits(s, |s|);
    var first := TrailingDigits(s, |s|);
    assert s[first..|s|] == s[first..];
  }

  /** One round of the loop. */
  function Mended(args: seq<string>, i: nat): seq<string>
    requires 0 < i < |args|
  {
    if Fraction(args[i]) then
      var cut := Cut(args[i - 1]);
      args[i - 1 := args[i - 1][..cut]][i := args[i - 1][cut..] + args[i]]
    else args
  }

  /** All rounds up to `n`. */
  function Sanitized(args: seq<string>, n: nat): (r: seq<string>)
    requires 0 < n <= |args|
    ensures |r| == |args|
  {
    if n == 1 then args else Mended(Sanitized(args, n - 1), n - 1)
  }

  /** The text of the arguments, joined. */
  function Joined(args: seq<string>): string {
    if args == [] then "" else Joined(args[..|args| - 1]) + args[|args| - 1]
  }

  lemma {:induction false} JoinedSplits(args: seq<string>, k: nat)
    requires k <= |args|
    ensures Joined(args) == Joined(args[..k]) + Joined(args[k..])
    decreases |args|
  {
    if k == |args| {
      assert args[..k] == args && args[k..] == [];
    } else {
      var front := args[..|args| - 1];
      JoinedSplits(front, k);
      assert front[..k] == args[..k] && args[k..][..|args| - k - 1] == front[k..];
    }
  }

  lemma JoinedTwo(a: string, b: string)
    ensures Joined([a, b]) == a + b
  {
    assert [a, b][..1] == [a] && [a][..0] == [];
    assert Joined([a]) == Joined([]) + a;
  }

  lemma Parts(args: seq<string>, i: nat)
    requires 0 < i < |args|
    ensures Joined(args) == Joined(args[..i - 1]) + ((args[i - 1] + args[i]) + Joined(args[i + 1..]))
  {
    hide Joined;
    JoinedSplits(args, i - 1);
    JoinedSplits(args[i - 1..], 2);
    JoinedTwo(args[i - 1], args[i]);
    Slices(args, i);
  }

  lemma Slices(args: seq<string>, i: nat)
    requires 0 < i < |args|
    ensures args[i - 1..][..2] == [args[i - 1], args[i]] && args[i - 1..][2..] == args[i + 1..]
  {
  }

  /** Arguments that differ in two neighbours with the same joined text. */
  lemma SameText(args: seq<string>, others: seq<string>, i: nat)
    requires 0 < i < |args| == |others| && args[i - 1] + args[i] == others[i - 1] + others[i]
    requires args[..i - 1] == others[..i - 1] && args[i + 1..] == others[i + 1..]
    ensures Joined(args) == Joined(others)
  {
    hide Joined;
    Parts(args, i);
    Parts(others, i);
  }

  lemma Regroup(s: string, cut: nat, t: string)
    requires cut <= |s|
    ensures s[..cut] + (s[cut..] + t) == s + t
  {
  }

  /** Moving text from one argument to the next does not change what they say together. */
  lemma MendedKeepsText(args: seq<string>, i: nat)
    requires 0 < i < |args|
    ensures Joined(Mended(args, i)) == Joined(args)
  {
    hide Cut, Fraction, Joined;
    if Fraction(args[i]) {
      Regroup(args[i - 1], Cut(args[i - 1]), args[i]);
      SameText(Mended(args, i), args, i);
    }
  }

  /** The clean-up changes neither the number of arguments nor their joined text. */
  lemma {:induction false} SanitizedKeepsText(args: seq<string>, n: nat)
    requires 0 < n <= |args|
    ensures Joined(Sanitized(args, n)) == Joined(args)
    decreases n
  {
    if n > 1 {
      SanitizedKeepsText(args, n - 1);
      MendedKeepsText(Sanitized(args, n - 1), n - 1);
    }
  }

  /** `sanitize_args`. */
  method SanitizeArgs(args: array<string>)
    modifies args
    ensures args.Length > 0 ==> args[..] == Sanitized(old(args[..]), args.Length)
    ensures Joined(args[..]) == Joined(old(args[..]))
  {
    if args.Length == 0 {
      return;
    }
    for i := 1 to args.Length
      invariant args[..] == Sanitized(old(args[..]), i)
    {
      if Fraction(args[i]) {
        var cut := Cut(args[i - 1]);
        args[i] := args[i - 1][cut..] + args[i];
        args[i - 1] := args[i - 1][..cut];
      }
    }
    SanitizedKeepsText(old(args[..]), args.Length);
  }

  // ----- what is moved

  lemma {:induction false} TrailingAt(s: string, r: nat, i: nat)
    requires r <= i <= |s| && AllDigits(s[r..i]) && (r > 0 ==> !IsDigit(s[r - 1]))
    ensures TrailingDigits(s, i) == r
    decreases i
  {
    if r < i {
      assert IsDigit(s[r..i][i - 1 - r]);
      assert s[r..i - 1] == s[r..i][..i - 1 - r];
      TrailingAt(s, r, i - 1);
    }
  }

  /** An optional sign and digits at the end of `s`, and nothing in front that would belong to them. */
  predicate NumberFrom(s: string, r: nat, signed: bool) {
    && r + (if signed then 1 else 0) <= |s|
    && AllDigits(s[r + (if signed then 1 else 0)..])
    && if signed then IsSign(s[r]) else r > 0 ==> !IsDigit(s[r - 1]) && !IsSign(s[r - 1])
  }

  /** The number at the end is where the text has one. */
  lemma CutAt(s: string, r: nat, signed: bool)
    requires NumberFrom(s, r, signed)
    ensures Cut(s) == r
  {
    var first := r + if signed then 1 else 0;
    assert s[first..|s|] == s[first..];
    TrailingAt(s, first, |s|);
  }

  /** A fraction gets back the number that was split from it, with its sign; the argument in front keeps the rest, and no
      other argument changes. */
  lemma FractionRejoined(args: seq<string>, i: nat, name: string, number: string, signed: bool)
    requires 0 < i < |args| && Fraction(args[i]) && args[i - 1] == name + number && NumberFrom(args[i - 1], |name|, signed)
    ensures Mended(args, i) == args[..i - 1] + [name, number + args[i]] + args[i + 1..]
  {
    CutAt(args[i - 1], |name|, signed);
    assert args[i - 1][..|name|] == name && args[i - 1][|name|..] == number;
    hide Cut, Fraction;
  }

  /** What is not a fraction takes nothing from its neighbour. */
  lemma OthersStay(args: seq<string>, i: nat)
    requires 0 < i < |args| && !Fraction(args[i])
    ensures Mended(args, i) == args
  {
  }

  /** What argument `i` says before the next one takes its number. */
  function Grown(args: seq<string>, i: nat): string
    requires i < |args|
  {
    if 0 < i && Fraction(args[i]) then Grown(args, i - 1)[Cut(Grown(args, i - 1))..] + args[i] else args[i]
  }

  /** The whole clean-up, argument by argument: each grows by its neighbour's number if it is a fraction, and loses its own
      if the next one is. */
  lemma {:induction false} SanitizedAt(args: seq<string>, n: nat, i: nat)
    requires 0 < n <= |args| && i < |args|
    ensures Sanitized(args, n)[i] ==
            if n <= i then args[i]
            else if i + 1 < n && Fraction(args[i + 1]) then Grown(args, i)[..Cut(Grown(args, i))]
            else Grown(args, i)
    decreases n
  {
    hide Cut, Fraction;
    if n > 1 {
      SanitizedAt(args, n - 1, i);
      SanitizedAt(args, n - 1, n - 1);
      SanitizedAt(args, n - 1, n - 2);
    }
  }
}
