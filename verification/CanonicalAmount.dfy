/** The decimal normal form of regression/src/oracles/outcome.ts, lines 127-133. */
module CanonicalAmount {
  import opened Text

  /** The tokens the oracle's search finds: digits, or digits, a point and digits. */
  predicate IsToken(s: string) {
    var parts := Split(s, '.');
    |parts| <= 2 && forall k :: 0 <= k < |parts| ==> parts[k] != "" && AllDigits(parts[k])
  }

  /** `replace(/^0+(?=\d)/, '')` */
  function StripLeading(s: string): (r: string)
    ensures |r| <= |s|
  {
    if |s| >= 2 && s[0] == '0' && IsDigit(s[1]) then StripLeading(s[1..]) else s
  }

  /** `replace(/0+$/, '')` */
  function StripTrailing(s: string): (r: string)
    ensures |r| <= |s|
  {
    if s != "" && s[|s| - 1] == '0' then StripTrailing(s[..|s| - 1]) else s
  }

  function IntRaw(token: string): string { Split(token, '.')[0] }

  function FracRaw(token: string): string { if |Split(token, '.')| > 1 then Split(token, '.')[1] else "" }

  function OrZero(s: string): string { if s == "" then "0" else s }

  function Canonical(token: string): string {
    var intPart := OrZero(StripLeading(IntRaw(token)));
    var frac := StripTrailing(FracRaw(token));
    if |frac| == 0 then intPart else intPart + ['.'] + frac
  }

  // ---- The number a token denotes ----

  function FracValue(s: string): (r: real)
    requires AllDigits(s)
    ensures 0.0 <= r < 1.0
  {
    if s == "" then 0.0 else (DigitOf(s[0]) as real + FracValue(s[1..])) / 10.0
  }

  lemma TokenParts(token: string)
    requires IsToken(token)
    ensures AllDigits(IntRaw(token)) && IntRaw(token) != "" && AllDigits(FracRaw(token))
  {
  }

  function Value(token: string): real
    requires IsToken(token)
  {
    TokenParts(token);
    Number(IntRaw(token)) as real + FracValue(FracRaw(token))
  }

  // ---- Stripping keeps the value ----

  lemma {:induction false} LeadingZero(s: string)
    requires AllDigits(s) && s != "" && s[0] == '0'
    ensures Number(s) == Number(s[1..])
  {
    if |s| == 1 {
      assert s[..0] == "" && s[1..] == "";
    } else {
      LeadingZero(s[..|s| - 1]);
      assert s[..|s| - 1][1..] == s[1..][..|s| - 2];
    }
  }

  /** Digits without a needless zero in front. */
  predicate IsShortInt(s: string) {
    s != "" && AllDigits(s) && (|s| > 1 ==> s[0] != '0')
  }

  lemma {:induction false} StripLeadingKeeps(s: string)
    requires AllDigits(s) && s != ""
    ensures IsShortInt(StripLeading(s)) && Number(StripLeading(s)) == Number(s)
  {
    if |s| >= 2 && s[0] == '0' {
      StripLeadingKeeps(s[1..]);
      LeadingZero(s);
    }
  }

  lemma {:induction false} TrailingZero(s: string)
    requires AllDigits(s) && s != "" && s[|s| - 1] == '0'
    ensures FracValue(s) == FracValue(s[..|s| - 1])
  {
    if |s| == 1 {
      assert s[..0] == "" && s[1..] == "";
    } else {
      TrailingZero(s[1..]);
      assert s[1..][..|s| - 2] == s[..|s| - 1][1..];
    }
  }

  /** Digits without a needless zero at the end. */
  predicate IsShortFrac(s: string) {
    AllDigits(s) && (s != "" ==> s[|s| - 1] != '0')
  }

  lemma {:induction false} StripTrailingKeeps(s: string)
    requires AllDigits(s)
    ensures IsShortFrac(StripTrailing(s)) && FracValue(StripTrailing(s)) == FracValue(s)
  {
    if s != "" && s[|s| - 1] == '0' {
      StripTrailingKeeps(s[..|s| - 1]);
      TrailingZero(s);
    }
  }

  // ---- Short digits are told apart by their value ----

  lemma {:induction false} LongIntIsTenOrMore(s: string)
    requires IsShortInt(s) && |s| >= 2
    ensures Number(s) >= 10
  {
    var front := s[..|s| - 1];
    if |s| == 2 {
      assert front[..0] == "" && front[0] == s[0];
    } else {
      LongIntIsTenOrMore(front);
    }
  }

  lemma {:induction false} ShortIntIsUnique(s: string, t: string)
    requires IsShortInt(s) && IsShortInt(t) && Number(s) == Number(t)
    ensures s == t
  {
    if |s| == 1 || |t| == 1 {
      if |s| > 1 {
        LongIntIsTenOrMore(s);
      }
      if |t| > 1 {
        LongIntIsTenOrMore(t);
      }
      assert |s| == 1 ==> s[..0] == "";
      assert |t| == 1 ==> t[..0] == "";
    } else {
      ShortIntIsUnique(s[..|s| - 1], t[..|t| - 1]);
      assert s == s[..|s| - 1] + [s[|s| - 1]] && t == t[..|t| - 1] + [t[|t| - 1]];
    }
  }

  lemma {:induction false} ShortFracIsPositive(s: string)
    requires IsShortFrac(s) && s != ""
    ensures FracValue(s) > 0.0
  {
    if |s| > 1 {
      ShortFracIsPositive(s[1..]);
    }
  }

  lemma WholeAndPart(a: int, x: real, b: int, y: real)
    requires 0.0 <= x < 1.0 && 0.0 <= y < 1.0 && a as real + x == b as real + y
    ensures a == b && x == y
  {
  }

  lemma {:induction false} ShortFracIsUnique(s: string, t: string)
    requires IsShortFrac(s) && IsShortFrac(t) && FracValue(s) == FracValue(t)
    ensures s == t
  {
    if s == "" || t == "" {
      if s != "" {
        ShortFracIsPositive(s);
      }
      if t != "" {
        ShortFracIsPositive(t);
      }
    } else {
      WholeAndPart(DigitOf(s[0]), FracValue(s[1..]), DigitOf(t[0]), FracValue(t[1..]));
      ShortFracIsUnique(s[1..], t[1..]);
      assert s == [s[0]] + s[1..] && t == [t[0]] + t[1..];
    }
  }

  // ---- The normal form ----

  /** The normal form is a token of the same value whose parts have no needless zeros. */
  lemma CanonicalKeepsValue(token: string)
    requires IsToken(token)
    ensures IsToken(Canonical(token)) && Value(Canonical(token)) == Value(token)
    ensures IsShortInt(IntRaw(Canonical(token))) && IsShortFrac(FracRaw(Canonical(token)))
    ensures IntRaw(Canonical(token)) == StripLeading(IntRaw(token)) && FracRaw(Canonical(token)) == StripTrailing(FracRaw(token))
  {
    TokenParts(token);
    StripLeadingKeeps(IntRaw(token));
    StripTrailingKeeps(FracRaw(token));
    hide Value, IntRaw, FracRaw, IsToken, StripLeading, StripTrailing, Number, FracValue;
    Assembled(StripLeading(IntRaw(token)), StripTrailing(FracRaw(token)));
    ValueOfParts(token);
    ValueOfParts(Canonical(token));
  }

  lemma ValueOfParts(token: string)
    requires IsToken(token)
    ensures AllDigits(IntRaw(token)) && AllDigits(FracRaw(token))
    ensures Value(token) == Number(IntRaw(token)) as real + FracValue(FracRaw(token))
  {
    TokenParts(token);
  }

  lemma Assembled(whole: string, frac: string)
    requires AllDigits(whole) && whole != "" && AllDigits(frac)
    ensures var token := if |frac| == 0 then whole else whole + ['.'] + frac;
            IsToken(token) && IntRaw(token) == whole && FracRaw(token) == frac
  {
    NoPoint(whole);
    NoPoint(frac);
    if frac == "" {
      SplitOfFree(whole, '.');
    } else {
      SplitAppend(whole, '.', frac);
      SplitOfFree(frac, '.');
    }
  }

  lemma NoPoint(s: string)
    requires AllDigits(s)
    ensures '.' !in s
  {
  }

  /** The form is determined by its two parts. */
  lemma PartsTell(s: string, t: string)
    requires IsToken(s) && IsToken(t)
    requires IntRaw(s) == IntRaw(t) && FracRaw(s) == FracRaw(t)
    ensures s == t
  {
    assert Split(s, '.') == if FracRaw(s) == "" then [IntRaw(s)] else [IntRaw(s), FracRaw(s)];
    assert Split(t, '.') == if FracRaw(t) == "" then [IntRaw(t)] else [IntRaw(t), FracRaw(t)];
    SplitInjective(s, t, '.');
  }

  /** Two tokens have the same normal form exactly when they denote the same number. */
  lemma SameFormMeansSameNumber(a: string, b: string)
    requires IsToken(a) && IsToken(b)
    ensures Canonical(a) == Canonical(b) <==> Value(a) == Value(b)
  {
    CanonicalKeepsValue(a);
    CanonicalKeepsValue(b);
    if Value(a) == Value(b) {
      var s, t := Canonical(a), Canonical(b);
      hide Canonical, IsToken;
      WholeAndPart(Number(IntRaw(s)), FracValue(FracRaw(s)), Number(IntRaw(t)), FracValue(FracRaw(t)));
      ShortIntIsUnique(IntRaw(s), IntRaw(t));
      ShortFracIsUnique(FracRaw(s), FracRaw(t));
      PartsTell(s, t);
    }
  }

  lemma CanonicalIsIdempotent(token: string)
    requires IsToken(token)
    ensures Canonical(Canonical(token)) == Canonical(token)
  {
    CanonicalKeepsValue(token);
    SameFormMeansSameNumber(Canonical(token), token);
  }

  /** No token of the same number is shorter. */
  lemma CanonicalIsShortest(token: string, other: string)
    requires IsToken(token) && IsToken(other) && Value(token) == Value(other)
    ensures |Canonical(token)| <= |other|
  {
    SameFormMeansSameNumber(token, other);
    CanonicalKeepsValue(other);
    LengthOfToken(other);
    LengthOfToken(Canonical(other));
  }

  lemma LengthOfToken(token: string)
    requires IsToken(token)
    ensures |token| == |IntRaw(token)| + if FracRaw(token) == "" then 0 else 1 + |FracRaw(token)|
  {
    var parts := Split(token, '.');
    JoinAfterSplit(token, '.');
    if |parts| == 2 {
      assert parts[1..] == [parts[1]];
    }
  }
}
