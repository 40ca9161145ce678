/** Strings as the source's library functions see them: splitting, joining, searching, trimming. */
module Text {

  datatype Option<+T> = None | Some(value: T)

  /** `s.split(sep)` for a one-character separator, and the same for bytes. */
  function Split<T(==)>(s: seq<T>, sep: T): (parts: seq<seq<T>>)
    ensures |parts| >= 1
  {
    if s == [] then [[]]
    else
      var rest := Split(s[1..], sep);
      if s[0] == sep then [[]] + rest else [[s[0]] + rest[0]] + rest[1..]
  }

  /** `parts.join(sep)` for a one-character separator. */
  function Join(parts: seq<string>, sep: char): string
  {
    if |parts| == 0 then ""
    else if |parts| == 1 then parts[0]
    else parts[0] + [sep] + Join(parts[1..], sep)
  }

  ghost predicate FreeOf(parts: seq<string>, c: char) {
    forall k :: 0 <= k < |parts| ==> c !in parts[k]
  }

  lemma {:induction false} JoinAfterSplit(s: string, sep: char)
    ensures Join(Split(s, sep), sep) == s
  {
    if s != "" {
      JoinAfterSplit(s[1..], sep);
      var rest := Split(s[1..], sep);
      if s[0] == sep {
        assert Split(s, sep)[1..] == rest;
      } else if |rest| > 1 {
        assert Split(s, sep)[1..] == rest[1..];
      }
    }
  }

  lemma {:induction false} SplitOfFree<T>(s: seq<T>, sep: T)
    requires sep !in s
    ensures Split(s, sep) == [s]
  {
    if s != [] {
      SplitOfFree(s[1..], sep);
      assert [s[0]] + s[1..] == s;
    }
  }

  lemma {:induction false} SplitAppend<T>(head: seq<T>, sep: T, tail: seq<T>)
    requires sep !in head
    ensures Split(head + [sep] + tail, sep) == [head] + Split(tail, sep)
  {
    var s := head + [sep] + tail;
    if head == [] {
      assert s[1..] == tail;
    } else {
      SplitAppend(head[1..], sep, tail);
      assert s[1..] == head[1..] + [sep] + tail;
      assert [s[0]] + head[1..] == head;
    }
  }

  lemma {:induction false} SplitAfterJoin(parts: seq<string>, sep: char)
    requires |parts| >= 1 && FreeOf(parts, sep)
    ensures Split(Join(parts, sep), sep) == parts
  {
    if |parts| == 1 {
      SplitOfFree(parts[0], sep);
    } else {
      SplitAfterJoin(parts[1..], sep);
      SplitAppend(parts[0], sep, Join(parts[1..], sep));
    }
  }

  /** The last part of x and the first of y become one. */
  function Joined<T>(x: seq<seq<T>>, y: seq<seq<T>>): seq<seq<T>>
    requires |x| >= 1 && |y| >= 1
  {
    x[..|x| - 1] + [x[|x| - 1] + y[0]] + y[1..]
  }

  lemma {:induction false} SplitJoined<T>(a: seq<T>, b: seq<T>, sep: T)
    ensures Split(a + b, sep) == Joined(Split(a, sep), Split(b, sep))
  {
    if a == [] {
      assert a + b == b;
      NothingJoined(Split(b, sep));
    } else {
      hide Joined;
      SplitJoined(a[1..], b, sep);
      assert (a + b)[1..] == a[1..] + b;
      JoinedLonger(a[0], Split(a[1..], sep), Split(b, sep));
    }
  }

  lemma NothingJoined<T>(parts: seq<seq<T>>)
    requires |parts| >= 1
    ensures Joined([[]], parts) == parts
  {
    assert [] + parts[0] == parts[0];
  }

  lemma JoinedLonger<T>(c: T, x: seq<seq<T>>, y: seq<seq<T>>)
    requires |x| >= 1 && |y| >= 1
    ensures [[]] + Joined(x, y) == Joined([[]] + x, y)
    ensures [[c] + Joined(x, y)[0]] + Joined(x, y)[1..] == Joined([[c] + x[0]] + x[1..], y)
  {
    assert ([[]] + x)[..|x|] == [[]] + x[..|x| - 1];
    var x' := [[c] + x[0]] + x[1..];
    if |x| == 1 {
      assert [c] + (x[0] + y[0]) == [c] + x[0] + y[0];
    } else {
      assert x'[..|x| - 1] == [[c] + x[0]] + x[..|x| - 1][1..];
    }
  }

  lemma {:induction false} LastPartIsFree<T>(s: seq<T>, sep: T)
    ensures sep !in Split(s, sep)[|Split(s, sep)| - 1]
  {
    if s != [] {
      LastPartIsFree(s[1..], sep);
    }
  }

  lemma {:induction false} PartsAreFree(s: string, sep: char)
    ensures FreeOf(Split(s, sep), sep)
  {
    if s != "" {
      PartsAreFree(s[1..], sep);
    }
  }

  /** Splitting loses nothing: two strings with the same parts are the same string. */
  lemma SplitInjective(s: string, t: string, sep: char)
    requires Split(s, sep) == Split(t, sep)
    ensures s == t
  {
    JoinAfterSplit(s, sep);
    JoinAfterSplit(t, sep);
  }

  // ---- Lines of a text that grows ----

  /** The lines ended by a newline, and the rest after the last newline. */
  function Ended(text: string): seq<string> { var parts := Split(text, '\n'); parts[..|parts| - 1] }

  function Unended(text: string): string { var parts := Split(text, '\n'); parts[|parts| - 1] }

  lemma PartsOf(s: string)
    ensures Split(s, '\n') == Ended(s) + [Unended(s)]
  {
  }

  lemma PartsAre(s: string, ended: seq<string>, tail: string)
    requires Split(s, '\n') == ended + [tail]
    ensures Ended(s) == ended && Unended(s) == tail
  {
  }

  /** Splitting a stream in two pieces: the unended rest of the first piece is completed by the second. */
  lemma SplitConcat(a: string, b: string)
    ensures Split(a + b, '\n') == Ended(a) + Split(Unended(a) + b, '\n')
  {
    hide Split;
    SplitJoined(a, b, '\n');
    LastPartIsFree(a, '\n');
    SplitOfFree(Unended(a), '\n');
    SplitJoined(Unended(a), b, '\n');
    assert Split(Unended(a) + b, '\n') == [Unended(a) + Split(b, '\n')[0]] + Split(b, '\n')[1..];
  }

  /** More text ends the lines that the tail and the new text end together. */
  lemma EndedConcat(a: string, b: string)
    ensures Ended(a + b) == Ended(a) + Ended(Unended(a) + b)
    ensures Unended(a + b) == Unended(Unended(a) + b)
  {
    hide Split, Ended, Unended;
    SplitConcat(a, b);
    PartsOf(Unended(a) + b);
    assert Split(a + b, '\n') == Ended(a) + Ended(Unended(a) + b) + [Unended(Unended(a) + b)];
    PartsAre(a + b, Ended(a) + Ended(Unended(a) + b), Unended(Unended(a) + b));
  }

  // ---- Searching and trimming ----

  predicate StartsWith(s: string, prefix: string) {
    prefix <= s
  }

  predicate EndsWith(s: string, suffix: string) {
    |suffix| <= |s| && s[|s| - |suffix|..] == suffix
  }

  /** `s.indexOf(needle, from)`, with None for -1. */
  function IndexOf(s: string, needle: string, from: nat): (r: Option<nat>)
    ensures r.Some? ==> from <= r.value <= |s| && needle <= s[r.value..]
    ensures r.Some? ==> forall k :: from <= k < r.value ==> !(needle <= s[k..])
    ensures r.None? ==> forall k :: from <= k <= |s| ==> !(needle <= s[k..])
    decreases |s| - from
  {
    if from > |s| then None
    else if needle <= s[from..] then Some(from)
    else IndexOf(s, needle, from + 1)
  }

  /** WhiteSpace and LineTerminator of ECMA-262 sections 12.2 and 12.3: what `\s` matches and `trim` removes. */
  predicate IsSpace(c: char) {
    c in {'\t', '\n', '\U{0B}', '\U{0C}', '\r', ' ', '\U{A0}', '\U{FEFF}', '\U{1680}',
          '\U{2028}', '\U{2029}', '\U{202F}', '\U{205F}', '\U{3000}'}
    || '\U{2000}' <= c <= '\U{200A}'
  }

  function TrimStart(s: string): (t: string)
    ensures t != "" ==> !IsSpace(t[0])
    ensures forall c :: c in t ==> c in s
    ensures s != "" && !IsSpace(s[0]) ==> t == s
  {
    if s != "" && IsSpace(s[0]) then TrimStart(s[1..]) else s
  }

  function TrimEnd(s: string): (t: string)
    ensures t <= s
    ensures t != "" ==> !IsSpace(t[|t| - 1])
    ensures s != "" && !IsSpace(s[|s| - 1]) ==> t == s
  {
    if s != "" && IsSpace(s[|s| - 1]) then TrimEnd(s[..|s| - 1]) else s
  }

  /** `s.trim()` */
  function Trim(s: string): (t: string)
    ensures forall c :: c in t ==> c in s
    ensures s != "" && !IsSpace(s[0]) && !IsSpace(s[|s| - 1]) ==> t == s
    ensures t != "" ==> !IsSpace(t[0]) && !IsSpace(t[|t| - 1])
  {
    TrimEnd(TrimStart(s))
  }

  /** The white space of ECMA-262 by code point. */
  lemma SpacesAre(c: char)
    ensures IsSpace(c) <==> (9 <= c as int <= 13 || c as int in {32, 160, 5760, 8232, 8233, 8239, 8287, 12288, 65279} || 8192 <= c as int <= 8202)
  {
  }

  predicate AllSpaces(s: string) { forall k :: 0 <= k < |s| ==> IsSpace(s[k]) }

  lemma {:induction false} TrimStartIs(before: string, s: string)
    requires AllSpaces(before) && (s != "" ==> !IsSpace(s[0]))
    ensures TrimStart(before + s) == s
  {
    if before == "" {
      assert before + s == s;
    } else {
      TrimStartIs(before[1..], s);
      assert (before + s)[1..] == before[1..] + s;
    }
  }

  lemma {:induction false} TrimEndIs(s: string, after: string)
    requires AllSpaces(after) && (s != "" ==> !IsSpace(s[|s| - 1]))
    ensures TrimEnd(s + after) == s
    decreases |after|
  {
    if after == "" {
      assert s + after == s;
    } else {
      TrimEndIs(s, after[..|after| - 1]);
      assert (s + after)[..|s + after| - 1] == s + after[..|after| - 1];
    }
  }

  lemma {:induction false} OnlySpaces(s: string)
    requires AllSpaces(s)
    ensures TrimStart(s) == ""
  {
    if s != "" {
      OnlySpaces(s[1..]);
    }
  }

  /** Trimming removes the white space around a text and nothing else. */
  lemma TrimIs(before: string, s: string, after: string)
    requires AllSpaces(before) && AllSpaces(after) && (s != "" ==> !IsSpace(s[0]) && !IsSpace(s[|s| - 1]))
    ensures Trim(before + s + after) == s
  {
    if s == "" {
      OnlySpaces(before + s + after);
    } else {
      assert before + s + after == before + (s + after);
      TrimStartIs(before, s + after);
      TrimEndIs(s, after);
    }
  }

  predicate IsDigit(c: char) { '0' <= c <= '9' }

  function DigitOf(c: char): (d: nat)
    requires IsDigit(c)
    ensures d < 10
  {
    c as int - '0' as int
  }

  function CharOf(d: nat): (c: char)
    requires d < 10
    ensures IsDigit(c) && DigitOf(c) == d
  {
    ('0' as int + d) as char
  }

  /** `String(n)` of a non-negative integer. */
  function Decimal(n: nat): (s: string)
    ensures s != "" && forall k :: 0 <= k < |s| ==> IsDigit(s[k])
  {
    if n < 10 then [CharOf(n)] else Decimal(n / 10) + [CharOf(n % 10)]
  }

  predicate AllDigits(s: string) { forall k :: 0 <= k < |s| ==> IsDigit(s[k]) }

  /** The number that decimal digits stand for. */
  function Number(s: string): (n: nat)
    requires AllDigits(s)
  {
    if s == "" then 0 else 10 * Number(s[..|s| - 1]) + DigitOf(s[|s| - 1])
  }

  lemma {:induction false} NumberOfDecimal(n: nat)
    ensures Number(Decimal(n)) == n
  {
    if n >= 10 {
      NumberOfDecimal(n / 10);
      assert Decimal(n)[..|Decimal(n)| - 1] == Decimal(n / 10);
    }
  }

  /** `a < b` on strings, which is also the order of `sort()`. */
  predicate Less(a: string, b: string) {
    b != "" && (a == "" || a[0] < b[0] || (a[0] == b[0] && Less(a[1..], b[1..])))
  }

  /** One string is a proper start of the other, or smaller at the first character that differs. */
  ghost predicate DiffersAt(a: string, b: string, k: nat) {
    k <= |a| && k < |b| && a[..k] == b[..k] && (k == |a| || a[k] < b[k])
  }

  lemma {:induction false} LessIff(a: string, b: string)
    ensures Less(a, b) <==> exists k: nat :: DiffersAt(a, b, k)
  {
    if a != "" && b != "" && a[0] == b[0] {
      LessIff(a[1..], b[1..]);
      if Less(a, b) {
        var k: nat :| DiffersAt(a[1..], b[1..], k);
        assert a[..k + 1] == [a[0]] + a[1..][..k] && b[..k + 1] == [b[0]] + b[1..][..k];
        assert DiffersAt(a, b, k + 1);
      }
      if k: nat :| DiffersAt(a, b, k) {
        assert a[1..][..k - 1] == a[..k][1..] && b[1..][..k - 1] == b[..k][1..];
        assert DiffersAt(a[1..], b[1..], k - 1);
      }
    } else {
      assert b != "" && (a == "" || a[0] < b[0]) ==> DiffersAt(a, b, 0);
      assert forall k: nat :: DiffersAt(a, b, k) && k > 0 ==> a[..k][0] == b[..k][0];
    }
  }
}
