/** computeLCS of core/src/utils/diff.ts: the table, the backtrack, and what makes its answer longest. */
module Lcs {

  type Line = string
  type Pair = (nat, nat)

  /** Length of a longest common subsequence of the first i lines of a and the first j lines of b. */
  function Len(a: seq<Line>, b: seq<Line>, i: nat, j: nat): (len: nat)
    requires i <= |a| && j <= |b|
    ensures len <= i && len <= j
    decreases i + j
  {
    if i == 0 || j == 0 then 0
    else if a[i - 1] == b[j - 1] then Len(a, b, i - 1, j - 1) + 1
    else
      var up, left := Len(a, b, i - 1, j), Len(a, b, i, j - 1);
      if up >= left then up else left
  }

  /** A common subsequence, as the index pairs of its elements: strictly increasing on both sides. */
  ghost predicate IsCommon(a: seq<Line>, b: seq<Line>, ms: seq<Pair>) {
    && (forall k :: 0 <= k < |ms| ==> ms[k].0 < |a| && ms[k].1 < |b| && a[ms[k].0] == b[ms[k].1])
    && (forall j, k :: 0 <= j < k < |ms| ==> ms[j].0 < ms[k].0 && ms[j].1 < ms[k].1)
  }

  ghost predicate Within(ms: seq<Pair>, i: nat, j: nat) {
    forall k :: 0 <= k < |ms| ==> ms[k].0 < i && ms[k].1 < j
  }

  /** No common subsequence of the two prefixes is longer than Len. */
  lemma {:induction false} LenIsUpperBound(a: seq<Line>, b: seq<Line>, i: nat, j: nat, ms: seq<Pair>)
    requires i <= |a| && j <= |b|
    requires IsCommon(a, b, ms) && Within(ms, i, j)
    ensures |ms| <= Len(a, b, i, j)
    decreases i + j
  {
    if ms != [] {
      var front, last := ms[..|ms| - 1], ms[|ms| - 1];
      assert last.0 < i && last.1 < j;
      if a[i - 1] == b[j - 1] {
        LenIsUpperBound(a, b, i - 1, j - 1, front);
      } else if last.0 < i - 1 {
        LenIsUpperBound(a, b, i - 1, j, ms);
      } else {
        LenIsUpperBound(a, b, i, j - 1, ms);
      }
    }
  }

  /** The pairs the backtrack collects from cell (i, j): on a tie it moves left in `after`. */
  function Backtrack(a: seq<Line>, b: seq<Line>, i: nat, j: nat): (ms: seq<Pair>)
    requires i <= |a| && j <= |b|
    decreases i + j
  {
    if i == 0 || j == 0 then []
    else if a[i - 1] == b[j - 1] then Backtrack(a, b, i - 1, j - 1) + [(i - 1, j - 1)]
    else if Len(a, b, i - 1, j) > Len(a, b, i, j - 1) then Backtrack(a, b, i - 1, j)
    else Backtrack(a, b, i, j - 1)
  }

  /** A longest common subsequence of the prefixes of lengths i and j. */
  ghost predicate IsBest(a: seq<Line>, b: seq<Line>, ms: seq<Pair>, i: nat, j: nat)
    requires i <= |a| && j <= |b|
  {
    IsCommon(a, b, ms) && Within(ms, i, j) && |ms| == Len(a, b, i, j)
  }

  lemma BestExtends(a: seq<Line>, b: seq<Line>, ms: seq<Pair>, i: nat, j: nat)
    requires i < |a| && j < |b| && a[i] == b[j]
    requires IsBest(a, b, ms, i, j)
    ensures IsBest(a, b, ms + [(i, j)], i + 1, j + 1)
  {
  }

  lemma BestWidens(a: seq<Line>, b: seq<Line>, ms: seq<Pair>, i: nat, j: nat, i': nat, j': nat)
    requires i <= i' <= |a| && j <= j' <= |b| && Len(a, b, i, j) == Len(a, b, i', j')
    requires IsBest(a, b, ms, i, j)
    ensures IsBest(a, b, ms, i', j')
  {
  }

  /** The backtrack yields a common subsequence whose length is the table's entry. */
  lemma {:induction false} BacktrackIsBest(a: seq<Line>, b: seq<Line>, i: nat, j: nat)
    requires i <= |a| && j <= |b|
    ensures IsBest(a, b, Backtrack(a, b, i, j), i, j)
    decreases i + j
  {
    if i == 0 || j == 0 {
    } else if a[i - 1] == b[j - 1] {
      BacktrackIsBest(a, b, i - 1, j - 1);
      BestExtends(a, b, Backtrack(a, b, i - 1, j - 1), i - 1, j - 1);
    } else if Len(a, b, i - 1, j) > Len(a, b, i, j - 1) {
      BacktrackIsBest(a, b, i - 1, j);
      BestWidens(a, b, Backtrack(a, b, i - 1, j), i - 1, j, i, j);
    } else {
      BacktrackIsBest(a, b, i, j - 1);
      BestWidens(a, b, Backtrack(a, b, i, j - 1), i, j - 1, i, j);
    }
  }

  lemma {:induction false} LastMatchIsTaken(a: seq<Line>, b: seq<Line>, i: nat, j: nat)
    requires i <= |a| && j <= |b| && Backtrack(a, b, i, j) != []
    ensures var taken := Backtrack(a, b, i, j);
            var last := taken[|taken| - 1];
            last.0 < i && last.1 < j && taken[..|taken| - 1] == Backtrack(a, b, last.0, last.1)
    decreases i + j
  {
    if a[i - 1] == b[j - 1] {
    } else if Len(a, b, i - 1, j) > Len(a, b, i, j - 1) {
      LastMatchIsTaken(a, b, i - 1, j);
    } else {
      LastMatchIsTaken(a, b, i, j - 1);
    }
  }

  /** A longest common subsequence that ends in the last row and not in the last column fits into fewer columns. */
  lemma EndsInRow(a: seq<Line>, b: seq<Line>, i: nat, j: nat, ms: seq<Pair>)
    requires 0 < i <= |a| && 0 < j <= |b| && a[i - 1] != b[j - 1] && ms != [] && IsBest(a, b, ms, i, j)
    requires ms[|ms| - 1].0 == i - 1 || ms[|ms| - 1].1 < j - 1
    ensures |ms| <= Len(a, b, i, j - 1) && Within(ms, i, j - 1)
  {
    hide Len;
    var last := ms[|ms| - 1];
    assert last.1 < j - 1 by {
      assert a[last.0] == b[last.1] && last.1 < j;
    }
    LenIsUpperBound(a, b, i, j - 1, ms);
  }

  lemma EndsAbove(a: seq<Line>, b: seq<Line>, i: nat, j: nat, ms: seq<Pair>)
    requires 0 < i <= |a| && j <= |b| && ms != [] && IsBest(a, b, ms, i, j) && ms[|ms| - 1].0 < i - 1
    ensures Within(ms, i - 1, j) && |ms| <= Len(a, b, i - 1, j)
  {
    hide Len;
    LenIsUpperBound(a, b, i - 1, j, ms);
  }

  /** What ends further down on the left side and not in the last column cannot be a longest one. */
  lemma EndsNoHigher(a: seq<Line>, b: seq<Line>, i: nat, j: nat, ms: seq<Pair>, other: seq<Pair>)
    requires 0 < i <= |a| && 0 < j <= |b| && ms != [] && other != [] && |ms| == |other|
    requires IsBest(a, b, ms, i, j) && ms[|ms| - 1].1 == j - 1 && IsCommon(a, b, other) && Within(other, i, j - 1)
    ensures ms[|ms| - 1].0 <= other[|other| - 1].0
  {
    hide Len;
    var last := ms[|ms| - 1];
    if other[|other| - 1].0 < last.0 {
      LenIsUpperBound(a, b, i, j, other + [last]);
    }
  }

  /** Which longest common subsequence is taken: no other one ends further down in `a`. By `LastMatchIsTaken` this holds again
      for the matches before any match, which are those taken for the two prefixes above it. */
  lemma {:induction false} LastMatchIsLatest(a: seq<Line>, b: seq<Line>, i: nat, j: nat, ms: seq<Pair>)
    requires i <= |a| && j <= |b| && ms != [] && IsBest(a, b, ms, i, j)
    ensures var taken := Backtrack(a, b, i, j); taken != [] && ms[|ms| - 1].0 <= taken[|taken| - 1].0
    decreases i + j
  {
    hide IsCommon;
    BacktrackIsBest(a, b, i, j);
    assert Within(ms, i, j);
    if a[i - 1] == b[j - 1] {
    } else if Len(a, b, i - 1, j) > Len(a, b, i, j - 1) {
      if ms[|ms| - 1].0 == i - 1 {
        EndsInRow(a, b, i, j, ms);
      } else {
        EndsAbove(a, b, i, j, ms);
        LastMatchIsLatest(a, b, i - 1, j, ms);
      }
    } else if ms[|ms| - 1].1 < j - 1 {
      EndsInRow(a, b, i, j, ms);
      LastMatchIsLatest(a, b, i, j - 1, ms);
    } else {
      BacktrackIsBest(a, b, i, j - 1);
      EndsNoHigher(a, b, i, j, ms, Backtrack(a, b, i, j - 1));
    }
  }

  /** Optimality: the pairs form a common subsequence, and every common subsequence is at most as long. */
  lemma MatchesAreLongest(a: seq<Line>, b: seq<Line>, other: seq<Pair>)
    requires IsCommon(a, b, other)
    ensures var ms := Backtrack(a, b, |a|, |b|);
            IsCommon(a, b, ms) && |other| <= |ms|
  {
    BacktrackIsBest(a, b, |a|, |b|);
    LenIsUpperBound(a, b, |a|, |b|, other);
  }

  /** Two sequences of one length whose longest common subsequence is that long are equal. */
  lemma FullLengthIsIdentity(a: seq<Line>, b: seq<Line>)
    requires |a| == |b|
    ensures |Backtrack(a, b, |a|, |b|)| == |a| <==> a == b
  {
    var ms := Backtrack(a, b, |a|, |b|);
    BacktrackIsBest(a, b, |a|, |b|);
    if |ms| == |a| {
      forall k | 0 <= k < |a| ensures a[k] == b[k] {
        FullPair(a, b, ms, k);
      }
    }
    if a == b {
      var diagonal := seq(|a|, k requires 0 <= k < |a| => (k as nat, k as nat));
      LenIsUpperBound(a, b, |a|, |b|, diagonal);
    }
  }

  lemma {:induction false} FullPair(a: seq<Line>, b: seq<Line>, ms: seq<Pair>, k: nat)
    requires IsCommon(a, b, ms) && |ms| == |a| == |b| && k < |ms|
    ensures ms[k] == (k, k)
  {
    AtLeast(a, b, ms, k);
    AtMost(a, b, ms, k);
  }

  lemma {:induction false} AtLeast(a: seq<Line>, b: seq<Line>, ms: seq<Pair>, k: nat)
    requires IsCommon(a, b, ms) && k < |ms|
    ensures ms[k].0 >= k && ms[k].1 >= k
  {
    if k > 0 {
      AtLeast(a, b, ms, k - 1);
    }
  }

  lemma {:induction false} AtMost(a: seq<Line>, b: seq<Line>, ms: seq<Pair>, k: nat)
    requires IsCommon(a, b, ms) && k < |ms|
    ensures ms[k].0 <= |a| - (|ms| - k) && ms[k].1 <= |b| - (|ms| - k)
    decreases |ms| - k
  {
    if k + 1 < |ms| {
      AtMost(a, b, ms, k + 1);
    }
  }

  ghost predicate Filled(a: seq<Line>, b: seq<Line>, dp: array2<nat>, rows: nat)
    requires rows <= |a| + 1 && dp.Length0 == |a| + 1 && dp.Length1 == |b| + 1
    reads dp
  {
    forall x, y :: 0 <= x < rows && 0 <= y <= |b| ==> dp[x, y] == Len(a, b, x, y)
  }

  /** What the inner loop computes for one cell. */
  lemma LenOfCell(a: seq<Line>, b: seq<Line>, i: nat, j: nat)
    requires i < |a| && j <= |b|
    ensures j == 0 ==> Len(a, b, i + 1, j) == 0
    ensures j > 0 ==>
              Len(a, b, i + 1, j) ==
              if a[i] == b[j - 1] then Len(a, b, i, j - 1) + 1
              else if Len(a, b, i, j) >= Len(a, b, i + 1, j - 1) then Len(a, b, i, j)
              else Len(a, b, i + 1, j - 1)
  {
  }

  /** The inner loop of computeLCS: row i from row i - 1. */
  method FillRow(before: seq<Line>, after: seq<Line>, dp: array2<nat>, i: nat)
    requires 1 <= i <= |before| && dp.Length0 == |before| + 1 && dp.Length1 == |after| + 1
    requires Filled(before, after, dp, i) && dp[i, 0] == 0
    modifies dp
    ensures Filled(before, after, dp, i + 1)
    ensures forall x, y :: i < x <= |before| && 0 <= y <= |after| ==> dp[x, y] == old(dp[x, y])
  {
    hide Len;
    LenOfCell(before, after, i - 1, 0);
    for j := 1 to |after| + 1
      invariant forall x, y :: 0 <= x <= |before| && 0 <= y <= |after| && x != i ==> dp[x, y] == old(dp[x, y])
      invariant forall y :: 0 <= y < j ==> dp[i, y] == Len(before, after, i, y)
    {
      LenOfCell(before, after, i - 1, j);
      assert dp[i - 1, j - 1] == Len(before, after, i - 1, j - 1);
      assert dp[i - 1, j] == Len(before, after, i - 1, j);
      assert dp[i, j - 1] == Len(before, after, i, j - 1);
      if before[i - 1] == after[j - 1] {
        dp[i, j] := dp[i - 1, j - 1] + 1;
      } else {
        dp[i, j] := if dp[i - 1, j] >= dp[i, j - 1] then dp[i - 1, j] else dp[i, j - 1];
      }
    }
  }

  /** The table of computeLCS, filled in place row by row. */
  method FillTable(before: seq<Line>, after: seq<Line>) returns (dp: array2<nat>)
    ensures fresh(dp) && dp.Length0 == |before| + 1 && dp.Length1 == |after| + 1
    ensures Filled(before, after, dp, |before| + 1)
  {
    dp := new nat[|before| + 1, |after| + 1]((i, j) => 0);
    for i := 1 to |before| + 1
      invariant Filled(before, after, dp, i)
      invariant forall x, y :: i <= x <= |before| && 0 <= y <= |after| ==> dp[x, y] == 0
    {
      FillRow(before, after, dp, i);
    }
  }

  /** computeLCS: fills the table, then walks back from the far corner collecting matches. */
  method ComputeLcs(before: seq<Line>, after: seq<Line>) returns (matches: seq<Pair>)
    ensures matches == Backtrack(before, after, |before|, |after|)
  {
    var dp := FillTable(before, after);
    matches := [];
    var i: nat, j: nat := |before|, |after|;
    while i > 0 && j > 0
      invariant i <= |before| && j <= |after|
      invariant Backtrack(before, after, |before|, |after|) == Backtrack(before, after, i, j) + matches
      decreases i + j
    {
      if before[i - 1] == after[j - 1] {
        matches := [(i - 1, j - 1)] + matches;
        i, j := i - 1, j - 1;
      } else if dp[i - 1, j] > dp[i, j - 1] {
        i := i - 1;
      } else {
        j := j - 1;
      }
    }
  }
}
