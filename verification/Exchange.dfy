/** When the rows of first fit can be exchanged it finds as much as any matching. */
module Exchange {
  import opened Basics
  import opened Matching
  import opened Text

  /** A row that an earlier driver passes on to a later one can be replaced by any later row the earlier driver also fits. */
  ghost predicate Exchanges<D, R>(sat: (D, R) -> bool, drivers: seq<D>, rows: seq<R>) {
    forall i, j, p, q :: 0 <= i < j < |drivers| && 0 <= p < q < |rows| ==> ExchangesAt(sat, drivers[i], drivers[j], rows[p], rows[q])
  }

  predicate ExchangesAt<D, R>(sat: (D, R) -> bool, d: D, e: D, r: R, s: R) {
    sat(d, r) && sat(d, s) && sat(e, r) ==> sat(e, s)
  }

  // ---- First fit from the front ----

  /** The first driver consumes its pick, and the others go on with what is left. */
  lemma {:induction false} FrontTurn<D, R>(sat: (D, R) -> bool, drivers: seq<D>, rows: seq<R>)
    requires drivers != []
    ensures Rest(sat, drivers, rows) == Rest(sat, drivers[1..], Consume(sat, drivers[0], rows))
    ensures Unmatched(sat, drivers, rows)
         == (if FirstFit(sat, drivers[0], rows) < |rows| then [] else [drivers[0]]) + Unmatched(sat, drivers[1..], Consume(sat, drivers[0], rows))
    decreases |drivers|
  {
    hide Consume;
    var before, last := drivers[..|drivers| - 1], drivers[|drivers| - 1];
    if before == [] {
      assert drivers[1..] == [];
    } else {
      FrontTurn(sat, before, rows);
      assert drivers[1..][..|drivers| - 2] == before[1..];
      assert drivers[1..][|drivers| - 2] == last;
    }
  }

  // ---- The exchange ----

  /** The choices of the other drivers once row k is gone: whoever had it takes the first driver's row instead. */
  function Freed(choice: seq<Option<nat>>, k: nat): (freed: seq<Option<nat>>)
    requires choice != []
    ensures |freed| == |choice| - 1
  {
    seq(|choice| - 1, i requires 0 <= i < |choice| - 1 => Shift(Heir(choice, k, i), k))
  }

  function Heir(choice: seq<Option<nat>>, k: nat, i: nat): Option<nat>
    requires i + 1 < |choice|
  {
    if choice[i + 1] == Some(k) then choice[0] else choice[i + 1]
  }

  function Shift(c: Option<nat>, k: nat): Option<nat> {
    if c.Some? && c.value > k then Some(c.value - 1) else c
  }

  lemma HeirsDiffer<D, R>(sat: (D, R) -> bool, drivers: seq<D>, rows: seq<R>, choice: seq<Option<nat>>, k: nat, i: nat, j: nat)
    requires IsMatching(sat, drivers, rows, choice) && i < |choice| - 1 && j < |choice| - 1
    ensures Heir(choice, k, i) != Some(k)
    ensures i != j && Heir(choice, k, i).Some? ==> Heir(choice, k, i) != Heir(choice, k, j)
  {
  }

  lemma HeirFits<D, R>(sat: (D, R) -> bool, drivers: seq<D>, rows: seq<R>, choice: seq<Option<nat>>, i: nat)
    requires IsMatching(sat, drivers, rows, choice) && Exchanges(sat, drivers, rows) && i < |choice| - 1
    requires FirstFit(sat, drivers[0], rows) < |rows|
    ensures var heir := Heir(choice, FirstFit(sat, drivers[0], rows), i);
            heir.Some? ==> heir.value < |rows| && sat(drivers[i + 1], rows[heir.value])
  {
    var k := FirstFit(sat, drivers[0], rows);
    if choice[i + 1] == Some(k) && choice[0].Some? {
      var q := choice[0].value;
      assert k < q;
      assert ExchangesAt(sat, drivers[0], drivers[i + 1], rows[k], rows[q]);
    }
  }

  lemma ShiftedRow<R>(rows: seq<R>, k: nat, v: nat)
    requires k < |rows| && v < |rows| && v != k
    ensures Shift(Some(v), k).value < |rows| - 1 && Remove(rows, k)[Shift(Some(v), k).value] == rows[v]
  {
  }

  lemma ShiftTellsApart(c: Option<nat>, d: Option<nat>, k: nat)
    requires c.Some? && d.Some? && c != d && c.value != k && d.value != k
    ensures Shift(c, k) != Shift(d, k)
  {
  }

  lemma FreedFits<D, R>(sat: (D, R) -> bool, drivers: seq<D>, rows: seq<R>, choice: seq<Option<nat>>, k: nat, i: nat)
    requires IsMatching(sat, drivers, rows, choice) && Exchanges(sat, drivers, rows) && i < |choice| - 1
    requires k == FirstFit(sat, drivers[0], rows) < |rows|
    ensures var c := Freed(choice, k)[i];
            c.Some? ==> c.value < |rows| - 1 && sat(drivers[i + 1], Remove(rows, k)[c.value])
  {
    HeirFits(sat, drivers, rows, choice, i);
    HeirsDiffer(sat, drivers, rows, choice, k, i, i);
    hide Exchanges, IsMatching, Remove;
    if Heir(choice, k, i).Some? {
      ShiftedRow(rows, k, Heir(choice, k, i).value);
    }
  }

  lemma FreedDiffer<D, R>(sat: (D, R) -> bool, drivers: seq<D>, rows: seq<R>, choice: seq<Option<nat>>, k: nat, i: nat, j: nat)
    requires IsMatching(sat, drivers, rows, choice) && i < j < |choice| - 1
    ensures var freed := Freed(choice, k);
            freed[i].Some? && freed[j].Some? ==> freed[i].value != freed[j].value
  {
    HeirsDiffer(sat, drivers, rows, choice, k, i, j);
    HeirsDiffer(sat, drivers, rows, choice, k, j, i);
    hide IsMatching, Heir;
    var c, d := Heir(choice, k, i), Heir(choice, k, j);
    if c.Some? && d.Some? {
      ShiftTellsApart(c, d, k);
    }
  }

  lemma FreedIsMatching<D, R>(sat: (D, R) -> bool, drivers: seq<D>, rows: seq<R>, choice: seq<Option<nat>>)
    requires drivers != [] && IsMatching(sat, drivers, rows, choice) && Exchanges(sat, drivers, rows)
    requires FirstFit(sat, drivers[0], rows) < |rows|
    ensures var k := FirstFit(sat, drivers[0], rows);
            IsMatching(sat, drivers[1..], Remove(rows, k), Freed(choice, k))
  {
    hide Exchanges, Freed, Remove;
    var k := FirstFit(sat, drivers[0], rows);
    var freed, left, tail := Freed(choice, k), Remove(rows, k), drivers[1..];
    RemoveLength(rows, k);
    forall i | 0 <= i < |freed| && freed[i].Some? ensures freed[i].value < |left| && sat(tail[i], left[freed[i].value]) {
      FreedFits(sat, drivers, rows, choice, k, i);
    }
    forall i, j | 0 <= i < j < |freed| && freed[i].Some? && freed[j].Some? ensures freed[i].value != freed[j].value {
      FreedDiffer(sat, drivers, rows, choice, k, i, j);
    }
  }

  lemma RemoveLength<R>(rows: seq<R>, k: nat)
    requires k < |rows|
    ensures |Remove(rows, k)| == |rows| - 1
  {
  }

  // ---- Counting ----

  function NumMatched(choice: seq<Option<nat>>): nat {
    if choice == [] then 0 else NumMatched(choice[..|choice| - 1]) + if choice[|choice| - 1].Some? then 1 else 0
  }

  lemma {:induction false} NumMatchedIs(choice: seq<Option<nat>>)
    ensures NumMatched(choice) == |Matched(choice)|
  {
    hide Matched;
    if choice == [] {
      NoneMatched();
    } else {
      NumMatchedIs(choice[..|choice| - 1]);
      MatchedPushed(choice[..|choice| - 1], choice[|choice| - 1]);
      assert choice == choice[..|choice| - 1] + [choice[|choice| - 1]];
    }
  }

  /** Dropping the head and giving its row away, or not, loses at most one pair; `lost` is the driver whose row is taken away. */
  lemma {:induction false} TailCount(choice: seq<Option<nat>>, tail: seq<Option<nat>>, lost: nat)
    requires |choice| == |tail| + 1
    requires forall i :: 0 <= i < |tail| && i != lost ==> (tail[i].Some? <==> choice[i + 1].Some?)
    requires lost < |tail| && choice[lost + 1].Some? && tail[lost].None? ==> choice[0].None?
    ensures NumMatched(tail) + 1 >= NumMatched(choice)
    decreases |tail|
  {
    LossIsBounded(choice, tail, lost);
  }

  lemma {:induction false} LossIsBounded(choice: seq<Option<nat>>, tail: seq<Option<nat>>, lost: nat)
    requires |choice| == |tail| + 1
    requires forall i :: 0 <= i < |tail| && i != lost ==> (tail[i].Some? <==> choice[i + 1].Some?)
    ensures NumMatched(choice) <= NumMatched(tail) + (if choice[0].Some? then 1 else 0)
                                  + (if lost < |tail| && choice[lost + 1].Some? && tail[lost].None? then 1 else 0)
    decreases |tail|
  {
    if tail == [] {
      assert choice[..0] == [];
    } else {
      var n := |tail| - 1;
      LossIsBounded(choice[..n + 1], tail[..n], lost);
    }
  }

  lemma FreedCount<D, R>(sat: (D, R) -> bool, drivers: seq<D>, rows: seq<R>, choice: seq<Option<nat>>, k: nat)
    requires choice != [] && IsMatching(sat, drivers, rows, choice)
    ensures NumMatched(Freed(choice, k)) + 1 >= NumMatched(choice)
    ensures AllSome(choice) ==> AllSome(Freed(choice, k))
  {
    var freed := Freed(choice, k);
    var tail := choice[1..];
    assert forall i :: 0 <= i < |tail| ==> choice[i + 1] == tail[i];
    if Some(k) in tail {
      var i :| 0 <= i < |tail| && tail[i] == Some(k);
      TailCount(choice, freed, i);
    } else {
      TailCount(choice, freed, |freed|);
    }
  }

  // ---- First fit is best when rows exchange ----

  lemma ExchangesTail<D, R>(sat: (D, R) -> bool, drivers: seq<D>, rows: seq<R>)
    requires Exchanges(sat, drivers, rows) && drivers != []
    ensures Exchanges(sat, drivers[1..], rows)
  {
    var tail := drivers[1..];
    forall i, j, p, q | 0 <= i < j < |tail| && 0 <= p < q < |rows| ensures ExchangesAt(sat, tail[i], tail[j], rows[p], rows[q]) {
      assert ExchangesAt(sat, drivers[i + 1], drivers[j + 1], rows[p], rows[q]);
    }
  }

  lemma ExchangesOthers<D, R>(sat: (D, R) -> bool, drivers: seq<D>, rows: seq<R>, k: nat)
    requires Exchanges(sat, drivers, rows) && k < |rows|
    ensures Exchanges(sat, drivers, Remove(rows, k))
  {
    var left := Remove(rows, k);
    forall i, j, p, q | 0 <= i < j < |drivers| && 0 <= p < q < |left| ensures ExchangesAt(sat, drivers[i], drivers[j], left[p], left[q]) {
      var p', q' := if p < k then p else p + 1, if q < k then q else q + 1;
      assert ExchangesAt(sat, drivers[i], drivers[j], rows[p'], rows[q']);
    }
  }

  lemma NoRowNoChoice<D, R>(sat: (D, R) -> bool, drivers: seq<D>, rows: seq<R>, other: seq<Option<nat>>)
    requires drivers != [] && IsMatching(sat, drivers, rows, other) && FirstFit(sat, drivers[0], rows) == |rows|
    ensures other[0].None? && IsMatching(sat, drivers[1..], rows, other[1..])
    ensures NumMatched(other[1..]) >= NumMatched(other)
  {
    LossIsBounded(other, other[1..], |other|);
  }

  /** Optimality: when rows exchange, first fit leaves no more drivers without a row than any matching does. */
  lemma {:induction false} BestWhenRowsExchange<D, R>(sat: (D, R) -> bool, drivers: seq<D>, rows: seq<R>, other: seq<Option<nat>>)
    requires Exchanges(sat, drivers, rows) && IsMatching(sat, drivers, rows, other)
    ensures NumMatched(other) + |Unmatched(sat, drivers, rows)| <= |drivers|
    decreases |drivers|
  {
    hide Exchanges, IsMatching, Freed;
    if drivers == [] {
      assert |other| == 0 by { MatchingLength(sat, drivers, rows, other); }
    } else {
      var k := FirstFit(sat, drivers[0], rows);
      MatchingLength(sat, drivers, rows, other);
      FrontTurn(sat, drivers, rows);
      ExchangesTail(sat, drivers, rows);
      hide Unmatched, NumMatched, Rest;
      if k < |rows| {
        FreedIsMatching(sat, drivers, rows, other);
        FreedCount(sat, drivers, rows, other, k);
        ExchangesOthers(sat, drivers[1..], rows, k);
        BestWhenRowsExchange(sat, drivers[1..], Remove(rows, k), Freed(other, k));
      } else {
        NoRowNoChoice(sat, drivers, rows, other);
        BestWhenRowsExchange(sat, drivers[1..], rows, other[1..]);
      }
    }
  }

  lemma MatchingLength<D, R>(sat: (D, R) -> bool, drivers: seq<D>, rows: seq<R>, other: seq<Option<nat>>)
    requires IsMatching(sat, drivers, rows, other)
    ensures |other| == |drivers|
  {
  }

  // ---- Rows that must be taken ----

  /** A driver never prefers an optional row to a later one that must be taken. */
  ghost predicate PrefersMust<D, R>(sat: (D, R) -> bool, must: R -> bool, drivers: seq<D>, rows: seq<R>) {
    forall i, p, q :: 0 <= i < |drivers| && 0 <= p < q < |rows| ==> PrefersMustAt(sat, must, drivers[i], rows[p], rows[q])
  }

  predicate PrefersMustAt<D, R>(sat: (D, R) -> bool, must: R -> bool, d: D, r: R, s: R) {
    sat(d, r) && sat(d, s) && must(s) ==> must(r)
  }

  /** Every driver has a row of its own, and every row that must be taken is one of them. */
  ghost predicate IsFull<D, R>(sat: (D, R) -> bool, must: R -> bool, drivers: seq<D>, rows: seq<R>, choice: seq<Option<nat>>) {
    && IsMatching(sat, drivers, rows, choice) && AllSome(choice)
    && forall r: nat :: r < |rows| && must(rows[r]) ==> Some(r) in choice
  }

  ghost predicate NoneLeft<R>(must: R -> bool, left: seq<R>) {
    forall k :: 0 <= k < |left| ==> !must(left[k])
  }

  lemma PrefersMustOn<D, R>(sat: (D, R) -> bool, must: R -> bool, drivers: seq<D>, rows: seq<R>, k: nat)
    requires PrefersMust(sat, must, drivers, rows) && drivers != [] && k < |rows|
    ensures PrefersMust(sat, must, drivers[1..], Remove(rows, k))
  {
    var tail, left := drivers[1..], Remove(rows, k);
    forall i, p, q | 0 <= i < |tail| && 0 <= p < q < |left| ensures PrefersMustAt(sat, must, tail[i], left[p], left[q]) {
      var p', q' := if p < k then p else p + 1, if q < k then q else q + 1;
      assert PrefersMustAt(sat, must, drivers[i + 1], rows[p'], rows[q']);
    }
  }

  lemma FreedAt(choice: seq<Option<nat>>, k: nat, i: nat, v: nat)
    requires i < |choice| && v != k && choice[i] == Some(v)
    requires i == 0 ==> Some(k) in choice
    ensures Shift(Some(v), k) in Freed(choice, k)
  {
    var freed := Freed(choice, k);
    if i > 0 {
      assert freed[i - 1] == Shift(Some(v), k);
    } else {
      var j :| 0 <= j < |choice| && choice[j] == Some(k);
      assert freed[j - 1] == Shift(Some(v), k);
    }
  }

  /** After the first pick the rows that must be taken are still all given to somebody. */
  lemma FreedCovers<D, R>(sat: (D, R) -> bool, must: R -> bool, drivers: seq<D>, rows: seq<R>, choice: seq<Option<nat>>, k: nat, v: nat)
    requires drivers != [] && IsFull(sat, must, drivers, rows, choice) && PrefersMust(sat, must, drivers, rows)
    requires k == FirstFit(sat, drivers[0], rows) < |rows| && v < |rows| && v != k && must(rows[v])
    ensures Shift(Some(v), k) in Freed(choice, k)
  {
    hide Shift, Freed;
    assert Some(v) in choice;
    var i :| 0 <= i < |choice| && choice[i] == Some(v);
    if i == 0 {
      assert PrefersMustAt(sat, must, drivers[0], rows[k], rows[v]);
      assert Some(k) in choice;
    }
    FreedAt(choice, k, i, v);
  }

  lemma FreedIsFull<D, R>(sat: (D, R) -> bool, must: R -> bool, drivers: seq<D>, rows: seq<R>, choice: seq<Option<nat>>)
    requires drivers != [] && IsFull(sat, must, drivers, rows, choice)
    requires Exchanges(sat, drivers, rows) && PrefersMust(sat, must, drivers, rows)
    requires FirstFit(sat, drivers[0], rows) < |rows|
    ensures var k := FirstFit(sat, drivers[0], rows);
            IsFull(sat, must, drivers[1..], Remove(rows, k), Freed(choice, k))
  {
    hide Freed, Exchanges, PrefersMust, IsMatching;
    var k := FirstFit(sat, drivers[0], rows);
    MatchingLength(sat, drivers, rows, choice);
    FreedIsMatching(sat, drivers, rows, choice);
    FreedCount(sat, drivers, rows, choice, k);
    hide AllSome;
    var left := Remove(rows, k);
    forall r: nat | r < |left| && must(left[r]) ensures Some(r) in Freed(choice, k) {
      var v := if r < k then r else r + 1;
      FreedCovers(sat, must, drivers, rows, choice, k, v);
    }
  }

  /** When rows exchange and drivers prefer rows that must be taken, first fit finds a full matching whenever there is one. */
  lemma {:induction false} FullWhenRowsExchange<D, R>(sat: (D, R) -> bool, must: R -> bool, drivers: seq<D>, rows: seq<R>, other: seq<Option<nat>>)
    requires Exchanges(sat, drivers, rows) && PrefersMust(sat, must, drivers, rows) && IsFull(sat, must, drivers, rows, other)
    ensures Unmatched(sat, drivers, rows) == [] && NoneLeft(must, Rest(sat, drivers, rows))
    decreases |drivers|
  {
    if drivers == [] {
      forall k | 0 <= k < |rows| ensures !must(rows[k]) {
        assert Some(k) !in other;
      }
    } else {
      hide Exchanges, PrefersMust, Freed;
      var k := FirstFit(sat, drivers[0], rows);
      FirstFinds(sat, must, drivers, rows, other);
      FrontTurn(sat, drivers, rows);
      hide Unmatched, Rest, IsFull;
      FreedIsFull(sat, must, drivers, rows, other);
      ExchangesTail(sat, drivers, rows);
      ExchangesOthers(sat, drivers[1..], rows, k);
      PrefersMustOn(sat, must, drivers, rows, k);
      FullWhenRowsExchange(sat, must, drivers[1..], Remove(rows, k), Freed(other, k));
    }
  }

  lemma FirstFinds<D, R>(sat: (D, R) -> bool, must: R -> bool, drivers: seq<D>, rows: seq<R>, other: seq<Option<nat>>)
    requires drivers != [] && IsFull(sat, must, drivers, rows, other)
    ensures other != [] && FirstFit(sat, drivers[0], rows) < |rows|
  {
    assert other[0].Some? && sat(drivers[0], rows[other[0].value]);
  }

  // ---- Counting arguments about what first fit chose ----

  /** The choices of the first drivers do not depend on the later ones. */
  lemma {:induction false} ChoicePrefix<D, R>(sat: (D, R) -> bool, drivers: seq<D>, rows: seq<R>, n: nat)
    requires n <= |drivers|
    ensures Greedy(sat, drivers[..n], rows).choice == Greedy(sat, drivers, rows).choice[..n]
  {
    if n == |drivers| {
      assert drivers[..n] == drivers;
    } else {
      var before := drivers[..|drivers| - 1];
      ChoicePrefix(sat, before, rows, n);
      assert before[..n] == drivers[..n];
    }
  }

  lemma TurnPicks<D, R>(sat: (D, R) -> bool, driver: D, rows: seq<R>, g: Pairing, p: nat)
    requires InRange(g.free, |rows|) && Ascends(g.free) && p in g.free && sat(driver, rows[p])
    ensures var c := Turn(sat, driver, rows, g).choice[|g.choice|]; c.Some? && c.value <= p
  {
    var at :| 0 <= at < |g.free| && g.free[at] == p;
    var k := FirstFit(sat, driver, Pick(rows, g.free));
    assert k <= at;
  }

  /** A driver takes no later row than one it fits that nobody before it has taken. */
  lemma PicksNoLater<D, R>(sat: (D, R) -> bool, drivers: seq<D>, rows: seq<R>, i: nat, p: nat)
    requires i < |drivers| && p < |rows| && sat(drivers[i], rows[p])
    requires Some(p) !in Greedy(sat, drivers, rows).choice[..i]
    ensures var choice := Greedy(sat, drivers, rows).choice; choice[i].Some? && choice[i].value <= p
  {
    hide Turn, IsMatching, Ascends;
    ChoicePrefix(sat, drivers, rows, i);
    ChoicePrefix(sat, drivers, rows, i + 1);
    assert drivers[..i + 1][..i] == drivers[..i];
    GreedyIsMatching(sat, drivers[..i], rows);
    TurnPicks(sat, drivers[i], rows, Greedy(sat, drivers[..i], rows), p);
    assert Greedy(sat, drivers, rows).choice[i] == Greedy(sat, drivers, rows).choice[..i + 1][i];
  }

  /** Rows that are all chosen by certain drivers are no more than those drivers. */
  lemma {:induction false} RowsFitDrivers(choice: seq<Option<nat>>, rows: set<nat>, drivers: set<nat>)
    requires forall r :: r in rows ==> ChosenBy(choice, r, drivers)
    ensures |rows| <= |drivers|
    decreases rows
  {
    if rows != {} {
      var r :| r in rows;
      assert ChosenBy(choice, r, drivers);
      var i: nat :| i in drivers && i < |choice| && choice[i] == Some(r);
      forall q | q in rows - {r} ensures ChosenBy(choice, q, drivers - {i}) {
        assert ChosenBy(choice, q, drivers);
        var j: nat :| j in drivers && j < |choice| && choice[j] == Some(q);
        assert j in drivers - {i};
      }
      RowsFitDrivers(choice, rows - {r}, drivers - {i});
    }
  }

  ghost predicate ChosenBy(choice: seq<Option<nat>>, r: nat, drivers: set<nat>) {
    exists i: nat :: i in drivers && i < |choice| && choice[i] == Some(r)
  }
}
