/** First-fit matching: each driver in turn consumes the first row left that satisfies it. Both receipt oracles use it. */
module Matching {
  import opened Basics
  import opened Text

  /** What `findIndex` finds: the first row that satisfies the driver, or the length. */
  function FirstFit<D, R>(sat: (D, R) -> bool, driver: D, rows: seq<R>): (k: nat)
    ensures k <= |rows| && (k < |rows| ==> sat(driver, rows[k]))
    ensures forall j :: 0 <= j < k ==> !sat(driver, rows[j])
  {
    if rows == [] then 0
    else if sat(driver, rows[0]) then 0
    else 1 + FirstFit(sat, driver, rows[1..])
  }

  /** `splice(k, 1)` */
  function Remove<T>(s: seq<T>, k: nat): (r: seq<T>)
    requires k < |s|
  {
    s[..k] + s[k + 1..]
  }

  /** The rows after this driver took its pick. */
  function Consume<D, R>(sat: (D, R) -> bool, driver: D, rows: seq<R>): seq<R> {
    var k := FirstFit(sat, driver, rows);
    if k < |rows| then Remove(rows, k) else rows
  }

  /** The rows left when every driver has had its turn. */
  function Rest<D, R>(sat: (D, R) -> bool, drivers: seq<D>, rows: seq<R>): seq<R> {
    if drivers == [] then rows
    else Consume(sat, drivers[|drivers| - 1], Rest(sat, drivers[..|drivers| - 1], rows))
  }

  /** The drivers that found no row. */
  function Unmatched<D, R>(sat: (D, R) -> bool, drivers: seq<D>, rows: seq<R>): seq<D> {
    if drivers == [] then []
    else
      var before, driver := drivers[..|drivers| - 1], drivers[|drivers| - 1];
      var left := Rest(sat, before, rows);
      Unmatched(sat, before, rows) + if FirstFit(sat, driver, left) < |left| then [] else [driver]
  }

  lemma OneMoreDriver<D, R>(sat: (D, R) -> bool, drivers: seq<D>, n: nat, rows: seq<R>)
    requires n < |drivers|
    ensures Rest(sat, drivers[..n + 1], rows) == Consume(sat, drivers[n], Rest(sat, drivers[..n], rows))
    ensures var left := Rest(sat, drivers[..n], rows);
            Unmatched(sat, drivers[..n + 1], rows)
            == Unmatched(sat, drivers[..n], rows) + if FirstFit(sat, drivers[n], left) < |left| then [] else [drivers[n]]
  {
    assert drivers[..n + 1][..n] == drivers[..n];
  }

  lemma {:induction false} SameFirstFit<D, R>(sat: (D, R) -> bool, other: (D, R) -> bool, driver: D, rows: seq<R>)
    requires forall d, r :: sat(d, r) <==> other(d, r)
    ensures FirstFit(sat, driver, rows) == FirstFit(other, driver, rows)
  {
    if rows != [] {
      SameFirstFit(sat, other, driver, rows[1..]);
    }
  }

  /** Only which rows satisfy which drivers matters, not how that is decided. */
  lemma {:induction false} SameRelation<D, R>(sat: (D, R) -> bool, other: (D, R) -> bool, drivers: seq<D>, rows: seq<R>)
    requires forall d, r :: sat(d, r) <==> other(d, r)
    ensures Rest(sat, drivers, rows) == Rest(other, drivers, rows) && Unmatched(sat, drivers, rows) == Unmatched(other, drivers, rows)
  {
    if drivers != [] {
      var before, driver := drivers[..|drivers| - 1], drivers[|drivers| - 1];
      SameRelation(sat, other, before, rows);
      SameFirstFit(sat, other, driver, Rest(sat, before, rows));
    }
  }

  // ---- Which row each driver got ----

  /** Row indices: the choice of each driver, and the rows still free, in order. */
  datatype Pairing = Pairing(choice: seq<Option<nat>>, free: seq<nat>)

  ghost predicate InRange(free: seq<nat>, n: nat) {
    forall k :: 0 <= k < |free| ==> free[k] < n
  }

  function Pick<R>(rows: seq<R>, free: seq<nat>): (r: seq<R>)
    requires InRange(free, |rows|)
    ensures |r| == |free| && forall k :: 0 <= k < |r| ==> r[k] == rows[free[k]]
  {
    seq(|free|, k requires 0 <= k < |free| => rows[free[k]])
  }

  /** One driver takes the first free row that satisfies it, if there is one. */
  function Turn<D, R>(sat: (D, R) -> bool, driver: D, rows: seq<R>, p: Pairing): (q: Pairing)
    requires InRange(p.free, |rows|)
    ensures |q.choice| == |p.choice| + 1 && q.choice[..|p.choice|] == p.choice && InRange(q.free, |rows|)
  {
    var k := FirstFit(sat, driver, Pick(rows, p.free));
    if k < |p.free| then Pairing(p.choice + [Some(p.free[k])], Remove(p.free, k))
    else Pairing(p.choice + [None], p.free)
  }

  function Greedy<D, R>(sat: (D, R) -> bool, drivers: seq<D>, rows: seq<R>): (p: Pairing)
    ensures |p.choice| == |drivers| && InRange(p.free, |rows|)
  {
    if drivers == [] then Pairing([], seq(|rows|, k => k))
    else Turn(sat, drivers[|drivers| - 1], rows, Greedy(sat, drivers[..|drivers| - 1], rows))
  }

  ghost predicate Ascends(free: seq<nat>) {
    forall j, k :: 0 <= j < k < |free| ==> free[j] < free[k]
  }

  /** Pairs go to different rows, and every pair satisfies the row predicate. */
  ghost predicate IsMatching<D, R>(sat: (D, R) -> bool, drivers: seq<D>, rows: seq<R>, choice: seq<Option<nat>>) {
    && |choice| == |drivers|
    && (forall i :: 0 <= i < |choice| && choice[i].Some? ==> choice[i].value < |rows| && sat(drivers[i], rows[choice[i].value]))
    && (forall i, j :: 0 <= i < j < |choice| && choice[i].Some? && choice[j].Some? ==> choice[i].value != choice[j].value)
  }

  /** A row is free exactly when no driver chose it. */
  ghost predicate FreeIsUnchosen(choice: seq<Option<nat>>, free: seq<nat>, n: nat) {
    forall r: nat :: r < n ==> (r in free <==> Some(r) !in choice)
  }

  lemma TakeKeepsFree(choice: seq<Option<nat>>, free: seq<nat>, n: nat, k: nat)
    requires k < |free| && FreeIsUnchosen(choice, free, n) && Ascends(free)
    ensures FreeIsUnchosen(choice + [Some(free[k])], Remove(free, k), n) && Ascends(Remove(free, k))
  {
    forall r: nat | r < n ensures r in Remove(free, k) <==> Some(r) !in choice + [Some(free[k])] {
      if r in free {
        var j :| 0 <= j < |free| && free[j] == r;
        if j < k {
          assert Remove(free, k)[j] == r;
        } else if j > k {
          assert Remove(free, k)[j - 1] == r;
        }
      }
    }
  }

  lemma TurnKeepsMatching<D, R>(sat: (D, R) -> bool, drivers: seq<D>, driver: D, rows: seq<R>, p: Pairing)
    requires IsMatching(sat, drivers, rows, p.choice) && InRange(p.free, |rows|)
    requires FreeIsUnchosen(p.choice, p.free, |rows|) && Ascends(p.free)
    ensures var q := Turn(sat, driver, rows, p);
            && IsMatching(sat, drivers + [driver], rows, q.choice)
            && FreeIsUnchosen(q.choice, q.free, |rows|) && Ascends(q.free)
  {
    var k := FirstFit(sat, driver, Pick(rows, p.free));
    if k < |p.free| {
      var r := p.free[k];
      assert r in p.free;
      forall i | 0 <= i < |p.choice| && p.choice[i].Some? ensures p.choice[i].value != r {
        assert p.choice[i] in p.choice;
      }
      assert Pick(rows, p.free)[k] == rows[r];
      TakeKeepsFree(p.choice, p.free, |rows|, k);
    }
  }

  lemma AllFree(n: nat)
    ensures FreeIsUnchosen([], seq(n, k => k), n) && Ascends(seq(n, k => k))
  {
    var free := seq(n, k => k);
    forall r: nat | r < n ensures r in free {
      assert free[r] == r;
    }
  }

  lemma {:induction false} GreedyIsMatching<D, R>(sat: (D, R) -> bool, drivers: seq<D>, rows: seq<R>)
    ensures var p := Greedy(sat, drivers, rows);
            && IsMatching(sat, drivers, rows, p.choice)
            && FreeIsUnchosen(p.choice, p.free, |rows|) && Ascends(p.free)
  {
    hide FreeIsUnchosen, Ascends, Turn;
    if drivers == [] {
      AllFree(|rows|);
    } else {
      var before, driver := drivers[..|drivers| - 1], drivers[|drivers| - 1];
      GreedyIsMatching(sat, before, rows);
      TurnKeepsMatching(sat, before, driver, rows, Greedy(sat, before, rows));
      assert drivers == before + [driver];
    }
  }

  lemma NoRowFound<D, R>(sat: (D, R) -> bool, driver: D, rows: seq<R>, p: Pairing, k: nat)
    requires InRange(p.free, |rows|) && k < |p.free| && Turn(sat, driver, rows, p).choice[|p.choice|].None?
    ensures !sat(driver, rows[p.free[k]])
  {
    assert Pick(rows, p.free)[k] == rows[p.free[k]];
  }

  /** Maximal: a driver left without a row is satisfied by no row left over. */
  lemma {:induction false} GreedyIsMaximal<D, R>(sat: (D, R) -> bool, drivers: seq<D>, rows: seq<R>, i: nat, r: nat)
    requires i < |drivers| && r < |rows|
    requires Greedy(sat, drivers, rows).choice[i].None? && Some(r) !in Greedy(sat, drivers, rows).choice
    ensures !sat(drivers[i], rows[r])
  {
    hide Turn;
    var before := drivers[..|drivers| - 1];
    var p := Greedy(sat, before, rows);
    var choice := Greedy(sat, drivers, rows).choice;
    assert choice[..|choice| - 1] == p.choice;
    if i < |drivers| - 1 {
      GreedyIsMaximal(sat, before, rows, i, r);
    } else {
      GreedyIsMatching(sat, before, rows);
      assert r in p.free;
      var k :| 0 <= k < |p.free| && p.free[k] == r;
      NoRowFound(sat, drivers[i], rows, p, k);
    }
  }

  // ---- At least half of any matching ----

  ghost function Matched(choice: seq<Option<nat>>): set<nat> {
    set i: nat | i < |choice| && choice[i].Some?
  }

  /** Distinct drivers of a matching go to distinct rows, so they are no more than the rows they go to. */
  lemma {:induction false} DriversFitRows(choice: seq<Option<nat>>, drivers: set<nat>, rows: set<nat>)
    requires forall i :: i in drivers ==> i < |choice| && choice[i].Some? && choice[i].value in rows
    requires forall i, j :: 0 <= i < j < |choice| && choice[i].Some? && choice[j].Some? ==> choice[i].value != choice[j].value
    ensures |drivers| <= |rows|
    decreases drivers
  {
    if drivers != {} {
      var i :| i in drivers;
      var r := choice[i].value;
      DriversFitRows(choice, drivers - {i}, rows - {r});
    }
  }

  ghost function Chosen(choice: seq<Option<nat>>): set<nat> {
    set i: nat | i < |choice| && choice[i].Some? :: choice[i].value
  }

  lemma {:induction false} ChosenIsSmall(choice: seq<Option<nat>>)
    ensures |Chosen(choice)| <= |Matched(choice)|
  {
    if choice == [] {
      assert Chosen(choice) == {};
    } else {
      var before, last := choice[..|choice| - 1], choice[|choice| - 1];
      ChosenIsSmall(before);
      if last.None? {
        assert Matched(choice) == Matched(before) && Chosen(choice) == Chosen(before);
      } else {
        assert Matched(choice) == Matched(before) + {|choice| - 1};
        assert Chosen(choice) == Chosen(before) + {last.value};
      }
    }
  }

  /** First fit pairs at least half as many drivers as any matching whatsoever. */
  lemma GreedyIsHalfOfBest<D, R>(sat: (D, R) -> bool, drivers: seq<D>, rows: seq<R>, other: seq<Option<nat>>)
    requires IsMatching(sat, drivers, rows, other)
    ensures |Matched(other)| <= 2 * |Matched(Greedy(sat, drivers, rows).choice)|
  {
    var choice := Greedy(sat, drivers, rows).choice;
    var both, lost := Matched(other) * Matched(choice), Matched(other) - Matched(choice);
    assert Matched(other) == both + lost && both !! lost;
    assert |both| <= |Matched(choice)| by {
      SubsetIsSmaller(both, Matched(choice));
    }
    forall i | i in lost ensures other[i].value in Chosen(choice) {
      if Some(other[i].value) !in choice {
        GreedyIsMaximal(sat, drivers, rows, i, other[i].value);
      }
    }
    DriversFitRows(other, lost, Chosen(choice));
    ChosenIsSmall(choice);
  }

  // ---- The values left over are the free rows ----

  lemma TurnConsumes<D, R>(sat: (D, R) -> bool, driver: D, rows: seq<R>, p: Pairing)
    requires InRange(p.free, |rows|)
    ensures Pick(rows, Turn(sat, driver, rows, p).free) == Consume(sat, driver, Pick(rows, p.free))
  {
    hide FirstFit;
    var k := FirstFit(sat, driver, Pick(rows, p.free));
    if k < |p.free| {
      PickOfRemove(rows, p.free, k);
    }
  }

  lemma PickOfRemove<R>(rows: seq<R>, free: seq<nat>, k: nat)
    requires InRange(free, |rows|) && k < |free|
    ensures InRange(Remove(free, k), |rows|) && Pick(rows, Remove(free, k)) == Remove(Pick(rows, free), k)
  {
  }

  lemma {:induction false} RestIsFree<D, R>(sat: (D, R) -> bool, drivers: seq<D>, rows: seq<R>)
    ensures Rest(sat, drivers, rows) == Pick(rows, Greedy(sat, drivers, rows).free)
  {
    hide Turn, Consume;
    if drivers == [] {
      assert Pick(rows, Greedy(sat, drivers, rows).free) == rows;
    } else {
      var before := drivers[..|drivers| - 1];
      RestIsFree(sat, before, rows);
      TurnConsumes(sat, drivers[|drivers| - 1], rows, Greedy(sat, before, rows));
    }
  }

  ghost predicate AllSome(choice: seq<Option<nat>>) {
    forall i :: 0 <= i < |choice| ==> choice[i].Some?
  }

  lemma TurnMatches<D, R>(sat: (D, R) -> bool, driver: D, rows: seq<R>, p: Pairing)
    requires InRange(p.free, |rows|)
    ensures AllSome(Turn(sat, driver, rows, p).choice)
       <==> AllSome(p.choice) && FirstFit(sat, driver, Pick(rows, p.free)) < |p.free|
  {
    var q := Turn(sat, driver, rows, p);
    assert forall i :: 0 <= i < |p.choice| ==> q.choice[i] == q.choice[..|p.choice|][i];
    assert AllSome(q.choice) ==> q.choice[|p.choice|].Some?;
  }

  lemma {:induction false} UnmatchedAreNone<D, R>(sat: (D, R) -> bool, drivers: seq<D>, rows: seq<R>)
    ensures Unmatched(sat, drivers, rows) == [] <==> AllSome(Greedy(sat, drivers, rows).choice)
  {
    hide Turn, Pick;
    if drivers == [] {
    } else {
      var before := drivers[..|drivers| - 1];
      UnmatchedAreNone(sat, before, rows);
      RestIsFree(sat, before, rows);
      TurnMatches(sat, drivers[|drivers| - 1], rows, Greedy(sat, before, rows));
    }
  }

  /** The bound is reached: an eager first driver can take the only row of the second. */
  lemma HalfIsReached<D, R>(sat: (D, R) -> bool, a: D, b: D, r: R, s: R)
    requires sat(a, r) && sat(a, s) && sat(b, r) && !sat(b, s)
    ensures IsMatching(sat, [a, b], [r, s], [Some(1), Some(0)])
    ensures Unmatched(sat, [a, b], [r, s]) == [b]
  {
    assert [a][..0] == [] && [a, b][..1] == [a];
    assert Remove([r, s], 0) == [s];
    assert Rest(sat, [a], [r, s]) == [s];
    assert [s][1..] == [] && FirstFit(sat, b, [s]) == 1;
    assert Unmatched(sat, [a], [r, s]) == [];
  }

  lemma {:induction false} RestIsAmongRows<D, R>(sat: (D, R) -> bool, drivers: seq<D>, rows: seq<R>)
    ensures forall r :: r in Rest(sat, drivers, rows) ==> r in rows
  {
    if drivers != [] {
      RestIsAmongRows(sat, drivers[..|drivers| - 1], rows);
    }
  }

  /** Maximal, on the values left over: no unmatched driver is satisfied by a row left. */
  lemma {:induction false} UnmatchedFitsNoRest<D, R>(sat: (D, R) -> bool, drivers: seq<D>, rows: seq<R>, d: D, r: R)
    requires d in Unmatched(sat, drivers, rows) && r in Rest(sat, drivers, rows)
    ensures !sat(d, r)
  {
    var before, driver := drivers[..|drivers| - 1], drivers[|drivers| - 1];
    var left := Rest(sat, before, rows);
    assert r in left;
    if d in Unmatched(sat, before, rows) {
      UnmatchedFitsNoRest(sat, before, rows, d, r);
    } else {
      assert FirstFit(sat, driver, left) == |left|;
    }
  }

  lemma MatchedPushed(choice: seq<Option<nat>>, c: Option<nat>)
    ensures |Matched(choice + [c])| == |Matched(choice)| + if c.Some? then 1 else 0
  {
    if c.Some? {
      assert Matched(choice + [c]) == Matched(choice) + {|choice|};
    } else {
      assert Matched(choice + [c]) == Matched(choice);
    }
  }

  /** The drivers left over are those without a choice. */
  lemma {:induction false} UnmatchedCount<D, R>(sat: (D, R) -> bool, drivers: seq<D>, rows: seq<R>)
    ensures |Unmatched(sat, drivers, rows)| + |Matched(Greedy(sat, drivers, rows).choice)| == |drivers|
  {
    hide Matched, Pick, Turn;
    if drivers == [] {
      NoneMatched();
    } else {
      var before := drivers[..|drivers| - 1];
      UnmatchedCount(sat, before, rows);
      RestIsFree(sat, before, rows);
      TurnCount(sat, drivers[|before|], rows, Greedy(sat, before, rows));
    }
  }

  lemma TurnCount<D, R>(sat: (D, R) -> bool, driver: D, rows: seq<R>, p: Pairing)
    requires InRange(p.free, |rows|)
    ensures |Matched(Turn(sat, driver, rows, p).choice)|
         == |Matched(p.choice)| + if FirstFit(sat, driver, Pick(rows, p.free)) < |p.free| then 1 else 0
  {
    hide Matched, Pick, FirstFit;
    var k := FirstFit(sat, driver, Pick(rows, p.free));
    MatchedPushed(p.choice, if k < |p.free| then Some(p.free[k]) else None);
  }

  lemma NoneMatched()
    ensures Matched([]) == {}
  {
  }

  lemma {:induction false} UnmatchedIsAmongDrivers<D, R>(sat: (D, R) -> bool, drivers: seq<D>, rows: seq<R>)
    ensures forall d :: d in Unmatched(sat, drivers, rows) ==> d in drivers
  {
    if drivers != [] {
      UnmatchedIsAmongDrivers(sat, drivers[..|drivers| - 1], rows);
    }
  }

  /** With nothing left over on either side the choice is a one-to-one pairing of all drivers with all rows. */
  lemma NothingLeftIsPairing<D, R>(sat: (D, R) -> bool, drivers: seq<D>, rows: seq<R>) returns (choice: seq<Option<nat>>)
    requires Unmatched(sat, drivers, rows) == [] && Rest(sat, drivers, rows) == []
    ensures IsMatching(sat, drivers, rows, choice) && AllSome(choice)
    ensures forall r: nat :: r < |rows| ==> Some(r) in choice
  {
    GreedyIsMatching(sat, drivers, rows);
    UnmatchedAreNone(sat, drivers, rows);
    RestIsFree(sat, drivers, rows);
    var p := Greedy(sat, drivers, rows);
    choice := p.choice;
    assert |Pick(rows, p.free)| == 0;
  }

  // ---- When satisfying means having the same key ----

  ghost predicate SameKey<D, R, K>(sat: (D, R) -> bool, driverKey: D -> K, rowKey: R -> K, drivers: seq<D>, rows: seq<R>) {
    forall d, r :: d in drivers && r in rows ==> (sat(d, r) <==> driverKey(d) == rowKey(r))
  }

  function Keys<T, K>(key: T -> K, items: seq<T>): (r: seq<K>)
    ensures |r| == |items| && forall i :: 0 <= i < |r| ==> r[i] == key(items[i])
  {
    seq(|items|, i requires 0 <= i < |items| => key(items[i]))
  }

  lemma KeysAppend<T, K>(key: T -> K, a: seq<T>, b: seq<T>)
    ensures Keys(key, a + b) == Keys(key, a) + Keys(key, b)
  {
  }

  function Count<T, K(==)>(key: T -> K, items: seq<T>, x: K): nat {
    if items == [] then 0
    else Count(key, items[..|items| - 1], x) + if key(items[|items| - 1]) == x then 1 else 0
  }

  lemma {:induction false} CountIsMultiplicity<T, K>(key: T -> K, items: seq<T>, x: K)
    ensures Count(key, items, x) == multiset(Keys(key, items))[x]
  {
    if items != [] {
      var before, last := items[..|items| - 1], items[|items| - 1];
      CountIsMultiplicity(key, before, x);
      assert items == before + [last];
      KeysAppend(key, before, [last]);
      assert Keys(key, [last]) == [key(last)];
    }
  }

  lemma {:induction false} CountAppend<T, K>(key: T -> K, a: seq<T>, b: seq<T>, x: K)
    ensures Count(key, a + b, x) == Count(key, a, x) + Count(key, b, x)
  {
    if b == [] {
      assert a + b == a;
    } else {
      CountAppend(key, a, b[..|b| - 1], x);
      assert (a + b)[..|a + b| - 1] == a + b[..|b| - 1];
    }
  }

  lemma CountOne<T, K>(key: T -> K, item: T, x: K)
    ensures Count(key, [item], x) == if key(item) == x then 1 else 0
  {
    assert [item][..0] == [];
  }

  lemma CountOfRemove<T, K>(key: T -> K, items: seq<T>, k: nat, x: K)
    requires k < |items|
    ensures Count(key, Remove(items, k), x) == Count(key, items, x) - if key(items[k]) == x then 1 else 0
  {
    hide Count;
    CountAppend(key, items[..k], items[k + 1..], x);
    CountAppend(key, items[..k], [items[k]], x);
    CountAppend(key, items[..k] + [items[k]], items[k + 1..], x);
    CountOne(key, items[k], x);
    assert items[..k] + [items[k]] + items[k + 1..] == items;
  }

  lemma {:induction false} CountZero<T, K>(key: T -> K, items: seq<T>, x: K)
    ensures Count(key, items, x) == 0 <==> forall k :: 0 <= k < |items| ==> key(items[k]) != x
  {
    if items != [] {
      var before := items[..|items| - 1];
      CountZero(key, before, x);
      assert forall k :: 0 <= k < |before| ==> items[k] == before[k];
    }
  }

  function Monus(a: nat, b: nat): nat { if a > b then a - b else 0 }

  /** A driver takes one row of its own key if there is one, and none of any other key. */
  lemma ConsumeCount<D, R, K>(sat: (D, R) -> bool, driverKey: D -> K, rowKey: R -> K, driver: D, rows: seq<R>, x: K)
    requires forall r :: r in rows ==> (sat(driver, r) <==> driverKey(driver) == rowKey(r))
    ensures Count(rowKey, Consume(sat, driver, rows), x) == Monus(Count(rowKey, rows, x), if driverKey(driver) == x then 1 else 0)
    ensures FirstFit(sat, driver, rows) < |rows| <==> Count(rowKey, rows, driverKey(driver)) > 0
  {
    var k := FirstFit(sat, driver, rows);
    CountZero(rowKey, rows, driverKey(driver));
    assert forall j :: 0 <= j < |rows| ==> rows[j] in rows;
    if k < |rows| {
      CountOfRemove(rowKey, rows, k, x);
    }
  }

  /** When rows satisfy by key, what is left over on either side is the excess of that side, key by key. */
  lemma {:induction false} LeftoversAreExcess<D, R, K>(sat: (D, R) -> bool, driverKey: D -> K, rowKey: R -> K, drivers: seq<D>, rows: seq<R>, x: K)
    requires SameKey(sat, driverKey, rowKey, drivers, rows)
    ensures Count(rowKey, Rest(sat, drivers, rows), x) == Monus(Count(rowKey, rows, x), Count(driverKey, drivers, x))
    ensures Count(driverKey, Unmatched(sat, drivers, rows), x) == Monus(Count(driverKey, drivers, x), Count(rowKey, rows, x))
  {
    hide Consume;
    if drivers == [] {
    } else {
      var before, driver := drivers[..|drivers| - 1], drivers[|drivers| - 1];
      LeftoversAreExcess(sat, driverKey, rowKey, before, rows, x);
      RestIsAmongRows(sat, before, rows);
      ConsumeCount(sat, driverKey, rowKey, driver, Rest(sat, before, rows), x);
      var unmatched := Unmatched(sat, before, rows);
      CountAppend(driverKey, unmatched, [driver], x);
      assert [driver][..0] == [] && unmatched + [] == unmatched;
    }
  }

  lemma SubsetByElements<K>(s: seq<K>, t: multiset<K>)
    requires forall i :: 0 <= i < |s| ==> multiset(s)[s[i]] <= t[s[i]]
    ensures multiset(s) <= t
  {
  }

  lemma SomeIsOver<T, K>(key: T -> K, items: seq<T>)
    requires items != []
    ensures Count(key, items, key(items[0])) > 0
  {
    CountZero(key, items, key(items[0]));
  }

  /** The excess of one key, in terms of the multisets of keys. */
  lemma ExcessOfKey<D, R, K>(sat: (D, R) -> bool, driverKey: D -> K, rowKey: R -> K, drivers: seq<D>, rows: seq<R>, x: K)
    requires SameKey(sat, driverKey, rowKey, drivers, rows)
    ensures Count(driverKey, Unmatched(sat, drivers, rows), x) > 0 <==> multiset(Keys(driverKey, drivers))[x] > multiset(Keys(rowKey, rows))[x]
    ensures Count(rowKey, Rest(sat, drivers, rows), x) > 0 <==> multiset(Keys(rowKey, rows))[x] > multiset(Keys(driverKey, drivers))[x]
  {
    hide Count, Keys, Unmatched, Rest;
    LeftoversAreExcess(sat, driverKey, rowKey, drivers, rows, x);
    CountIsMultiplicity(driverKey, drivers, x);
    CountIsMultiplicity(rowKey, rows, x);
  }

  /** No driver is left over exactly when every key occurs among the rows at least as often as among the drivers. */
  lemma UnmatchedIsExcess<D, R, K>(sat: (D, R) -> bool, driverKey: D -> K, rowKey: R -> K, drivers: seq<D>, rows: seq<R>)
    requires SameKey(sat, driverKey, rowKey, drivers, rows)
    ensures Unmatched(sat, drivers, rows) == [] <==> multiset(Keys(driverKey, drivers)) <= multiset(Keys(rowKey, rows))
  {
    hide Keys, Unmatched, SameKey;
    var keys, unmatched := Keys(driverKey, drivers), Unmatched(sat, drivers, rows);
    if unmatched == [] {
      forall i | 0 <= i < |keys| ensures multiset(keys)[keys[i]] <= multiset(Keys(rowKey, rows))[keys[i]] {
        ExcessOfKey(sat, driverKey, rowKey, drivers, rows, keys[i]);
      }
      SubsetByElements(keys, multiset(Keys(rowKey, rows)));
    } else {
      SomeIsOver(driverKey, unmatched);
      ExcessOfKey(sat, driverKey, rowKey, drivers, rows, driverKey(unmatched[0]));
    }
  }

  /** No row is left over exactly when every key occurs among the drivers at least as often as among the rows. */
  lemma RestIsExcess<D, R, K>(sat: (D, R) -> bool, driverKey: D -> K, rowKey: R -> K, drivers: seq<D>, rows: seq<R>)
    requires SameKey(sat, driverKey, rowKey, drivers, rows)
    ensures Rest(sat, drivers, rows) == [] <==> multiset(Keys(rowKey, rows)) <= multiset(Keys(driverKey, drivers))
  {
    hide Keys, Rest, SameKey;
    var keys, left := Keys(rowKey, rows), Rest(sat, drivers, rows);
    if left == [] {
      forall i | 0 <= i < |keys| ensures multiset(keys)[keys[i]] <= multiset(Keys(driverKey, drivers))[keys[i]] {
        ExcessOfKey(sat, driverKey, rowKey, drivers, rows, keys[i]);
      }
      SubsetByElements(keys, multiset(Keys(driverKey, drivers)));
    } else {
      SomeIsOver(rowKey, left);
      ExcessOfKey(sat, driverKey, rowKey, drivers, rows, rowKey(left[0]));
    }
  }

  lemma MutualSubsets<K>(a: multiset<K>, b: multiset<K>)
    ensures a <= b && b <= a <==> a == b
  {
  }

  /** Nothing is left over on either side exactly when both sides hold the same keys the same number of times. */
  lemma ExactWhenKeysDecide<D, R, K>(sat: (D, R) -> bool, driverKey: D -> K, rowKey: R -> K, drivers: seq<D>, rows: seq<R>)
    requires SameKey(sat, driverKey, rowKey, drivers, rows)
    ensures (Unmatched(sat, drivers, rows) == [] && Rest(sat, drivers, rows) == [])
         <==> multiset(Keys(driverKey, drivers)) == multiset(Keys(rowKey, rows))
  {
    hide Keys, Unmatched, Rest, SameKey;
    UnmatchedIsExcess(sat, driverKey, rowKey, drivers, rows);
    RestIsExcess(sat, driverKey, rowKey, drivers, rows);
    MutualSubsets(multiset(Keys(driverKey, drivers)), multiset(Keys(rowKey, rows)));
  }

  // ---- Which rows are consumed when keys decide ----

  lemma CountNext<T, K>(key: T -> K, items: seq<T>, n: nat, x: K)
    requires n < |items|
    ensures Count(key, items[..n + 1], x) == Count(key, items[..n], x) + if key(items[n]) == x then 1 else 0
  {
    assert items[..n + 1][..n] == items[..n];
  }

  lemma {:induction false} CountGrows<T, K>(key: T -> K, items: seq<T>, m: nat, n: nat, x: K)
    requires m <= n <= |items|
    ensures Count(key, items[..m], x) <= Count(key, items[..n], x)
    decreases n
  {
    if m < n {
      CountNext(key, items, n - 1, x);
      CountGrows(key, items, m, n - 1, x);
    }
  }

  /** When every x before the end has fewer than n before it, there are at most n. */
  lemma {:induction false} CountAtMost<T, K>(key: T -> K, items: seq<T>, end: nat, x: K, n: nat)
    requires end <= |items|
    requires forall r :: 0 <= r < end && key(items[r]) == x ==> Count(key, items[..r], x) < n
    ensures Count(key, items[..end], x) <= n
    decreases end
  {
    if end > 0 {
      CountNext(key, items, end - 1, x);
      CountAtMost(key, items, end - 1, x, n);
    }
  }

  /** The rows with the same key that come before row r. */
  function Earlier<R, K(==)>(rowKey: R -> K, rows: seq<R>, r: nat): nat
    requires r < |rows|
  {
    Count(rowKey, rows[..r], rowKey(rows[r]))
  }

  ghost predicate FreeByRank<D, R, K>(driverKey: D -> K, rowKey: R -> K, drivers: seq<D>, rows: seq<R>, free: seq<nat>) {
    forall r: nat :: r < |rows| ==> (r in free <==> Earlier(rowKey, rows, r) >= Count(driverKey, drivers, rowKey(rows[r])))
  }

  /** The first free row with the driver's key has exactly as many of that key before it as there were drivers of it. */
  lemma FirstFreeRank<D, R, K>(driverKey: D -> K, rowKey: R -> K, drivers: seq<D>, rows: seq<R>, free: seq<nat>, k: nat)
    requires FreeByRank(driverKey, rowKey, drivers, rows, free) && InRange(free, |rows|) && Ascends(free) && k < |free|
    requires forall j :: 0 <= j < k ==> rowKey(rows[free[j]]) != rowKey(rows[free[k]])
    ensures Earlier(rowKey, rows, free[k]) == Count(driverKey, drivers, rowKey(rows[free[k]]))
  {
    var x := rowKey(rows[free[k]]);
    var n := Count(driverKey, drivers, x);
    forall r | 0 <= r < free[k] && rowKey(rows[r]) == x ensures Count(rowKey, rows[..r], x) < n {
      forall j | 0 <= j < |free| ensures free[j] != r {
      }
      assert Earlier(rowKey, rows, r) < n;
    }
    CountAtMost(rowKey, rows, free[k], x, n);
    assert free[k] in free;
  }

  /** A later row with the same key has more of that key before it. */
  lemma LaterRank<R, K>(rowKey: R -> K, rows: seq<R>, r: nat, q: nat)
    requires r < q < |rows| && rowKey(rows[r]) == rowKey(rows[q])
    ensures Earlier(rowKey, rows, r) < Earlier(rowKey, rows, q)
  {
    CountNext(rowKey, rows, r, rowKey(rows[r]));
    CountGrows(rowKey, rows, r + 1, q, rowKey(rows[r]));
  }

  lemma TurnByRank<D, R, K>(sat: (D, R) -> bool, driverKey: D -> K, rowKey: R -> K, drivers: seq<D>, driver: D, rows: seq<R>, p: Pairing)
    requires forall r :: r in rows ==> (sat(driver, r) <==> driverKey(driver) == rowKey(r))
    requires InRange(p.free, |rows|) && Ascends(p.free) && FreeByRank(driverKey, rowKey, drivers, rows, p.free)
    ensures FreeByRank(driverKey, rowKey, drivers + [driver], rows, Turn(sat, driver, rows, p).free)
  {
    var left := Pick(rows, p.free);
    var k := FirstFit(sat, driver, left);
    var x, free := driverKey(driver), Turn(sat, driver, rows, p).free;
    forall j | 0 <= j < |left| ensures sat(driver, left[j]) <==> rowKey(rows[p.free[j]]) == x {
      assert rows[p.free[j]] in rows;
    }
    if k < |p.free| {
      FirstFreeRank(driverKey, rowKey, drivers, rows, p.free, k);
    }
    forall r: nat | r < |rows|
      ensures r in free <==> Earlier(rowKey, rows, r) >= Count(driverKey, drivers + [driver], rowKey(rows[r]))
    {
      CountNext(driverKey, drivers + [driver], |drivers|, rowKey(rows[r]));
      assert (drivers + [driver])[..|drivers|] == drivers && (drivers + [driver])[..|drivers| + 1] == drivers + [driver];
      RankOfRow(rowKey, rows, p.free, free, k, x, r, Count(driverKey, drivers, rowKey(rows[r])));
    }
  }

  lemma RemoveKeeps(free: seq<nat>, k: nat, r: nat)
    requires k < |free| && Ascends(free)
    ensures r in Remove(free, k) <==> r in free && r != free[k]
  {
    if r in free && r != free[k] {
      var j :| 0 <= j < |free| && free[j] == r;
      assert Remove(free, k)[if j < k then j else j - 1] == r;
    }
  }

  lemma RankOfRow<R, K>(rowKey: R -> K, rows: seq<R>, before: seq<nat>, after: seq<nat>, k: nat, x: K, r: nat, n: nat)
    requires InRange(before, |rows|) && Ascends(before) && r < |rows| && k <= |before|
    requires after == if k < |before| then Remove(before, k) else before
    requires forall j :: 0 <= j < k ==> rowKey(rows[before[j]]) != x
    requires k < |before| ==> rowKey(rows[before[k]]) == x && (rowKey(rows[r]) == x ==> Earlier(rowKey, rows, before[k]) == n)
    requires r in before <==> Earlier(rowKey, rows, r) >= n
    ensures r in after <==> Earlier(rowKey, rows, r) >= n + if rowKey(rows[r]) == x then 1 else 0
  {
    hide Earlier, Remove;
    if k < |before| {
      RemoveKeeps(before, k, r);
      if r in before && r != before[k] && rowKey(rows[r]) == x {
        var j :| 0 <= j < |before| && before[j] == r;
        assert j > k;
        LaterRank(rowKey, rows, before[k], r);
      }
    }
  }

  /** When keys decide, a row stays free exactly when at least as many earlier rows share its key as there are drivers of it. */
  lemma {:induction false} FirstRowsOfEachKeyGo<D, R, K>(sat: (D, R) -> bool, driverKey: D -> K, rowKey: R -> K, drivers: seq<D>, rows: seq<R>)
    requires SameKey(sat, driverKey, rowKey, drivers, rows)
    ensures FreeByRank(driverKey, rowKey, drivers, rows, Greedy(sat, drivers, rows).free)
  {
    hide Turn, Earlier, FreeByRank;
    if drivers == [] {
      NoDriversNoRank(driverKey, rowKey, rows);
    } else {
      var before, driver := drivers[..|drivers| - 1], drivers[|drivers| - 1];
      FirstRowsOfEachKeyGo(sat, driverKey, rowKey, before, rows);
      GreedyIsMatching(sat, before, rows);
      TurnByRank(sat, driverKey, rowKey, before, driver, rows, Greedy(sat, before, rows));
      assert drivers == before + [driver];
    }
  }

  lemma NoDriversNoRank<D, R, K>(driverKey: D -> K, rowKey: R -> K, rows: seq<R>)
    ensures FreeByRank(driverKey, rowKey, [], rows, seq(|rows|, k => k))
  {
    var free := seq(|rows|, k => k);
    forall r: nat | r < |rows| ensures r in free {
      assert free[r] == r;
    }
  }
}
