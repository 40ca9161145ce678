/** Exactly when first fit finds every full matching of fixed rows, whatever the drivers. */
module FirstFitOnRows {
  import opened Basics
  import opened Exchange
  import opened FirstFitExact
  import opened Matching
  import opened Text

  /** The row predicate read the other way round: rows are given drivers instead of drivers rows. */
  function Flip<D, R>(sat: (D, R) -> bool): (R, D) -> bool { (r: R, d: D) => sat(d, r) }

  /** Of two rows that share a driver, the later one serves every driver that the earlier one serves. */
  ghost predicate RowsNest<D(!new), R>(sat: (D, R) -> bool, rows: seq<R>) {
    DriversNest(Flip(sat), Always(), rows)
  }

  /** No row that need not be taken comes before one that must, when they share a driver. */
  ghost predicate MustComeFirst<D(!new), R>(sat: (D, R) -> bool, must: R -> bool, rows: seq<R>) {
    forall p, q, d :: 0 <= p < q < |rows| ==> PrefersMustAt(sat, must, d, rows[p], rows[q])
  }

  /** First fit serves every driver and takes every row that must be taken. */
  ghost predicate Succeeds<D, R>(sat: (D, R) -> bool, must: R -> bool, drivers: seq<D>, rows: seq<R>) {
    Unmatched(sat, drivers, rows) == [] && NoneLeft(must, Rest(sat, drivers, rows))
  }

  ghost predicate CanSucceed<D, R>(sat: (D, R) -> bool, must: R -> bool, drivers: seq<D>, rows: seq<R>) {
    exists choice: seq<Option<nat>> :: IsFull(sat, must, drivers, rows, choice)
  }

  // ---- Success is always a full matching ----

  lemma SuccessIsFull<D, R>(sat: (D, R) -> bool, must: R -> bool, drivers: seq<D>, rows: seq<R>)
    requires Succeeds(sat, must, drivers, rows)
    ensures IsFull(sat, must, drivers, rows, Greedy(sat, drivers, rows).choice)
  {
    hide Greedy, Unmatched, Rest, IsMatching;
    GreedyIsMatching(sat, drivers, rows);
    UnmatchedAreNone(sat, drivers, rows);
    RestIsFree(sat, drivers, rows);
    var g := Greedy(sat, drivers, rows);
    forall k | 0 <= k < |g.free| ensures !must(rows[g.free[k]]) {
      assert Pick(rows, g.free)[k] == rows[g.free[k]];
    }
  }

  lemma NestingSucceeds<D(!new), R>(sat: (D, R) -> bool, must: R -> bool, drivers: seq<D>, rows: seq<R>)
    requires RowsNest(sat, rows) && MustComeFirst(sat, must, rows) && CanSucceed(sat, must, drivers, rows)
    ensures Succeeds(sat, must, drivers, rows)
  {
    hide IsFull, Unmatched, Rest;
    var choice: seq<Option<nat>> :| IsFull(sat, must, drivers, rows, choice);
    forall i, j, p, q | 0 <= i < j < |drivers| && 0 <= p < q < |rows| ensures ExchangesAt(sat, drivers[i], drivers[j], rows[p], rows[q]) {
      assert Always<D>()(drivers[i]) && Always<D>()(drivers[j]);
      assert ExchangesAt(Flip(sat), rows[p], rows[q], drivers[i], drivers[j]);
    }
    FullWhenRowsExchange(sat, must, drivers, rows, choice);
  }

  // ---- Drivers laid out for the rows ----

  function Somes(idx: seq<nat>): (choice: seq<Option<nat>>)
    ensures |choice| == |idx| && forall v :: 0 <= v < |idx| ==> choice[v] == Some(idx[v])
  {
    seq(|idx|, v requires 0 <= v < |idx| => Some(idx[v]))
  }

  lemma SomesMatch<D, R>(sat: (D, R) -> bool, drivers: seq<D>, rows: seq<R>, idx: seq<nat>)
    requires |drivers| == |idx| && DistinctIndices(idx)
    requires forall v :: 0 <= v < |idx| ==> idx[v] < |rows| && sat(drivers[v], rows[idx[v]])
    ensures IsMatching(sat, drivers, rows, Somes(idx)) && AllSome(Somes(idx))
  {
  }

  /** The drivers laid out for the rows that `serves` gives a driver; each of them has that row. */
  lemma LaidDriversMatch<D(!new), R>(sat: (D, R) -> bool, serves: (R, D) -> bool, rows: seq<R>, d: D, e: D)
    requires forall r, x :: serves(r, x) ==> sat(x, r)
    ensures var idx := Layout(serves, Always(), rows, d, e);
            IsMatching(sat, LaidRows(serves, Always(), rows, d, e), rows, Somes(idx)) && AllSome(Somes(idx))
  {
    hide Layout, LaidRows, OwnRow;
    var idx, drivers := Layout(serves, Always(), rows, d, e), LaidRows(serves, Always(), rows, d, e);
    forall v | 0 <= v < |idx| ensures idx[v] < |rows| && sat(drivers[v], rows[idx[v]]) {
      assert serves(rows[idx[v]], drivers[v]);
    }
    SomesMatch(sat, drivers, rows, idx);
  }

  /** Rows that must be taken and that some driver can be given are all given one. */
  lemma LaidDriversCover<D(!new), R>(serves: (R, D) -> bool, must: R -> bool, rows: seq<R>, d: D, e: D)
    requires forall r :: r in rows && must(r) ==> HasRow(serves, Always(), r)
    ensures forall h: nat :: h < |rows| && must(rows[h]) ==> Some(h) in Somes(Layout(serves, Always(), rows, d, e))
  {
    hide Layout;
    var idx := Layout(serves, Always(), rows, d, e);
    forall h: nat | h < |rows| && must(rows[h]) ensures Some(h) in Somes(idx) {
      assert HasRow(serves, Always(), rows[h]);
      assert OwnRow(serves, Always(), rows[h], d, e).Some?;
      var v :| 0 <= v < |idx| && idx[v] == h;
      assert Somes(idx)[v] == Some(h);
    }
  }

  // ---- Where first fit falls short, for rows that do not nest ----

  /** The rows before p that serve d; row p itself and every row that serves e. */
  lemma TooManyForEarly<D(!new), R>(sat: (D, R) -> bool, rows: seq<R>, p: nat, q: nat, d: D, e: D)
    requires Clash(Flip(sat), Always(), rows, p, q, d, e)
    ensures var drivers, first := LaidRows(Flip(sat), Always(), rows, d, e), |Where(IsFirst(Flip(sat), Always(), rows, d, e))|;
            |Fitting(Flip(sat), rows, d, p)| < |PlacesOf(drivers, d, 0, first)|
  {
    hide Layout, LaidRows, IsFirst, Where, Positions, OwnRow, Fitting, PlacesOf, HavePlaces;
    var drivers, first := LaidRows(Flip(sat), Always(), rows, d, e), |Where(IsFirst(Flip(sat), Always(), rows, d, e))|;
    var own := Positions(Layout(Flip(sat), Always(), rows, d, e), |rows|);
    ClashIsOk(Flip(sat), Always(), rows, p, q, d, e);
    LaidIsMatching(Flip(sat), Always(), rows, d, e);
    AllWantingR(Flip(sat), Always(), rows, p, q, d, e);
    FewerBefore(Flip(sat), Always(), rows, p, q, d, e);
    PlacesSuffice(Flip(sat), rows, drivers, own, Fitting(Flip(sat), rows, d, p) + {q}, PlacesOf(drivers, d, 0, first));
  }

  lemma PlacesSuffice<D, R>(sat: (D, R) -> bool, drivers: seq<D>, rows: seq<R>, own: seq<Option<nat>>, wanting: set<nat>, places: set<nat>)
    requires IsMatching(sat, drivers, rows, own) && HavePlaces(own, wanting, places)
    ensures |wanting| <= |places|
  {
    DriversFitRows(own, wanting, places);
  }

  /** A driver d that finds row p free takes it or an earlier row that serves d. */
  lemma TakesUpToP<D, R>(sat: (D, R) -> bool, drivers: seq<D>, rows: seq<R>, p: nat, d: D, v: nat)
    requires v < |drivers| && drivers[v] == d && p < |rows| && sat(d, rows[p])
    requires forall m: nat :: m <= v ==> Greedy(sat, drivers, rows).choice[m] != Some(p)
    ensures var c := Greedy(sat, drivers, rows).choice[v]; c.Some? && c.value in Fitting(Flip(sat), rows, d, p)
  {
    hide Greedy;
    var g := Greedy(sat, drivers, rows).choice;
    GreedyIsMatching(sat, drivers, rows);
    forall m | 0 <= m < v ensures g[..v][m] != Some(p) {
    }
    PicksNoLater(sat, drivers, rows, v, p);
  }

  lemma SomeoneTakesP<D(!new), R>(sat: (D, R) -> bool, rows: seq<R>, p: nat, q: nat, d: D, e: D) returns (m: nat)
    requires Clash(Flip(sat), Always(), rows, p, q, d, e)
    ensures var drivers, first := LaidRows(Flip(sat), Always(), rows, d, e), |Where(IsFirst(Flip(sat), Always(), rows, d, e))|;
            m < |drivers| && m < first && Greedy(sat, drivers, rows).choice[m] == Some(p)
  {
    hide Layout, LaidRows, IsFirst, Where, OwnRow, Greedy, Fitting;
    var drivers, first := LaidRows(Flip(sat), Always(), rows, d, e), |Where(IsFirst(Flip(sat), Always(), rows, d, e))|;
    var g, copies := Greedy(sat, drivers, rows).choice, PlacesOf(drivers, d, 0, first);
    if forall m: nat :: m < |drivers| && m < first ==> g[m] != Some(p) {
      forall v | v in copies ensures v < |g| && g[v].Some? && g[v].value in Fitting(Flip(sat), rows, d, p) {
        TakesUpToP(sat, drivers, rows, p, d, v);
      }
      hide PlacesOf, Clash;
      TooManyForEarly(sat, rows, p, q, d, e);
      GreedyIsMatching(sat, drivers, rows);
      PlacesSuffice(sat, drivers, rows, g, copies, Fitting(Flip(sat), rows, d, p));
    }
    m :| m < |drivers| && m < first && g[m] == Some(p);
  }

  /** With row p gone there are more drivers e than rows for them. */
  lemma ClashLeavesDriver<D(!new), R>(sat: (D, R) -> bool, rows: seq<R>, p: nat, q: nat, d: D, e: D)
    requires Clash(Flip(sat), Always(), rows, p, q, d, e)
    ensures Unmatched(sat, LaidRows(Flip(sat), Always(), rows, d, e), rows) != []
  {
    hide Layout, LaidRows, IsFirst, Where, Positions, OwnRow, Greedy, Fitting, PlacesOf, HavePlaces, IsMatching, Unmatched;
    var drivers, first := LaidRows(Flip(sat), Always(), rows, d, e), |Where(IsFirst(Flip(sat), Always(), rows, d, e))|;
    var own := Positions(Layout(Flip(sat), Always(), rows, d, e), |rows|);
    var g, copies, wanted := Greedy(sat, drivers, rows).choice, PlacesOf(drivers, e, first, |drivers|), Fitting(Flip(sat), rows, e, |rows|);
    ClashIsOk(Flip(sat), Always(), rows, p, q, d, e);
    LaidIsMatching(Flip(sat), Always(), rows, d, e);
    AllWantingS(Flip(sat), Always(), rows, d, e);
    PlacesSuffice(Flip(sat), rows, drivers, own, wanted, copies);
    FewerWithout(Flip(sat), Always(), rows, p, q, d, e);
    var m := SomeoneTakesP(sat, rows, p, q, d, e);
    GreedyIsMatching(sat, drivers, rows);
    UnmatchedAreNone(sat, drivers, rows);
    if AllSome(g) {
      OthersTakeOthers(sat, drivers, rows, g, m, p, e, first);
      PlacesSuffice(sat, drivers, rows, g, copies, wanted - {p});
    }
  }

  lemma OthersTakeOthers<D, R>(sat: (D, R) -> bool, drivers: seq<D>, rows: seq<R>, g: seq<Option<nat>>, m: nat, p: nat, e: D, first: nat)
    requires IsMatching(sat, drivers, rows, g) && AllSome(g) && m < first && m < |drivers| && g[m] == Some(p)
    ensures HavePlaces(g, PlacesOf(drivers, e, first, |drivers|), Fitting(Flip(sat), rows, e, |rows|) - {p})
  {
    forall v | v in PlacesOf(drivers, e, first, |drivers|)
      ensures v < |g| && g[v].Some? && g[v].value in Fitting(Flip(sat), rows, e, |rows|) - {p}
    {
      assert m < v;
    }
  }

  lemma ClashFails<D(!new), R>(sat: (D, R) -> bool, must: R -> bool, rows: seq<R>, p: nat, q: nat, d: D, e: D)
    requires Clash(Flip(sat), Always(), rows, p, q, d, e)
    requires forall r :: r in rows && must(r) ==> HasRow(Flip(sat), Always(), r)
    ensures var drivers := LaidRows(Flip(sat), Always(), rows, d, e);
            CanSucceed(sat, must, drivers, rows) && !Succeeds(sat, must, drivers, rows)
  {
    hide Layout, LaidRows, OwnRow, Unmatched, Rest, IsMatching, HasRow;
    ClashIsOk(Flip(sat), Always(), rows, p, q, d, e);
    ClashLeavesDriver(sat, rows, p, q, d, e);
    hide Clash;
    LaidDriversMatch(sat, Flip(sat), rows, d, e);
    LaidDriversCover(Flip(sat), must, rows, d, e);
    assert IsFull(sat, must, LaidRows(Flip(sat), Always(), rows, d, e), rows, Somes(Layout(Flip(sat), Always(), rows, d, e)));
  }

  // ---- Where first fit falls short, for an optional row before one that must be taken ----

  /** The rows that must be taken, given drivers. */
  function FlipMust<D, R>(sat: (D, R) -> bool, must: R -> bool): (R, D) -> bool { (r: R, d: D) => must(r) && sat(d, r) }

  ghost function MustRows<R>(must: R -> bool, rows: seq<R>): set<nat> {
    set h: nat | h < |rows| && must(rows[h])
  }

  /** A full choice that spends driver m on another row has the other drivers take all rows that must be taken. */
  lemma OthersTakeMust<D, R>(sat: (D, R) -> bool, must: R -> bool, drivers: seq<D>, rows: seq<R>, g: seq<Option<nat>>, m: nat, p: nat)
    requires IsFull(sat, must, drivers, rows, g) && m < |g| && g[m] == Some(p) && p < |rows| && !must(rows[p])
    ensures |MustRows(must, rows)| < |Below(|g|)|
  {
    hide IsMatching;
    var others := Below(|g|) - {m};
    forall h | h in MustRows(must, rows) ensures ChosenBy(g, h, others) {
      var v :| 0 <= v < |g| && g[v] == Some(h);
      assert v in others;
    }
    RowsFitDrivers(g, MustRows(must, rows), others);
  }

  lemma MustRowsSuffice<D, R>(sat: (D, R) -> bool, must: R -> bool, drivers: seq<D>, rows: seq<R>, idx: seq<nat>)
    requires IsMatching(sat, drivers, rows, Somes(idx)) && forall v :: 0 <= v < |idx| ==> idx[v] in MustRows(must, rows)
    ensures |drivers| == |idx| && |Below(|drivers|)| <= |MustRows(must, rows)|
  {
    hide MustRows;
    MatchingLength(sat, drivers, rows, Somes(idx));
    assert HavePlaces(Somes(idx), Below(|drivers|), MustRows(must, rows));
    hide IsMatching, HavePlaces;
    PlacesSuffice(sat, drivers, rows, Somes(idx), Below(|drivers|), MustRows(must, rows));
  }

  /** There are no more drivers than rows that must be taken, so nobody can be spared for another row. */
  lemma NobodyIsSpare<D, R>(sat: (D, R) -> bool, must: R -> bool, drivers: seq<D>, rows: seq<R>, idx: seq<nat>, m: nat, p: nat)
    requires IsMatching(sat, drivers, rows, Somes(idx)) && forall v :: 0 <= v < |idx| ==> idx[v] in MustRows(must, rows)
    requires m < |drivers| && p < |rows| && !must(rows[p])
    requires Succeeds(sat, must, drivers, rows)
    ensures Greedy(sat, drivers, rows).choice[m] != Some(p)
  {
    SuccessIsFull(sat, must, drivers, rows);
    MustRowsSuffice(sat, must, drivers, rows, idx);
    hide Greedy, Succeeds, IsFull, MustRows, IsMatching;
    var g := Greedy(sat, drivers, rows).choice;
    if g[m] == Some(p) {
      OthersTakeMust(sat, must, drivers, rows, g, m, p);
    }
  }

  lemma TakesMustBeforeP<D, R>(sat: (D, R) -> bool, must: R -> bool, drivers: seq<D>, rows: seq<R>, p: nat, d: D, v: nat)
    requires v < |drivers| && drivers[v] == d && p < |rows| && sat(d, rows[p]) && !must(rows[p])
    requires Succeeds(sat, must, drivers, rows)
    requires forall h: nat, m: nat :: h < |rows| && !must(rows[h]) && m < |drivers| ==> Greedy(sat, drivers, rows).choice[m] != Some(h)
    ensures var c := Greedy(sat, drivers, rows).choice[v]; c.Some? && c.value in Fitting(FlipMust(sat, must), rows, d, p)
  {
    hide Greedy, Succeeds;
    TakesUpToP(sat, drivers, rows, p, d, v);
    var c := Greedy(sat, drivers, rows).choice[v];
    assert c == Some(c.value);
    FittingMust(sat, must, rows, d, p, c.value);
  }

  lemma FittingMust<D, R>(sat: (D, R) -> bool, must: R -> bool, rows: seq<R>, d: D, p: nat, h: nat)
    requires h in Fitting(Flip(sat), rows, d, p) && must(rows[h])
    ensures h in Fitting(FlipMust(sat, must), rows, d, p)
  {
  }

  /** As many drivers d as rows that must be taken and serve d, row p before one of them: they cannot all be served. */
  lemma LateMustFails<D(!new), R>(sat: (D, R) -> bool, must: R -> bool, rows: seq<R>, p: nat, q: nat, d: D)
    requires p < q < |rows| && sat(d, rows[p]) && sat(d, rows[q]) && !must(rows[p]) && must(rows[q])
    ensures !Succeeds(sat, must, LaidRows(FlipMust(sat, must), Always(), rows, d, d), rows)
  {
    hide Layout, LaidRows, IsFirst, Where, Positions, OwnRow, Greedy, PlacesOf, HavePlaces, IsMatching, Succeeds, Fitting;
    var serves := FlipMust(sat, must);
    assert Always<D>()(d);
    var drivers, first := LaidRows(serves, Always(), rows, d, d), |Where(IsFirst(serves, Always(), rows, d, d))|;
    var idx := Layout(serves, Always(), rows, d, d);
    var copies := PlacesOf(drivers, d, first, |drivers|);
    LaidIsMatching(serves, Always(), rows, d, d);
    AllWantingS(serves, Always(), rows, d, d);
    PlacesSuffice(serves, rows, drivers, Positions(idx, |rows|), Fitting(serves, rows, d, |rows|), copies);
    FewerBeforeQ(serves, rows, p, q, d);
    LaidDriversMatch(sat, serves, rows, d, d);
    GreedyIsMatching(sat, drivers, rows);
    if Succeeds(sat, must, drivers, rows) {
      forall v | 0 <= v < |idx| ensures idx[v] in MustRows(must, rows) {
        assert serves(rows[idx[v]], drivers[v]);
      }
      CopiesTakeEarly(sat, must, drivers, rows, idx, p, d, first);
      PlacesSuffice(sat, drivers, rows, Greedy(sat, drivers, rows).choice, copies, Fitting(serves, rows, d, p));
    }
  }

  lemma FewerBeforeQ<D, R>(serves: (R, D) -> bool, rows: seq<R>, p: nat, q: nat, d: D)
    requires p < q < |rows| && serves(rows[q], d)
    ensures |Fitting(serves, rows, d, p)| < |Fitting(serves, rows, d, |rows|)|
  {
    var early, all := Fitting(serves, rows, d, p), Fitting(serves, rows, d, |rows|);
    assert q in all && q !in early && early <= all - {q};
    SubsetIsSmaller(early, all - {q});
  }

  lemma CopiesTakeEarly<D, R>(sat: (D, R) -> bool, must: R -> bool, drivers: seq<D>, rows: seq<R>, idx: seq<nat>, p: nat, d: D, first: nat)
    requires IsMatching(sat, drivers, rows, Somes(idx)) && forall v :: 0 <= v < |idx| ==> idx[v] in MustRows(must, rows)
    requires p < |rows| && sat(d, rows[p]) && !must(rows[p]) && Succeeds(sat, must, drivers, rows)
    ensures HavePlaces(Greedy(sat, drivers, rows).choice, PlacesOf(drivers, d, first, |drivers|), Fitting(FlipMust(sat, must), rows, d, p))
  {
    hide Greedy, Succeeds, Fitting, MustRows, IsMatching;
    var g := Greedy(sat, drivers, rows).choice;
    forall h: nat, m: nat | h < |rows| && !must(rows[h]) && m < |drivers| ensures g[m] != Some(h) {
      NobodyIsSpare(sat, must, drivers, rows, idx, m, h);
    }
    forall v | v in PlacesOf(drivers, d, first, |drivers|) ensures v < |g| && g[v].Some? && g[v].value in Fitting(FlipMust(sat, must), rows, d, p) {
      TakesMustBeforeP(sat, must, drivers, rows, p, d, v);
    }
  }

  lemma LateMustCanSucceed<D(!new), R>(sat: (D, R) -> bool, must: R -> bool, rows: seq<R>, d: D)
    requires forall r :: r in rows && must(r) ==> HasRow(Flip(sat), Always(), r)
    ensures CanSucceed(sat, must, LaidRows(FlipMust(sat, must), Always(), rows, d, d), rows)
  {
    hide Layout, LaidRows, OwnRow, IsMatching;
    var serves := FlipMust(sat, must);
    assert Always<D>()(d);
    forall r | r in rows && must(r) ensures HasRow(serves, Always(), r) {
      assert HasRow(Flip(sat), Always(), r);
      var x :| Always<D>()(x) && Flip(sat)(r, x);
      assert serves(r, x);
    }
    LaidDriversMatch(sat, serves, rows, d, d);
    LaidDriversCover(serves, must, rows, d, d);
    assert IsFull(sat, must, LaidRows(serves, Always(), rows, d, d), rows, Somes(Layout(serves, Always(), rows, d, d)));
  }

  // ---- Fixed rows, every list of drivers ----

  /** First fit succeeds exactly when drivers can be given rows at all, whatever the drivers, if and only if the rows nest
      and those that must be taken come first. */
  lemma SucceedsWheneverPossibleIff<D(!new), R>(sat: (D, R) -> bool, must: R -> bool, rows: seq<R>)
    requires forall r :: r in rows && must(r) ==> HasRow(Flip(sat), Always(), r)
    ensures (forall drivers: seq<D> :: Succeeds(sat, must, drivers, rows) <==> CanSucceed(sat, must, drivers, rows))
       <==> RowsNest(sat, rows) && MustComeFirst(sat, must, rows)
  {
    hide Succeeds, CanSucceed, Clash, HasRow;
    forall drivers: seq<D>
      ensures Succeeds(sat, must, drivers, rows) ==> CanSucceed(sat, must, drivers, rows)
      ensures RowsNest(sat, rows) && MustComeFirst(sat, must, rows) && CanSucceed(sat, must, drivers, rows) ==> Succeeds(sat, must, drivers, rows)
    {
      BothWays(sat, must, drivers, rows);
    }
    if !RowsNest(sat, rows) {
      var p: nat, q: nat, d, e :| p < q < |rows| && !ExchangesAt(Flip(sat), rows[p], rows[q], d, e);
      assert Always<D>()(d) && Always<D>()(e);
      var first := EarliestClash(Flip(sat), Always(), rows, p, q, d, e);
      ClashFails(sat, must, rows, first, q, d, e);
    } else if !MustComeFirst(sat, must, rows) {
      var p: nat, q: nat, d :| p < q < |rows| && !PrefersMustAt(sat, must, d, rows[p], rows[q]);
      LateMustFails(sat, must, rows, p, q, d);
      LateMustCanSucceed(sat, must, rows, d);
    }
  }

  lemma BothWays<D(!new), R>(sat: (D, R) -> bool, must: R -> bool, drivers: seq<D>, rows: seq<R>)
    ensures Succeeds(sat, must, drivers, rows) ==> CanSucceed(sat, must, drivers, rows)
    ensures RowsNest(sat, rows) && MustComeFirst(sat, must, rows) && CanSucceed(sat, must, drivers, rows) ==> Succeeds(sat, must, drivers, rows)
  {
    hide Succeeds, IsFull, RowsNest, MustComeFirst;
    if Succeeds(sat, must, drivers, rows) {
      SuccessIsFull(sat, must, drivers, rows);
    }
    if RowsNest(sat, rows) && MustComeFirst(sat, must, rows) && CanSucceed(sat, must, drivers, rows) {
      NestingSucceeds(sat, must, drivers, rows);
    }
  }
}
