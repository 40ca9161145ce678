/** Exactly when first fit finds as much as any matching: for fixed drivers and every list of rows, and the other way round. */
module FirstFitExact {
  import opened Basics
  import opened Exchange
  import opened Matching
  import opened Text

  ghost predicate DistinctIndices(idx: seq<nat>) {
    forall u, v :: 0 <= u < v < |idx| ==> idx[u] != idx[v]
  }

  ghost predicate AllOk<R>(ok: R -> bool, rows: seq<R>) {
    forall k :: 0 <= k < |rows| ==> ok(rows[k])
  }

  /** The indices that are flagged, ascending. */
  function Where(flags: seq<bool>): (idx: seq<nat>)
    ensures forall v :: 0 <= v < |idx| ==> idx[v] < |flags| && flags[idx[v]]
    ensures forall m: nat :: m < |flags| && flags[m] ==> m in idx
    ensures forall u, v :: 0 <= u < v < |idx| ==> idx[u] < idx[v]
  {
    if flags == [] then []
    else
      var n := |flags| - 1;
      Where(flags[..n]) + if flags[n] then [n] else []
  }

  // ---- A list of rows made for a list of drivers ----

  /** A driver's place in an index list. */
  function PositionIn(idx: seq<nat>, m: nat): (p: Option<nat>)
    ensures p.Some? ==> p.value < |idx| && idx[p.value] == m
    ensures p.Some? <==> m in idx
  {
    if idx == [] then None
    else if idx[|idx| - 1] == m then Some(|idx| - 1)
    else PositionIn(idx[..|idx| - 1], m)
  }

  function Positions(idx: seq<nat>, n: nat): (choice: seq<Option<nat>>)
    ensures |choice| == n && forall m :: 0 <= m < n ==> choice[m] == PositionIn(idx, m)
  {
    seq(n, m requires 0 <= m < n => PositionIn(idx, m))
  }

  /** Rows laid out in the order of an index list of their drivers are a matching. */
  lemma PositionsMatch<D, R>(sat: (D, R) -> bool, drivers: seq<D>, rows: seq<R>, idx: seq<nat>)
    requires |rows| == |idx|
    requires forall v :: 0 <= v < |idx| ==> idx[v] < |drivers| && sat(drivers[idx[v]], rows[v])
    ensures IsMatching(sat, drivers, rows, Positions(idx, |drivers|))
  {
  }

  /** The row a driver is to have: s if it fits, else r if it fits, else any row that does. */
  ghost function OwnRow<D, R(!new)>(sat: (D, R) -> bool, ok: R -> bool, d: D, r: R, s: R): (w: Option<R>)
    requires ok(r) && ok(s)
    ensures w.Some? ==> ok(w.value) && sat(d, w.value)
    ensures w.Some? <==> exists x :: ok(x) && sat(d, x)
    ensures sat(d, s) ==> w == Some(s)
    ensures !sat(d, s) && sat(d, r) ==> w == Some(r)
  {
    if sat(d, s) then Some(s)
    else if sat(d, r) then Some(r)
    else if exists x :: ok(x) && sat(d, x) then var x :| ok(x) && sat(d, x); Some(x)
    else None
  }

  // ---- Where first fit falls short, for drivers that do not nest ----

  /** Which drivers have a row of their own that is not s. */
  ghost function IsFirst<D, R(!new)>(sat: (D, R) -> bool, ok: R -> bool, drivers: seq<D>, r: R, s: R): (flags: seq<bool>)
    requires ok(r) && ok(s)
    ensures |flags| == |drivers|
    ensures forall m :: 0 <= m < |flags| ==> (flags[m] <==> !sat(drivers[m], s) && OwnRow(sat, ok, drivers[m], r, s).Some?)
  {
    seq(|drivers|, m requires 0 <= m < |drivers| => !sat(drivers[m], s) && OwnRow(sat, ok, drivers[m], r, s).Some?)
  }

  /** Which drivers s fits. */
  function IsLast<D, R>(sat: (D, R) -> bool, drivers: seq<D>, s: R): (flags: seq<bool>)
    ensures |flags| == |drivers| && forall m :: 0 <= m < |flags| ==> (flags[m] <==> sat(drivers[m], s))
  {
    seq(|drivers|, m requires 0 <= m < |drivers| => sat(drivers[m], s))
  }

  /** The drivers in the order in which their own rows are laid out: those of s come last. */
  ghost function Layout<D, R(!new)>(sat: (D, R) -> bool, ok: R -> bool, drivers: seq<D>, r: R, s: R): (idx: seq<nat>)
    requires ok(r) && ok(s)
    ensures DistinctIndices(idx)
    ensures forall v :: 0 <= v < |idx| ==> idx[v] < |drivers| && OwnRow(sat, ok, drivers[idx[v]], r, s).Some?
    ensures forall v :: 0 <= v < |idx| ==> (sat(drivers[idx[v]], s) <==> v >= |Where(IsFirst(sat, ok, drivers, r, s))|)
    ensures forall m: nat :: m < |drivers| && OwnRow(sat, ok, drivers[m], r, s).Some? ==> m in idx
  {
    Where(IsFirst(sat, ok, drivers, r, s)) + Where(IsLast(sat, drivers, s))
  }

  ghost function LaidRows<D, R(!new)>(sat: (D, R) -> bool, ok: R -> bool, drivers: seq<D>, r: R, s: R): (rows: seq<R>)
    requires ok(r) && ok(s)
    ensures var idx := Layout(sat, ok, drivers, r, s);
            |rows| == |idx| && forall v :: 0 <= v < |idx| ==> Some(rows[v]) == OwnRow(sat, ok, drivers[idx[v]], r, s)
    ensures AllOk(ok, rows)
  {
    var idx := Layout(sat, ok, drivers, r, s);
    seq(|idx|, v requires 0 <= v < |idx| => OwnRow(sat, ok, drivers[idx[v]], r, s).value)
  }

  /** Driver i fits r and s, the later driver j fits r only, and no driver before i fits both. */
  ghost predicate Clash<D, R>(sat: (D, R) -> bool, ok: R -> bool, drivers: seq<D>, i: nat, j: nat, r: R, s: R) {
    && i < j < |drivers| && ok(r) && ok(s)
    && sat(drivers[i], r) && sat(drivers[i], s) && sat(drivers[j], r) && !sat(drivers[j], s)
    && forall h :: 0 <= h < i ==> !(sat(drivers[h], r) && sat(drivers[h], s))
  }

  lemma LaidIsMatching<D, R(!new)>(sat: (D, R) -> bool, ok: R -> bool, drivers: seq<D>, r: R, s: R)
    requires ok(r) && ok(s)
    ensures IsMatching(sat, drivers, LaidRows(sat, ok, drivers, r, s), Positions(Layout(sat, ok, drivers, r, s), |drivers|))
  {
    hide Layout, LaidRows, OwnRow;
    var idx, rows := Layout(sat, ok, drivers, r, s), LaidRows(sat, ok, drivers, r, s);
    forall v | 0 <= v < |idx| ensures idx[v] < |drivers| && sat(drivers[idx[v]], rows[v]) {
    }
    PositionsMatch(sat, drivers, rows, idx);
  }

  /** The places of the drivers that fit r but not s: they hold r, and come before the places of s. */
  lemma PlaceOfR<D, R(!new)>(sat: (D, R) -> bool, ok: R -> bool, drivers: seq<D>, r: R, s: R, m: nat)
    requires ok(r) && ok(s) && m < |drivers| && sat(drivers[m], r) && !sat(drivers[m], s)
    ensures var idx, first := Layout(sat, ok, drivers, r, s), |Where(IsFirst(sat, ok, drivers, r, s))|;
            var p := PositionIn(idx, m);
            p.Some? && p.value < first && p.value < |idx| && LaidRows(sat, ok, drivers, r, s)[p.value] == r
  {
    hide Layout, LaidRows, IsFirst, Where, PositionIn;
    assert OwnRow(sat, ok, drivers[m], r, s) == Some(r);
  }

  lemma PlaceOfS<D, R(!new)>(sat: (D, R) -> bool, ok: R -> bool, drivers: seq<D>, r: R, s: R, m: nat)
    requires ok(r) && ok(s) && m < |drivers| && sat(drivers[m], s)
    ensures var idx, first := Layout(sat, ok, drivers, r, s), |Where(IsFirst(sat, ok, drivers, r, s))|;
            var p := PositionIn(idx, m);
            p.Some? && first <= p.value < |idx| && LaidRows(sat, ok, drivers, r, s)[p.value] == s
  {
    hide Layout, LaidRows, IsFirst, Where, PositionIn;
    assert OwnRow(sat, ok, drivers[m], r, s) == Some(s);
  }

  ghost predicate HavePlaces(own: seq<Option<nat>>, wanting: set<nat>, places: set<nat>) {
    forall m :: m in wanting ==> m < |own| && own[m].Some? && own[m].value in places
  }

  /** With more drivers that have places of their own than takers, some place is left by the takers. */
  lemma OnePlaceIsLeft<D, R>(sat: (D, R) -> bool, drivers: seq<D>, rows: seq<R>, own: seq<Option<nat>>, g: seq<Option<nat>>,
                             wanting: set<nat>, takers: set<nat>, places: set<nat>) returns (v: nat)
    requires IsMatching(sat, drivers, rows, own) && HavePlaces(own, wanting, places) && |takers| < |wanting|
    ensures v in places && !ChosenBy(g, v, takers)
  {
    DriversFitRows(own, wanting, places);
    if forall v :: v in places ==> ChosenBy(g, v, takers) {
      RowsFitDrivers(g, places, takers);
    }
    v :| v in places && !ChosenBy(g, v, takers);
  }

  ghost function Fitting<D, R>(sat: (D, R) -> bool, drivers: seq<D>, x: R, end: nat): set<nat> {
    set m: nat | m < |drivers| && m < end && sat(drivers[m], x)
  }

  ghost function PlacesOf<R>(rows: seq<R>, x: R, from: nat, end: nat): set<nat> {
    set v: nat | v < |rows| && from <= v < end && rows[v] == x
  }

  lemma NotTaken<D, R>(sat: (D, R) -> bool, drivers: seq<D>, rows: seq<R>, v: nat, end: nat)
    requires v < |rows| && end <= |drivers|
    requires !ChosenBy(Greedy(sat, drivers, rows).choice, v, Fitting(sat, drivers, rows[v], end))
    ensures Some(v) !in Greedy(sat, drivers, rows).choice[..end]
  {
    hide Greedy;
    GreedyIsMatching(sat, drivers, rows);
    var g := Greedy(sat, drivers, rows).choice;
    forall h | 0 <= h < end ensures g[..end][h] != Some(v) {
      assert h in Fitting(sat, drivers, rows[v], end) <==> sat(drivers[h], rows[v]);
    }
  }

  lemma WantingR<D, R(!new)>(sat: (D, R) -> bool, ok: R -> bool, drivers: seq<D>, i: nat, j: nat, r: R, s: R, m: nat)
    requires Clash(sat, ok, drivers, i, j, r, s) && m in Fitting(sat, drivers, r, i) + {j}
    ensures var rows, first := LaidRows(sat, ok, drivers, r, s), |Where(IsFirst(sat, ok, drivers, r, s))|;
            var p := PositionIn(Layout(sat, ok, drivers, r, s), m);
            m < |drivers| && p.Some? && p.value in PlacesOf(rows, r, 0, first)
  {
    hide Layout, LaidRows, IsFirst, Where, PositionIn, OwnRow;
    PlaceOfR(sat, ok, drivers, r, s, m);
  }

  lemma AllWantingR<D, R(!new)>(sat: (D, R) -> bool, ok: R -> bool, drivers: seq<D>, i: nat, j: nat, r: R, s: R)
    requires Clash(sat, ok, drivers, i, j, r, s)
    ensures var rows, first := LaidRows(sat, ok, drivers, r, s), |Where(IsFirst(sat, ok, drivers, r, s))|;
            HavePlaces(Positions(Layout(sat, ok, drivers, r, s), |drivers|), Fitting(sat, drivers, r, i) + {j}, PlacesOf(rows, r, 0, first))
  {
    hide Layout, LaidRows, IsFirst, Where, PositionIn, OwnRow, Fitting, PlacesOf;
    forall m | m in Fitting(sat, drivers, r, i) + {j}
      ensures m < |drivers| && PositionIn(Layout(sat, ok, drivers, r, s), m).Some?
           && PositionIn(Layout(sat, ok, drivers, r, s), m).value
              in PlacesOf(LaidRows(sat, ok, drivers, r, s), r, 0, |Where(IsFirst(sat, ok, drivers, r, s))|)
    {
      WantingR(sat, ok, drivers, i, j, r, s, m);
    }
  }

  lemma FewerBefore<D, R(!new)>(sat: (D, R) -> bool, ok: R -> bool, drivers: seq<D>, i: nat, j: nat, r: R, s: R)
    requires Clash(sat, ok, drivers, i, j, r, s)
    ensures |Fitting(sat, drivers, r, i)| < |Fitting(sat, drivers, r, i) + {j}|
  {
  }

  /** Before driver i has its turn, some row r before the rows s is still free. */
  lemma SomeRIsFree<D, R(!new)>(sat: (D, R) -> bool, ok: R -> bool, drivers: seq<D>, i: nat, j: nat, r: R, s: R) returns (v: nat)
    requires Clash(sat, ok, drivers, i, j, r, s)
    ensures var rows := LaidRows(sat, ok, drivers, r, s);
            && v < |Where(IsFirst(sat, ok, drivers, r, s))| && v < |rows| && rows[v] == r
            && Some(v) !in Greedy(sat, drivers, rows).choice[..i]
  {
    hide Layout, LaidRows, IsFirst, Where, Positions, OwnRow, Greedy, Fitting, ChosenBy, HavePlaces, IsMatching;
    var rows, first := LaidRows(sat, ok, drivers, r, s), |Where(IsFirst(sat, ok, drivers, r, s))|;
    var own := Positions(Layout(sat, ok, drivers, r, s), |drivers|);
    var early := Fitting(sat, drivers, r, i);
    LaidIsMatching(sat, ok, drivers, r, s);
    AllWantingR(sat, ok, drivers, i, j, r, s);
    FewerBefore(sat, ok, drivers, i, j, r, s);
    v := OnePlaceIsLeft(sat, drivers, rows, own, Greedy(sat, drivers, rows).choice, early + {j}, early, PlacesOf(rows, r, 0, first));
    NotTaken(sat, drivers, rows, v, i);
  }

  lemma WantingS<D, R(!new)>(sat: (D, R) -> bool, ok: R -> bool, drivers: seq<D>, r: R, s: R, m: nat)
    requires ok(r) && ok(s) && m in Fitting(sat, drivers, s, |drivers|)
    ensures var rows, first := LaidRows(sat, ok, drivers, r, s), |Where(IsFirst(sat, ok, drivers, r, s))|;
            var p := PositionIn(Layout(sat, ok, drivers, r, s), m);
            m < |drivers| && p.Some? && p.value in PlacesOf(rows, s, first, |rows|)
  {
    hide Layout, LaidRows, IsFirst, Where, PositionIn, OwnRow;
    PlaceOfS(sat, ok, drivers, r, s, m);
  }

  lemma AllWantingS<D, R(!new)>(sat: (D, R) -> bool, ok: R -> bool, drivers: seq<D>, r: R, s: R)
    requires ok(r) && ok(s)
    ensures var rows, first := LaidRows(sat, ok, drivers, r, s), |Where(IsFirst(sat, ok, drivers, r, s))|;
            HavePlaces(Positions(Layout(sat, ok, drivers, r, s), |drivers|), Fitting(sat, drivers, s, |drivers|), PlacesOf(rows, s, first, |rows|))
  {
    hide Layout, LaidRows, IsFirst, Where, PositionIn, OwnRow, Fitting, PlacesOf;
    forall m | m in Fitting(sat, drivers, s, |drivers|)
      ensures m < |drivers| && PositionIn(Layout(sat, ok, drivers, r, s), m).Some?
           && PositionIn(Layout(sat, ok, drivers, r, s), m).value
              in PlacesOf(LaidRows(sat, ok, drivers, r, s), s, |Where(IsFirst(sat, ok, drivers, r, s))|, |LaidRows(sat, ok, drivers, r, s)|)
    {
      WantingS(sat, ok, drivers, r, s, m);
    }
  }

  /** Driver i took a row before the rows s, so it is none of those that took a row s. */
  lemma NotTakenAtAll<D, R>(sat: (D, R) -> bool, drivers: seq<D>, rows: seq<R>, i: nat, s: R, f: nat)
    requires i < |drivers| && f < |rows| && rows[f] == s
    requires Greedy(sat, drivers, rows).choice[i] != Some(f)
    requires !ChosenBy(Greedy(sat, drivers, rows).choice, f, Fitting(sat, drivers, s, |drivers|) - {i})
    ensures Some(f) !in Greedy(sat, drivers, rows).choice
  {
    hide Greedy;
    GreedyIsMatching(sat, drivers, rows);
    var g := Greedy(sat, drivers, rows).choice;
    forall h | 0 <= h < |g| ensures g[h] != Some(f) {
      assert h in Fitting(sat, drivers, s, |drivers|) <==> sat(drivers[h], s);
    }
  }

  lemma FewerWithout<D, R(!new)>(sat: (D, R) -> bool, ok: R -> bool, drivers: seq<D>, i: nat, j: nat, r: R, s: R)
    requires Clash(sat, ok, drivers, i, j, r, s)
    ensures |Fitting(sat, drivers, s, |drivers|) - {i}| < |Fitting(sat, drivers, s, |drivers|)|
  {
    assert i in Fitting(sat, drivers, s, |drivers|);
  }

  /** When first fit is done with the laid-out rows, at least one of them is left. */
  lemma SomethingIsLeft<D, R(!new)>(sat: (D, R) -> bool, ok: R -> bool, drivers: seq<D>, i: nat, j: nat, r: R, s: R) returns (f: nat)
    requires Clash(sat, ok, drivers, i, j, r, s)
    ensures var rows := LaidRows(sat, ok, drivers, r, s);
            f < |rows| && Some(f) !in Greedy(sat, drivers, rows).choice
  {
    hide Layout, LaidRows, IsFirst, Where, Positions, OwnRow, Greedy, Fitting, ChosenBy, HavePlaces, IsMatching;
    var rows, first := LaidRows(sat, ok, drivers, r, s), |Where(IsFirst(sat, ok, drivers, r, s))|;
    var own, g := Positions(Layout(sat, ok, drivers, r, s), |drivers|), Greedy(sat, drivers, rows).choice;
    var fitting := Fitting(sat, drivers, s, |drivers|);
    LaidIsMatching(sat, ok, drivers, r, s);
    AllWantingS(sat, ok, drivers, r, s);
    FewerWithout(sat, ok, drivers, i, j, r, s);
    var v := SomeRIsFree(sat, ok, drivers, i, j, r, s);
    PicksNoLater(sat, drivers, rows, i, v);
    f := OnePlaceIsLeft(sat, drivers, rows, own, g, fitting, fitting - {i}, PlacesOf(rows, s, first, |rows|));
    NotTakenAtAll(sat, drivers, rows, i, s, f);
  }

  ghost function Below(n: nat): (all: set<nat>)
    ensures forall v: nat :: v in all <==> v < n
  {
    if n == 0 then {} else Below(n - 1) + {n - 1}
  }

  /** A matching that uses every row beats first fit when that leaves one. */
  lemma LeftMeansWorse<D, R>(sat: (D, R) -> bool, drivers: seq<D>, rows: seq<R>, own: seq<Option<nat>>, f: nat)
    requires forall v: nat :: v in Below(|rows|) ==> ChosenBy(own, v, Matched(own))
    requires f < |rows| && Some(f) !in Greedy(sat, drivers, rows).choice
    ensures |Matched(own)| > |Matched(Greedy(sat, drivers, rows).choice)|
  {
    hide Greedy;
    var g, all := Greedy(sat, drivers, rows).choice, Below(|rows|);
    GreedyIsMatching(sat, drivers, rows);
    forall m | m in Matched(g) ensures g[m].value in all - {f} {
      assert g[m] in g;
    }
    DriversFitRows(g, Matched(g), all - {f});
    RowsFitDrivers(own, all, Matched(own));
  }

  lemma LaidIsUsed<D, R(!new)>(sat: (D, R) -> bool, ok: R -> bool, drivers: seq<D>, r: R, s: R, v: nat)
    requires ok(r) && ok(s) && v < |LaidRows(sat, ok, drivers, r, s)|
    ensures var own := Positions(Layout(sat, ok, drivers, r, s), |drivers|); ChosenBy(own, v, Matched(own))
  {
    hide Layout, LaidRows, PositionIn, OwnRow;
    var idx := Layout(sat, ok, drivers, r, s);
    var own := Positions(idx, |drivers|);
    assert idx[v] in idx;
    assert own[idx[v]] == PositionIn(idx, idx[v]);
    assert own[idx[v]] == Some(v);
  }

  // ---- Fixed drivers, every list of rows ----

  /** Of two drivers that share a row, the later one fits every row the earlier one fits. */
  ghost predicate DriversNest<D, R(!new)>(sat: (D, R) -> bool, ok: R -> bool, drivers: seq<D>) {
    forall i, j, r, s :: 0 <= i < j < |drivers| && ok(r) && ok(s) ==> ExchangesAt(sat, drivers[i], drivers[j], r, s)
  }

  ghost predicate IsBestOn<D, R>(sat: (D, R) -> bool, drivers: seq<D>, rows: seq<R>) {
    forall other :: IsMatching(sat, drivers, rows, other) ==> |Matched(other)| <= |Matched(Greedy(sat, drivers, rows).choice)|
  }

  lemma NestingExchanges<D, R(!new)>(sat: (D, R) -> bool, ok: R -> bool, drivers: seq<D>, rows: seq<R>)
    requires DriversNest(sat, ok, drivers) && AllOk(ok, rows)
    ensures Exchanges(sat, drivers, rows)
  {
  }

  lemma ExchangingIsBest<D, R>(sat: (D, R) -> bool, drivers: seq<D>, rows: seq<R>)
    requires Exchanges(sat, drivers, rows)
    ensures IsBestOn(sat, drivers, rows)
  {
    hide Exchanges, Matched, Greedy;
    forall other | IsMatching(sat, drivers, rows, other) ensures |Matched(other)| <= |Matched(Greedy(sat, drivers, rows).choice)| {
      BestWhenRowsExchange(sat, drivers, rows, other);
      NumMatchedIs(other);
      UnmatchedCount(sat, drivers, rows);
    }
  }

  /** From any two drivers that do not nest to a pair whose first driver comes as early as it can. */
  lemma {:induction false} EarliestClash<D, R>(sat: (D, R) -> bool, ok: R -> bool, drivers: seq<D>, i: nat, j: nat, r: R, s: R) returns (first: nat)
    requires i < j < |drivers| && ok(r) && ok(s) && !ExchangesAt(sat, drivers[i], drivers[j], r, s)
    ensures Clash(sat, ok, drivers, first, j, r, s)
  {
    if h: nat :| h < i && sat(drivers[h], r) && sat(drivers[h], s) {
      first := EarliestClash(sat, ok, drivers, h, j, r, s);
    } else {
      first := i;
    }
  }

  lemma ClashIsWorse<D, R(!new)>(sat: (D, R) -> bool, ok: R -> bool, drivers: seq<D>, i: nat, j: nat, r: R, s: R)
    requires Clash(sat, ok, drivers, i, j, r, s)
    ensures !IsBestOn(sat, drivers, LaidRows(sat, ok, drivers, r, s))
  {
    hide Layout, LaidRows, Positions, OwnRow, Greedy, Matched, ChosenBy, IsMatching;
    var rows, own := LaidRows(sat, ok, drivers, r, s), Positions(Layout(sat, ok, drivers, r, s), |drivers|);
    LaidIsMatching(sat, ok, drivers, r, s);
    forall v: nat | v in Below(|rows|) ensures ChosenBy(own, v, Matched(own)) {
      LaidIsUsed(sat, ok, drivers, r, s, v);
    }
    var f := SomethingIsLeft(sat, ok, drivers, i, j, r, s);
    LeftMeansWorse(sat, drivers, rows, own, f);
  }

  /** First fit pairs as many of these drivers as any matching, whatever the rows, if and only if the drivers nest. */
  lemma BestOnAllRowsIffNested<D, R(!new)>(sat: (D, R) -> bool, ok: R -> bool, drivers: seq<D>)
    ensures (forall rows :: AllOk(ok, rows) ==> IsBestOn(sat, drivers, rows)) <==> DriversNest(sat, ok, drivers)
  {
    hide IsBestOn, Exchanges, Clash;
    if DriversNest(sat, ok, drivers) {
      forall rows | AllOk(ok, rows) ensures IsBestOn(sat, drivers, rows) {
        NestingExchanges(sat, ok, drivers, rows);
        ExchangingIsBest(sat, drivers, rows);
      }
    } else {
      var i: nat, j: nat, r, s :| i < j < |drivers| && ok(r) && ok(s) && !ExchangesAt(sat, drivers[i], drivers[j], r, s);
      var first := EarliestClash(sat, ok, drivers, i, j, r, s);
      ClashIsWorse(sat, ok, drivers, first, j, r, s);
      assert AllOk(ok, LaidRows(sat, ok, drivers, r, s));
    }
  }

  // ---- One-to-one pairings ----

  function Always<R>(): R -> bool { (r: R) => true }

  /** Drivers and rows can be paired one to one, with none left on either side. */
  ghost predicate CanPair<D, R>(sat: (D, R) -> bool, drivers: seq<D>, rows: seq<R>) {
    exists choice: seq<Option<nat>> :: IsFull(sat, Always(), drivers, rows, choice)
  }

  ghost predicate LeavesNothing<D, R>(sat: (D, R) -> bool, drivers: seq<D>, rows: seq<R>) {
    Unmatched(sat, drivers, rows) == [] && Rest(sat, drivers, rows) == []
  }

  ghost predicate HasRow<D, R(!new)>(sat: (D, R) -> bool, ok: R -> bool, d: D) {
    exists r :: ok(r) && sat(d, r)
  }

  lemma ExchangingFindsPairing<D, R>(sat: (D, R) -> bool, drivers: seq<D>, rows: seq<R>)
    requires Exchanges(sat, drivers, rows) && CanPair(sat, drivers, rows)
    ensures LeavesNothing(sat, drivers, rows)
  {
    hide Exchanges, IsFull, Unmatched, Rest;
    var choice: seq<Option<nat>> :| IsFull(sat, Always(), drivers, rows, choice);
    assert PrefersMust(sat, Always(), drivers, rows);
    var left := Rest(sat, drivers, rows);
    assert left == [] || Always<R>()(left[0]);
    FullWhenRowsExchange(sat, Always(), drivers, rows, choice);
  }

  lemma LeavingNothingPairs<D, R>(sat: (D, R) -> bool, drivers: seq<D>, rows: seq<R>)
    requires LeavesNothing(sat, drivers, rows)
    ensures CanPair(sat, drivers, rows)
  {
    hide Unmatched, Rest, IsMatching;
    var choice := NothingLeftIsPairing(sat, drivers, rows);
    assert IsFull(sat, Always(), drivers, rows, choice);
  }

  lemma ClashMissesPairing<D, R(!new)>(sat: (D, R) -> bool, ok: R -> bool, drivers: seq<D>, i: nat, j: nat, r: R, s: R)
    requires Clash(sat, ok, drivers, i, j, r, s) && forall m :: 0 <= m < |drivers| ==> HasRow(sat, ok, drivers[m])
    ensures var rows := LaidRows(sat, ok, drivers, r, s); CanPair(sat, drivers, rows) && !LeavesNothing(sat, drivers, rows)
  {
    hide Layout, LaidRows, Greedy, IsMatching, Unmatched, Rest, Clash, Matched, PositionIn;
    ClashIsOk(sat, ok, drivers, i, j, r, s);
    var rows, own := LaidRows(sat, ok, drivers, r, s), Positions(Layout(sat, ok, drivers, r, s), |drivers|);
    LaidIsMatching(sat, ok, drivers, r, s);
    LaidServesAll(sat, ok, drivers, r, s);
    forall v: nat | v < |rows| ensures Some(v) in own {
      LaidIsUsed(sat, ok, drivers, r, s, v);
    }
    assert IsFull(sat, Always(), drivers, rows, own);
    var f := SomethingIsLeft(sat, ok, drivers, i, j, r, s);
    FreeMeansRest(sat, drivers, rows, f);
  }

  lemma ClashIsOk<D, R(!new)>(sat: (D, R) -> bool, ok: R -> bool, drivers: seq<D>, i: nat, j: nat, r: R, s: R)
    requires Clash(sat, ok, drivers, i, j, r, s)
    ensures ok(r) && ok(s)
  {
  }

  lemma LaidServesAll<D, R(!new)>(sat: (D, R) -> bool, ok: R -> bool, drivers: seq<D>, r: R, s: R)
    requires ok(r) && ok(s) && forall m :: 0 <= m < |drivers| ==> HasRow(sat, ok, drivers[m])
    ensures AllSome(Positions(Layout(sat, ok, drivers, r, s), |drivers|))
  {
    hide Layout, PositionIn;
    var idx := Layout(sat, ok, drivers, r, s);
    forall m: nat | m < |drivers| ensures PositionIn(idx, m).Some? {
      assert HasRow(sat, ok, drivers[m]);
      assert OwnRow(sat, ok, drivers[m], r, s).Some?;
    }
  }

  lemma FreeMeansRest<D, R>(sat: (D, R) -> bool, drivers: seq<D>, rows: seq<R>, f: nat)
    requires f < |rows| && Some(f) !in Greedy(sat, drivers, rows).choice
    ensures Rest(sat, drivers, rows) != []
  {
    hide Greedy, Rest;
    GreedyIsMatching(sat, drivers, rows);
    RestIsFree(sat, drivers, rows);
    assert f in Greedy(sat, drivers, rows).free;
  }

  /** First fit leaves nothing exactly when drivers and rows can be paired, whatever the rows, if and only if the drivers
      nest; or else some driver fits no row at all, and there is never a pairing. */
  lemma FindsEveryPairingIffNested<D, R(!new)>(sat: (D, R) -> bool, ok: R -> bool, drivers: seq<D>)
    ensures (forall rows :: AllOk(ok, rows) ==> (LeavesNothing(sat, drivers, rows) <==> CanPair(sat, drivers, rows)))
       <==> DriversNest(sat, ok, drivers) || exists m :: 0 <= m < |drivers| && !HasRow(sat, ok, drivers[m])
  {
    hide LeavesNothing, CanPair, Exchanges, Clash, HasRow;
    forall rows | AllOk(ok, rows)
      ensures LeavesNothing(sat, drivers, rows) ==> CanPair(sat, drivers, rows)
      ensures DriversNest(sat, ok, drivers) || (exists m :: 0 <= m < |drivers| && !HasRow(sat, ok, drivers[m])) ==>
                CanPair(sat, drivers, rows) ==> LeavesNothing(sat, drivers, rows)
    {
      NestedFindsPairing(sat, ok, drivers, rows);
    }
    if !DriversNest(sat, ok, drivers) && forall m :: 0 <= m < |drivers| ==> HasRow(sat, ok, drivers[m]) {
      var i: nat, j: nat, r, s :| i < j < |drivers| && ok(r) && ok(s) && !ExchangesAt(sat, drivers[i], drivers[j], r, s);
      var first := EarliestClash(sat, ok, drivers, i, j, r, s);
      ClashMissesPairing(sat, ok, drivers, first, j, r, s);
      assert AllOk(ok, LaidRows(sat, ok, drivers, r, s));
    }
  }

  lemma NestedFindsPairing<D, R(!new)>(sat: (D, R) -> bool, ok: R -> bool, drivers: seq<D>, rows: seq<R>)
    requires AllOk(ok, rows)
    ensures LeavesNothing(sat, drivers, rows) ==> CanPair(sat, drivers, rows)
    ensures DriversNest(sat, ok, drivers) || (exists m :: 0 <= m < |drivers| && !HasRow(sat, ok, drivers[m])) ==>
              CanPair(sat, drivers, rows) ==> LeavesNothing(sat, drivers, rows)
  {
    hide LeavesNothing, Exchanges;
    if LeavesNothing(sat, drivers, rows) {
      LeavingNothingPairs(sat, drivers, rows);
    }
    if CanPair(sat, drivers, rows) && DriversNest(sat, ok, drivers) {
      NestingExchanges(sat, ok, drivers, rows);
      ExchangingFindsPairing(sat, drivers, rows);
    }
    if CanPair(sat, drivers, rows) {
      PairedHasRow(sat, ok, drivers, rows);
    }
  }

  lemma PairedHasRow<D, R(!new)>(sat: (D, R) -> bool, ok: R -> bool, drivers: seq<D>, rows: seq<R>)
    requires AllOk(ok, rows) && CanPair(sat, drivers, rows)
    ensures forall m :: 0 <= m < |drivers| ==> HasRow(sat, ok, drivers[m])
  {
    var choice: seq<Option<nat>> :| IsFull(sat, Always(), drivers, rows, choice);
    forall m | 0 <= m < |drivers| ensures HasRow(sat, ok, drivers[m]) {
      assert choice[m].Some?;
      assert ok(rows[choice[m].value]) && sat(drivers[m], rows[choice[m].value]);
    }
  }
}
