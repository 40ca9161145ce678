/** Clocks whose date goes back: localDayToUtcRange is right for a day exactly when the day has a range at all, and it has one
    exactly when the local date does not go back across its two midnights. */
module LocalDayBack {
  import opened Text
  import opened Calendar
  import opened LocalDay
  import opened LocalDaySteady
  import opened LocalDayExact

  /** The range holds the instants of the local day and no others. */
  ghost predicate IsRangeOf(zone: Zone, day: int, r: Range) {
    forall u :: r.startUtc <= u < r.endUtcExclusive <==> DayAt(zone, u) == day
  }

  ghost predicate NeverGoesBack(zone: Zone, day: int) { NeverBack(zone, day) && NeverBack(zone, day + 1) }

  /** A steady clock does not pass over a whole day, neither forward from one instant to the next nor backward. */
  lemma PassesOverNoDay(zone: Zone, day: int, u: int, v: int)
    requires IsSteadyAround(zone, day) && IsRead(day, u) && IsRead(day, v) && u <= v + 1
    requires DayAt(zone, u) > day
    ensures DayAt(zone, v) >= day
  {
    assert Offset(zone, u) - Offset(zone, v) <= 20 * HOUR;
    assert zone(u) >= (day + 1) * DAY;
    assert DayAt(zone, v) < day ==> zone(v) < day * DAY;
  }

  /** A day that has a range is not begun twice. */
  lemma BegunOnce(zone: Zone, day: int, r: Range, u: int, v: int)
    requires IsClock(zone, day) && IsSteadyAround(zone, day) && IsRangeOf(zone, day, r)
    requires IsSearched(day, u) && IsSearched(day, v) && u <= v && DayAt(zone, u) >= day
    ensures DayAt(zone, v) >= day
  {
    hide IsSteadyAround;
    if DayAt(zone, u) > day {
      PassesOverNoDay(zone, day, u, v);
    } else if DayAt(zone, v) < day {
      var noon := day * DAY + 12 * HOUR;
      assert OffsetFits(zone, v) && OffsetFits(zone, noon) by {
        assert IsSearched(day, noon);
      }
      assert v < noon && zone(noon) >= day * DAY;
      var w := FirstAt(zone, day, v, noon);
      assert r.endUtcExclusive <= v < w;
      assert DayAt(zone, w - 1) < day;
      PassesOverNoDay(zone, day, w, w - 1);
    }
  }

  /** A day that has a range is not come back to once it is over. */
  lemma OverOnce(zone: Zone, day: int, r: Range, u: int, v: int)
    requires IsClock(zone, day) && IsSteadyAround(zone, day) && IsRangeOf(zone, day, r)
    requires IsSearched(day + 1, u) && IsSearched(day + 1, v) && u <= v && DayAt(zone, u) >= day + 1
    ensures DayAt(zone, v) >= day + 1
  {
    hide IsSteadyAround;
    PassesOverNoDay(zone, day, u, v);
    if DayAt(zone, v) == day {
      var lo := day * DAY - 14 * HOUR;
      assert u < r.startUtc;
      assert OffsetFits(zone, lo) by {
        assert IsSearched(day, lo);
      }
      assert zone(lo) < (day + 1) * DAY;
      var w := FirstAt(zone, day, lo, u);
      assert lo < w && DayAt(zone, w - 1) < day;
      PassesOverNoDay(zone, day, w, w - 1);
    }
  }

  /** Whatever range is right for a day of a steady zone, the date does not go back across either midnight. */
  lemma RangeMeansNeverBack(zone: Zone, day: int, r: Range)
    requires IsClock(zone, day) && IsSteadyAround(zone, day) && IsRangeOf(zone, day, r)
    ensures NeverGoesBack(zone, day)
  {
    hide IsClock, IsSteadyAround, IsRangeOf;
    forall u, v | IsSearched(day, u) && IsSearched(day, v) && u <= v && DayAt(zone, u) >= day
      ensures DayAt(zone, v) >= day
    {
      BegunOnce(zone, day, r, u, v);
    }
    forall u, v | IsSearched(day + 1, u) && IsSearched(day + 1, v) && u <= v && DayAt(zone, u) >= day + 1
      ensures DayAt(zone, v) >= day + 1
    {
      OverOnce(zone, day, r, u, v);
    }
  }

  /** The exact condition for one zone: in a steady zone the range is right if and only if the date does not go back across
      the midnight of the day or of the next one; and when it does, no other range is right either. */
  lemma RightExactlyWhenDateNeverGoesBack(zone: Zone, s: string)
    requires IsCalendarStrict(s) && IsNearlySafeDate(s)
    requires IsClock(zone, DayNumber(DateIn(s))) && IsSteadyAround(zone, DayNumber(DateIn(s)))
    ensures IsRangeOf(zone, DayNumber(DateIn(s)), DayRange(zone, s)) <==> NeverGoesBack(zone, DayNumber(DateIn(s)))
    ensures IsRangeOf(zone, DayNumber(DateIn(s)), DayRange(zone, s)) <==> exists r :: IsRangeOf(zone, DayNumber(DateIn(s)), r)
  {
    hide IsClock, IsSteadyAround, DayRange, NeverBack;
    var day := DayNumber(DateIn(s));
    if r :| IsRangeOf(zone, day, r) {
      RangeMeansNeverBack(zone, day, r);
    }
    if NeverGoesBack(zone, day) {
      forall u ensures DayRange(zone, s).startUtc <= u < DayRange(zone, s).endUtcExclusive <==> DayAt(zone, u) == day {
        DayMembership(zone, s, u);
      }
    }
  }

  // ---- A clock that goes back across midnight ----

  /** UTC-2:30, until a minute past midnight of the day the clock is put back by an hour. */
  function PutBack(day: int): Zone {
    (u: int) => if u < day * DAY + 9_060_000 then u - 9_000_000 else u - 9_000_000 - HOUR
  }

  lemma PutBackIsSteady(day: int, around: int)
    ensures IsClockAround(PutBack(day), around) && IsSteadyAround(PutBack(day), around)
  {
    forall u ensures SameDayAllSecond(PutBack(day), u) {
      SecondsKeepDay(u - 9_000_000);
      SecondsKeepDay(u - 9_000_000 - HOUR);
      WholeSecondsShift(u);
      SameSideOfSecond(u, day * DAY + 9_060_000);
    }
  }

  lemma WholeSecondsShift(u: int)
    ensures (u - 9_000_000) / 1000 * 1000 == u / 1000 * 1000 - 9_000_000
    ensures (u - 9_000_000 - HOUR) / 1000 * 1000 == u / 1000 * 1000 - 9_000_000 - HOUR
  {
  }

  /** Neither the day that begins twice nor the day before has a range, so the source's range is wrong for both. */
  lemma PutBackHasNoRange(day: int, s: string)
    requires IsCalendarStrict(s) && day - 1 <= DayNumber(DateIn(s)) <= day
    ensures var zone, n := PutBack(day), DayNumber(DateIn(s));
            IsClock(zone, n) && IsSteadyAround(zone, n) && !IsRangeOf(zone, n, DayRange(zone, s)) && forall r :: !IsRangeOf(zone, n, r)
  {
    var zone, n := PutBack(day), DayNumber(DateIn(s));
    hide DayNumber, DayRange, IsCalendarStrict;
    PutBackIsSteady(day, n);
    PutBackIsSteady(day, n + 1);
    hide IsClockAround, IsSteadyAround;
    var u, v := day * DAY + 9_000_000, day * DAY + 9_060_000;
    assert IsSearched(day, u) && IsSearched(day, v) && DayAt(zone, u) == day && DayAt(zone, v) == day - 1;
    forall r ensures !IsRangeOf(zone, n, r) {
      if IsRangeOf(zone, n, r) {
        RangeMeansNeverBack(zone, n, r);
      }
    }
  }
}
