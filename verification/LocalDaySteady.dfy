/** The midnight search at the two ends of the four-digit years, in zones whose offset does not change by more than 20 hours. */
module LocalDaySteady {
  import opened Calendar
  import opened LocalDay
  import opened Text

  function Offset(zone: Zone, u: int): int { zone(u) - u }

  /** The instants that the two searches for a day can read. */
  predicate IsRead(day: int, u: int) { day * DAY - 14 * HOUR <= u <= day * DAY + DAY + 14 * HOUR }

  /** While a day is searched for, the offset of the zone changes by at most 20 hours. */
  ghost predicate IsSteadyAround(zone: Zone, day: int) {
    forall u, v :: IsRead(day, u) && IsRead(day, v) ==> Offset(zone, u) - Offset(zone, v) <= 20 * HOUR
  }

  /** The same for one search. */
  ghost predicate IsSteady(zone: Zone, day: int) {
    forall u, v :: IsSearched(day, u) && IsSearched(day, v) ==> Offset(zone, u) - Offset(zone, v) <= 20 * HOUR
  }

  // ---- Searches that are misled only far from the goal ----

  lemma WidthsOfHalves()
    ensures IsWidth(14 * HOUR) && IsWidth(7 * HOUR) && IsWidth(12_600_000)
  {
  }

  /** Readings from 12 hours before UTC midnight on are right, and midnight is later than 10 hours before it. */
  lemma SearchFindsLate(isBefore: int -> bool, utc: int, t: int)
    requires Separates(isBefore, utc - 12 * HOUR, utc + 14 * HOUR, t) && t % 1000 == 0
    requires utc - 10 * HOUR < t <= utc + 12 * HOUR
    ensures Search(isBefore, utc - 14 * HOUR, utc + 14 * HOUR) == t
  {
    WidthsOfHalves();
    hide IsWidth;
    var lo, hi := utc - 14 * HOUR, utc + 14 * HOUR;
    if isBefore(utc) {
      assert Search(isBefore, lo, hi) == Search(isBefore, utc, hi);
      SearchFinds(isBefore, utc, hi, t);
    } else if isBefore(utc - 7 * HOUR) {
      assert Search(isBefore, lo, hi) == Search(isBefore, lo, utc) == Search(isBefore, utc - 7 * HOUR, utc);
      SearchFinds(isBefore, utc - 7 * HOUR, utc, t);
    } else {
      assert Search(isBefore, lo, hi) == Search(isBefore, lo, utc) == Search(isBefore, lo, utc - 7 * HOUR);
      assert Search(isBefore, lo, utc - 7 * HOUR) == Search(isBefore, utc - 37_800_000, utc - 7 * HOUR);
      SearchFinds(isBefore, utc - 37_800_000, utc - 7 * HOUR, t);
    }
  }

  /** Readings until 10 hours after UTC midnight are right, or until 11 hours after it when midnight is in its eighth hour or later. */
  lemma SearchFindsEarly(isBefore: int -> bool, utc: int, t: int)
    requires Separates(isBefore, utc - 14 * HOUR, utc + 10 * HOUR - 1, t) && t % 1000 == 0
    requires t > utc + 7 * HOUR ==> Separates(isBefore, utc - 14 * HOUR, utc + 11 * HOUR - 1, t)
    requires utc - 14 * HOUR <= t <= utc + 10 * HOUR
    ensures Search(isBefore, utc - 14 * HOUR, utc + 14 * HOUR) == t
  {
    WidthsOfHalves();
    hide IsWidth;
    var lo, hi := utc - 14 * HOUR, utc + 14 * HOUR;
    if !isBefore(utc) {
      assert Search(isBefore, lo, hi) == Search(isBefore, lo, utc);
      SearchFinds(isBefore, lo, utc, t);
    } else if !isBefore(utc + 7 * HOUR) {
      assert Search(isBefore, lo, hi) == Search(isBefore, utc, hi) == Search(isBefore, utc, utc + 7 * HOUR);
      SearchFinds(isBefore, utc, utc + 7 * HOUR, t);
    } else {
      assert Search(isBefore, lo, hi) == Search(isBefore, utc, hi) == Search(isBefore, utc + 7 * HOUR, hi);
      assert Search(isBefore, utc + 7 * HOUR, hi) == Search(isBefore, utc + 7 * HOUR, utc + 37_800_000);
      SearchFinds(isBefore, utc + 7 * HOUR, utc + 37_800_000, t);
    }
  }

  // ---- The second day of the year 1000 ----

  /** An instant whose local date still has a three-digit year. */
  predicate ReadsTooEarly(zone: Zone, day: int, u: int) { DayAt(zone, u) < day - 1 }

  lemma RightUnlessTooEarly(zone: Zone, d: Date, u: int, t: int)
    requires IsReal(d) && DayNumber(d) == FIRST_DAY + 1 && IsClockAround(zone, DayNumber(d)) && IsSearched(DayNumber(d), u)
    requires DayAt(zone, u) >= DayNumber(d) <==> u >= t
    requires !ReadsTooEarly(zone, DayNumber(d), u)
    ensures IsBefore(zone, Written(d))(u) <==> u < t
  {
    hide Written, DayNumber, FIRST_DAY, LAST_DAY, CompareToMidnight;
    ReadingsAreNear(zone, DayNumber(d), u);
    EndsAreApart();
    CompareIsDayOrder(zone, d, u);
  }

  lemma EndsAreApart()
    ensures FIRST_DAY + 10 < LAST_DAY
  {
  }

  lemma TooEarlyMeansFarWest(zone: Zone, day: int, u: int)
    requires ReadsTooEarly(zone, day, u)
    ensures Offset(zone, u) < day * DAY - u - DAY
  {
    assert zone(u) < (day - 1) * DAY;
  }

  /** A first instant that is far from a reading that is too early. */
  lemma MidnightIsLate(zone: Zone, day: int, u: int, t: int)
    requires IsClockAround(zone, day) && IsSteady(zone, day) && ReadsTooEarly(zone, day, u)
    requires IsSearched(day, u) && IsSearched(day, t) && DayAt(zone, t) >= day
    ensures t > day * DAY - 10 * HOUR && u < day * DAY - 12 * HOUR
  {
    TooEarlyMeansFarWest(zone, day, u);
    assert zone(t) >= day * DAY;
    assert Offset(zone, t) - Offset(zone, u) <= 20 * HOUR;
  }

  lemma SecondDayIsFound(zone: Zone, d: Date)
    requires IsReal(d) && DayNumber(d) == FIRST_DAY + 1
    requires IsClockAround(zone, DayNumber(d)) && NeverBack(zone, DayNumber(d)) && IsSteady(zone, DayNumber(d))
    ensures Midnight(zone, d) == FirstInstant(zone, DayNumber(d))
  {
    hide Written, DayNumber, FIRST_DAY, LAST_DAY, CompareToMidnight, ReadsTooEarly;
    var day, isBefore := DayNumber(d), IsBefore(zone, Written(d));
    var utc, t := day * DAY, FirstInstant(zone, day);
    EndsAreApart();
    FourDigitUtcDay(d);
    if u :| IsSearched(day, u) && ReadsTooEarly(zone, day, u) {
      MidnightIsLate(zone, day, u, t);
      forall v | utc - 12 * HOUR <= v <= utc + 14 * HOUR ensures isBefore(v) <==> v < t {
        NotTooEarly(zone, day, v);
        RightUnlessTooEarly(zone, d, v, t);
      }
      SearchFindsLate(isBefore, utc, t);
    } else {
      forall v | utc - 14 * HOUR <= v <= utc + 14 * HOUR ensures isBefore(v) <==> v < t {
        RightUnlessTooEarly(zone, d, v, t);
      }
      MidnightSeparates(zone, d, t);
    }
  }

  lemma NotTooEarly(zone: Zone, day: int, v: int)
    requires IsClockAround(zone, day) && IsSearched(day, v) && v >= day * DAY - 12 * HOUR
    ensures !ReadsTooEarly(zone, day, v)
  {
    assert OffsetFits(zone, v);
    assert zone(v) >= (day - 1) * DAY;
  }

  // ---- The last day of the year 9999 ----

  /** An instant whose local date already has a five-digit year. */
  predicate ReadsTooLate(zone: Zone, day: int, u: int) { DayAt(zone, u) > day }

  lemma RightUnlessTooLate(zone: Zone, d: Date, u: int, t: int)
    requires IsReal(d) && DayNumber(d) == LAST_DAY && IsClockAround(zone, DayNumber(d)) && IsSearched(DayNumber(d), u)
    requires DayAt(zone, u) >= DayNumber(d) <==> u >= t
    requires !ReadsTooLate(zone, DayNumber(d), u)
    ensures IsBefore(zone, Written(d))(u) <==> u < t
  {
    hide Written, DayNumber, FIRST_DAY, LAST_DAY, CompareToMidnight;
    ReadingsAreNear(zone, DayNumber(d), u);
    EndsAreApart();
    CompareIsDayOrder(zone, d, u);
  }

  lemma TooLateMeansFarEast(zone: Zone, day: int, u: int)
    requires ReadsTooLate(zone, day, u)
    ensures Offset(zone, u) >= day * DAY + DAY - u
  {
    assert zone(u) >= (day + 1) * DAY;
  }

  /** With a reading that is too late, ten hours past UTC midnight is past midnight everywhere before it. */
  lemma MidnightIsEarly(zone: Zone, day: int, u: int)
    requires IsClockAround(zone, day) && IsSteady(zone, day) && ReadsTooLate(zone, day, u) && IsSearched(day, u)
    ensures DayAt(zone, day * DAY + 10 * HOUR) >= day && u >= day * DAY + 10 * HOUR
  {
    TooLateMeansFarEast(zone, day, u);
    assert OffsetFits(zone, u) && IsSearched(day, day * DAY + 10 * HOUR);
    assert Offset(zone, u) - Offset(zone, day * DAY + 10 * HOUR) <= 20 * HOUR;
    assert zone(day * DAY + 10 * HOUR) >= day * DAY;
  }

  /** When seven hours past UTC midnight is still before midnight, readings are not too late before eleven hours past it. */
  lemma LaterStill(zone: Zone, day: int, u: int)
    requires IsClockAround(zone, day) && IsSteady(zone, day) && ReadsTooLate(zone, day, u) && IsSearched(day, u)
    requires DayAt(zone, day * DAY + 7 * HOUR) < day
    ensures u >= day * DAY + 11 * HOUR
  {
    TooLateMeansFarEast(zone, day, u);
    assert IsSearched(day, day * DAY + 7 * HOUR);
    assert zone(day * DAY + 7 * HOUR) < day * DAY;
    assert Offset(zone, u) - Offset(zone, day * DAY + 7 * HOUR) <= 20 * HOUR;
  }

  lemma LastDayIsFound(zone: Zone, d: Date)
    requires IsReal(d) && DayNumber(d) == LAST_DAY
    requires IsClockAround(zone, DayNumber(d)) && NeverBack(zone, DayNumber(d)) && IsSteady(zone, DayNumber(d))
    ensures Midnight(zone, d) == FirstInstant(zone, DayNumber(d))
  {
    hide Written, DayNumber, FIRST_DAY, LAST_DAY, CompareToMidnight, ReadsTooLate, NeverBack, IsClockAround, IsSteady;
    var day, isBefore := DayNumber(d), IsBefore(zone, Written(d));
    var utc, t := day * DAY, FirstInstant(zone, day);
    EndsAreApart();
    FourDigitUtcDay(d);
    if u :| IsSearched(day, u) && ReadsTooLate(zone, day, u) {
      MidnightIsEarly(zone, day, u);
      forall v | utc - 14 * HOUR <= v <= utc + 14 * HOUR && v < (if t > utc + 7 * HOUR then utc + 11 * HOUR else utc + 10 * HOUR)
        ensures isBefore(v) <==> v < t
      {
        if ReadsTooLate(zone, day, v) {
          MidnightIsEarly(zone, day, v);
          LaterStill(zone, day, v);
        }
        RightUnlessTooLate(zone, d, v, t);
      }
      SearchFindsEarly(isBefore, utc, t);
    } else {
      forall v | utc - 14 * HOUR <= v <= utc + 14 * HOUR ensures isBefore(v) <==> v < t {
        RightUnlessTooLate(zone, d, v, t);
      }
      MidnightSeparates(zone, d, t);
    }
  }

  // ---- All days from 1000-01-02 to 9999-12-31 ----

  lemma SteadyAroundIsSteady(zone: Zone, day: int)
    requires IsSteadyAround(zone, day)
    ensures IsSteady(zone, day) && IsSteady(zone, day + 1)
  {
    forall u ensures IsSearched(day, u) || IsSearched(day + 1, u) <==> IsRead(day, u) {
    }
  }

  /** In a steady zone the search returns the first instant of the local day, one day nearer to the ends than in every zone. */
  lemma MidnightIsFirstWhenSteady(zone: Zone, d: Date)
    requires IsReal(d) && FIRST_DAY + 1 <= DayNumber(d) <= LAST_DAY
    requires IsClockAround(zone, DayNumber(d)) && NeverBack(zone, DayNumber(d)) && IsSteady(zone, DayNumber(d))
    ensures Midnight(zone, d) == FirstInstant(zone, DayNumber(d))
  {
    hide DayNumber, FIRST_DAY, LAST_DAY, Midnight, IsClockAround, NeverBack, IsSteady;
    if DayNumber(d) == FIRST_DAY + 1 {
      SecondDayIsFound(zone, d);
    } else if DayNumber(d) == LAST_DAY {
      LastDayIsFound(zone, d);
    } else {
      MidnightIsFirst(zone, d);
    }
  }
}
