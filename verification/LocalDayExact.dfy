/** Which dates localDayToUtcRange is right for: the membership theorem, and zones that show where it stops. */
module LocalDayExact {
  import opened Text
  import opened Calendar
  import opened LocalDay
  import opened LocalDaySteady

  /** The string names the date. */
  ghost predicate Names(s: string, d: Date) { IsShape(s) && DateIn(s) == d }

  lemma FieldsAreDate(s: string)
    requires IsCalendarStrict(s)
    ensures Fields(s) == DateIn(s) && IsReal(DateIn(s)) && DateIn(s).year >= 100
  {
    FieldsAre(s);
    StrictNamesRealDate(s);
  }

  lemma NextDateIsNext(d: Date)
    requires IsReal(d) && d.year >= 100
    ensures IsReal(NextDate(d)) && DayNumber(NextDate(d)) == DayNumber(d) + 1
  {
    var e := d.(day := d.day + 1);
    OneDayLater(d, e);
    CivilDateIsReal(UtcDay(e));
  }

  lemma OneDayLater(d: Date, e: Date)
    requires e == d.(day := d.day + 1) && d.year >= 100
    ensures UtcDay(e) == DayNumber(d) + 1
  {
  }

  /** The range of a date holds the instants of that local day and no others. */
  ghost predicate Holds(zone: Zone, s: string, u: int)
    requires IsCalendarStrict(s)
  {
    DayRange(zone, s).startUtc <= u < DayRange(zone, s).endUtcExclusive <==> DayAt(zone, u) == DayNumber(DateIn(s))
  }

  /** From 1000-01-03 to 9999-12-29. */
  predicate IsSafeDate(s: string)
    requires IsCalendarStrict(s)
  {
    FIRST_DAY + 2 <= DayNumber(DateIn(s)) <= LAST_DAY - 2
  }

  /** From 1000-01-02 to 9999-12-30. */
  predicate IsNearlySafeDate(s: string)
    requires IsCalendarStrict(s)
  {
    FIRST_DAY + 1 <= DayNumber(DateIn(s)) <= LAST_DAY - 1
  }

  /** The clock around a day: offsets and seconds as above where the range of the day is searched for, and no other time when
      the local date is this one. */
  ghost predicate IsClock(zone: Zone, day: int) {
    IsClockAround(zone, day) && IsClockAround(zone, day + 1) && forall u :: !IsRead(day, u) ==> DayAt(zone, u) != day
  }

  /** And the local date does not go back across either end of the day. */
  ghost predicate IsRegular(zone: Zone, day: int) {
    IsClock(zone, day) && NeverBack(zone, day) && NeverBack(zone, day + 1)
  }

  /** The date and the zone suit each other: on the first and the last of these dates the zone has to be steady. */
  ghost predicate IsCovered(zone: Zone, s: string)
    requires IsCalendarStrict(s)
  {
    IsSafeDate(s) || (IsNearlySafeDate(s) && IsSteadyAround(zone, DayNumber(DateIn(s))))
  }

  lemma CoveredIsFound(zone: Zone, s: string, d: Date)
    requires IsCalendarStrict(s) && IsCovered(zone, s) && IsReal(d)
    requires DayNumber(DateIn(s)) <= DayNumber(d) <= DayNumber(DateIn(s)) + 1
    requires IsClockAround(zone, DayNumber(d)) && NeverBack(zone, DayNumber(d))
    ensures Midnight(zone, d) == FirstInstant(zone, DayNumber(d))
  {
    hide DayNumber, FIRST_DAY, LAST_DAY, Midnight, IsSteady, IsClockAround, NeverBack;
    if IsSafeDate(s) {
      MidnightIsFirst(zone, d);
    } else {
      SteadyAroundIsSteady(zone, DayNumber(DateIn(s)));
      MidnightIsFirstWhenSteady(zone, d);
    }
  }

  /** From the first instant of the day to the first of the next one. */
  ghost function WholeDay(zone: Zone, day: int): Range
    requires IsRegular(zone, day)
  {
    Range(FirstInstant(zone, day), FirstInstant(zone, day + 1))
  }

  lemma RangeIsWholeDay(zone: Zone, s: string)
    requires IsCalendarStrict(s) && IsCovered(zone, s) && IsRegular(zone, DayNumber(DateIn(s)))
    ensures DayRange(zone, s) == WholeDay(zone, DayNumber(DateIn(s)))
  {
    hide IsCovered, IsClockAround, NeverBack, Midnight, NextDate, DayNumber, IsReal, UtcDay, Written;
    var d := DateIn(s);
    FieldsAreDate(s);
    NextDateIsNext(d);
    CoveredIsFound(zone, s, d);
    CoveredIsFound(zone, s, NextDate(d));
  }

  lemma WholeDayEncloses(zone: Zone, day: int, u: int)
    requires IsRegular(zone, day)
    ensures WholeDay(zone, day).startUtc <= u < WholeDay(zone, day).endUtcExclusive <==> DayAt(zone, u) == day
  {
    if IsSearched(day, u) && !IsSearched(day + 1, u) {
      assert OffsetFits(zone, u);
      assert zone(u) < (day + 1) * DAY;
    }
    if IsSearched(day + 1, u) && !IsSearched(day, u) {
      assert OffsetFits(zone, u);
      assert zone(u) >= day * DAY;
    }
  }

  /** Local day membership: DST changes, offsets of +14 hours and skipped days included. */
  lemma DayMembership(zone: Zone, s: string, u: int)
    requires IsCalendarStrict(s) && IsCovered(zone, s) && IsRegular(zone, DayNumber(DateIn(s)))
    ensures Holds(zone, s, u)
  {
    hide IsCovered, IsRegular, DayRange, DayNumber, DateIn, WholeDay;
    RangeIsWholeDay(zone, s);
    WholeDayEncloses(zone, DayNumber(DateIn(s)), u);
  }

  /** The days of a zone tile the timeline: each range ends where the next one starts. */
  lemma DaysTile(zone: Zone, s: string, next: string)
    requires IsCalendarStrict(s) && IsCovered(zone, s) && IsRegular(zone, DayNumber(DateIn(s)))
    requires IsCalendarStrict(next) && DayNumber(DateIn(next)) == DayNumber(DateIn(s)) + 1
    ensures DayRange(zone, s).startUtc <= DayRange(zone, s).endUtcExclusive == DayRange(zone, next).startUtc
  {
    hide IsCovered, IsRegular, DayNumber, Midnight, WholeDay;
    FieldsAreDate(s);
    FieldsAreDate(next);
    NextDateIs(DateIn(s), DateIn(next));
    RangeIsWholeDay(zone, s);
    StartsInOrder(zone, DayNumber(DateIn(s)));
  }

  lemma StartsInOrder(zone: Zone, day: int)
    requires IsRegular(zone, day)
    ensures WholeDay(zone, day).startUtc <= WholeDay(zone, day).endUtcExclusive
  {
    var t := FirstInstant(zone, day + 1);
    assert IsSearched(day + 1, t) && DayAt(zone, t) >= day + 1;
    if t <= day * DAY + 14 * HOUR {
      assert IsSearched(day, t);
    }
  }

  lemma NextDateIs(d: Date, e: Date)
    requires IsReal(d) && IsReal(e) && d.year >= 100 && DayNumber(e) == DayNumber(d) + 1
    ensures NextDate(d) == e
  {
    OneDayLater(d, d.(day := d.day + 1));
    CivilDateInverts(e);
  }

  // ---- Dates the string comparison gets wrong ----

  const UTC: Zone := (u: int) => u

  /** A zone that moves from UTC-12 to UTC+14 at the given instant. */
  function JumpAt(at: int): Zone { (u: int) => if u < at then u - 12 * HOUR else u + 14 * HOUR }

  lemma SecondsKeepDay(x: int)
    ensures x / DAY == x / 1000 * 1000 / DAY
  {
    var q, r := x / DAY, x % DAY;
    var s := x / 1000 * 1000;
    QuotientIs(x, 1000, q * 86_400 + r / 1000, r % 1000);
    QuotientIs(s, DAY, q, r / 1000 * 1000);
  }

  lemma UtcIsRegular(day: int)
    ensures IsRegular(UTC, day)
  {
    forall u ensures SameDayAllSecond(UTC, u) {
      SecondsKeepDay(u);
    }
  }

  lemma ShiftedSeconds(u: int, hours: int)
    ensures (u + hours * HOUR) / DAY == (u / 1000 * 1000 + hours * HOUR) / DAY
  {
    var x := u + hours * HOUR;
    QuotientIs(x, 1000, u / 1000 + hours * 3600, u % 1000);
    SecondsKeepDay(x);
  }

  lemma JumpKeepsSeconds(at: int, u: int)
    requires at % 1000 == 0
    ensures SameDayAllSecond(JumpAt(at), u)
  {
    ShiftedSeconds(u, -12);
    ShiftedSeconds(u, 14);
    SameSideOfSecond(u, at);
  }

  lemma JumpIsRegular(at: int, day: int)
    requires at % 1000 == 0
    ensures IsRegular(JumpAt(at), day)
  {
    hide SameDayAllSecond;
    forall u ensures SameDayAllSecond(JumpAt(at), u) {
      JumpKeepsSeconds(at, u);
    }
  }

  lemma SameSideOfSecond(u: int, at: int)
    requires at % 1000 == 0
    ensures u < at <==> u / 1000 * 1000 < at
  {
  }

  lemma {:induction false} NotLessThanItself(s: string)
    ensures !Less(s, s)
  {
    if s != "" {
      NotLessThanItself(s[1..]);
    }
  }

  lemma {:induction false} LeadingDigit(n: nat)
    requires n >= 1
    ensures Decimal(n)[0] != '0'
  {
    if n >= 10 {
      LeadingDigit(n / 10);
    }
  }

  lemma {:induction false} PadLeads(s: string, width: nat)
    requires |s| < width
    ensures PadStart(s, width)[0] == '0'
    decreases width - |s|
  {
    if |s| + 1 < width {
      PadLeads("0" + s, width);
    }
  }

  lemma ShortDecimal(n: nat)
    requires n < 1000
    ensures |Decimal(n)| <= 3
  {
    assert n >= 10 ==> |Decimal(n)| == |Decimal(n / 10)| + 1;
    assert n >= 100 ==> |Decimal(n / 10)| == |Decimal(n / 100)| + 1;
  }

  /** A year below 1000 is padded in the target and not in the reading, so no reading compares as earlier. */
  lemma SmallYearsCompareLate(zone: Zone, d: Date, u: int)
    requires 0 <= d.year <= 999
    ensures CompareToMidnight(zone, Written(d), u) >= 0
  {
    var e := CivilDate(DayAt(zone, u));
    var shown := if e.year >= 1 then e.year else 1 - e.year;
    LeadingDigit(shown);
    ShortDecimal(d.year);
    PadLeads(Decimal(d.year), 4);
    assert Written(d)[0] == '0' && Formatted(e)[0] == Decimal(shown)[0];
    assert IsDigit(Decimal(shown)[0]);
  }

  ghost predicate FallsOn(day: int, d: Date) { IsReal(d) && DayNumber(d) == day && CivilDate(day) == d }

  lemma ItFallsOn(day: int, d: Date)
    requires IsReal(d) && DayNumber(d) == day
    ensures FallsOn(day, d)
  {
    CivilDateInverts(d);
  }

  /** A reading that does not compare as earlier than the target: the target's own date, or one whose text sorts later. */
  lemma ReadsLate(zone: Zone, d: Date, e: Date, u: int)
    requires FallsOn(DayAt(zone, u), e)
    requires (e == d && 1000 <= d.year <= 10_000) || (StartsBelow(Written(d), Formatted(e)))
    ensures CompareToMidnight(zone, Written(d), u) >= 0
  {
    if e == d && 1000 <= d.year <= 10_000 {
      FormattedIsWritten(d);
      NotLessThanItself(Written(d));
    }
  }

  lemma FormattedIsWritten(d: Date)
    requires 1000 <= d.year <= 10_000
    ensures Formatted(d) == Written(d)
  {
    DecimalLength(d.year);
  }

  lemma ReadsEarly(zone: Zone, d: Date, e: Date, u: int)
    requires FallsOn(DayAt(zone, u), e)
    requires StartsBelow(Formatted(e), Written(d))
    ensures CompareToMidnight(zone, Written(d), u) < 0
  {
  }

  // The dates around the two ends of the four-digit years.
  const D_0999_12_31 := Date(999, 12, 31)
  const D_1000_01_01 := Date(1000, 1, 1)
  const D_1000_01_02 := Date(1000, 1, 2)
  const D_9999_12_30 := Date(9999, 12, 30)
  const D_9999_12_31 := Date(9999, 12, 31)
  const D_10000_01_01 := Date(10_000, 1, 1)

  lemma DayBeforeYear(y: int, d: Date)
    requires d == Date(y + 1, 1, 1)
    ensures FallsOn(DayNumber(d) - 1, Date(y, 12, 31)) && FallsOn(DayNumber(d), d)
  {
    NewYearFollows(y);
    ItFallsOn(DayNumber(d) - 1, Date(y, 12, 31));
    ItFallsOn(DayNumber(d), d);
  }

  lemma NewYearFollows(y: int)
    ensures DayNumber(Date(y + 1, 1, 1)) == DayNumber(Date(y, 12, 31)) + 1
  {
    YearLength(y);
    MonthsFillYear(y);
  }

  /** The first characters of the written dates at the two ends. */
  lemma EdgeStrings()
    ensures Starts(Formatted(D_0999_12_31), '9') && Starts(Written(D_1000_01_01), '1') && Starts(Written(D_1000_01_02), '1')
    ensures Starts(Formatted(D_9999_12_31), '9') && Starts(Written(D_9999_12_31), '9')
    ensures Starts(Formatted(D_10000_01_01), '1') && Starts(Written(D_10000_01_01), '1')
  {
    FirstOfDecimal();
    DecimalLength(1000);
    DecimalLength(9999);
    DecimalLength(10_000);
  }

  predicate Starts(s: string, c: char) { s != "" && s[0] == c }

  /** The first text starts with a smaller character than the second. */
  predicate StartsBelow(s: string, t: string) { s != "" && t != "" && s[0] < t[0] }

  lemma FirstOfDecimal()
    ensures Decimal(999)[0] == '9' && Decimal(1000)[0] == '1' && Decimal(9999)[0] == '9' && Decimal(10_000)[0] == '1'
  {
    assert Decimal(99)[0] == Decimal(9)[0] == '9' && Decimal(999)[0] == Decimal(99)[0] && Decimal(9999)[0] == Decimal(999)[0];
    assert Decimal(10)[0] == Decimal(1)[0] == '1' && Decimal(100)[0] == Decimal(10)[0] && Decimal(1000)[0] == Decimal(100)[0];
    assert Decimal(10_000)[0] == Decimal(1000)[0];
  }

  /** Almost 14 hours early. */
  ghost predicate IsTooLow(zone: Zone, d: Date) {
    Midnight(zone, d) <= DayNumber(d) * DAY - 14 * HOUR + 1000
  }

  lemma MidnightFalls(zone: Zone, d: Date)
    requires UtcDay(d) == DayNumber(d)
    requires NoneBefore(IsBefore(zone, Written(d)), DayNumber(d) * DAY - 14 * HOUR, DayNumber(d) * DAY + 14 * HOUR)
    ensures IsTooLow(zone, d)
  {
    hide CompareToMidnight;
    SearchFallsToLow(IsBefore(zone, Written(d)), DayNumber(d) * DAY - 14 * HOUR, DayNumber(d) * DAY + 14 * HOUR);
  }

  ghost predicate NoneBefore(isBefore: int -> bool, lo: int, hi: int) { forall u :: lo <= u <= hi ==> !isBefore(u) }

  /** In UTC, a target in a year below 1000 is placed almost 14 hours early. */
  lemma SmallYearIsTooLow(d: Date)
    requires 100 <= d.year <= 999
    ensures IsTooLow(UTC, d)
  {
    forall u
      ensures !IsBefore(UTC, Written(d))(u)
    {
      SmallYearsCompareLate(UTC, d, u);
    }
    MidnightFalls(UTC, d);
  }

  /** In UTC, so is the first day of a year whose number is one digit longer than that of the year before. */
  lemma LongerYearIsTooLow(d: Date, before: Date)
    requires FallsOn(DayNumber(d), d) && FallsOn(DayNumber(d) - 1, before) && 1000 <= d.year <= 10_000
    requires StartsBelow(Written(d), Formatted(before))
    ensures IsTooLow(UTC, d)
  {
    hide Written, Formatted, DayNumber, CivilDate, StartsBelow, FallsOn, CompareToMidnight;
    forall u | DayNumber(d) * DAY - 14 * HOUR <= u <= DayNumber(d) * DAY + 14 * HOUR
      ensures !IsBefore(UTC, Written(d))(u)
    {
      ReadsLate(UTC, d, if DayAt(UTC, u) == DayNumber(d) then d else before, u);
    }
    MidnightFalls(UTC, d);
  }

  lemma NewYearIsTooLow(y: int, d: Date, before: Date)
    requires d == Date(y + 1, 1, 1) && before == Date(y, 12, 31) && 1000 <= d.year <= 10_000
    requires StartsBelow(Written(d), Formatted(before))
    ensures IsTooLow(UTC, d)
  {
    DayBeforeYear(y, d);
    LongerYearIsTooLow(d, before);
  }

  lemma EdgesAreTooLow()
    ensures IsTooLow(UTC, D_1000_01_01) && IsTooLow(UTC, D_10000_01_01)
  {
    EdgeStrings();
    NewYearIsTooLow(999, D_1000_01_01, D_0999_12_31);
    NewYearIsTooLow(9999, D_10000_01_01, D_9999_12_31);
  }

  // ---- A jump of 26 hours next to the ends ----

  const QUARTER := 900_000

  lemma DayOfReading(zone: Zone, u: int, day: int)
    requires day * DAY <= zone(u) < day * DAY + DAY
    ensures DayAt(zone, u) == day
  {
    QuotientIs(zone(u), DAY, day, zone(u) - day * DAY);
  }

  /** The clock after the jump reads the target date; more than 24 hours early, it reads e. */
  lemma JumpReadsLate(zone: Zone, d: Date, e: Date, day: int, u: int)
    requires zone == JumpAt(day * DAY - 11 * HOUR) && FallsOn(day, d) && FallsOn(day - 2, e) && 1000 <= d.year <= 10_000
    requires StartsBelow(Written(d), Formatted(e))
    requires day * DAY - 11 * HOUR <= u <= day * DAY || day * DAY - 14 * HOUR <= u < day * DAY - 12 * HOUR
    ensures CompareToMidnight(zone, Written(d), u) >= 0
  {
    if u >= day * DAY - 11 * HOUR {
      DayOfReading(zone, u, day);
      ReadsLate(zone, d, d, u);
    } else {
      DayOfReading(zone, u, day - 2);
      ReadsLate(zone, d, e, u);
    }
  }

  /** No reading compares as earlier in the eleven hours before UTC midnight, nor more than twelve hours before it. */
  ghost predicate LateAround(isBefore: int -> bool, utc: int) {
    NoneBefore(isBefore, utc - 11 * HOUR, utc) && NoneBefore(isBefore, utc - 14 * HOUR, utc - 12 * HOUR - 1)
  }

  lemma LateReadingsFall(isBefore: int -> bool, utc: int)
    requires LateAround(isBefore, utc)
    ensures Search(isBefore, utc - 14 * HOUR, utc + 14 * HOUR) <= utc - 14 * HOUR + 1000
  {
    var lo := utc - 14 * HOUR;
    assert Search(isBefore, lo, utc + 14 * HOUR) == Search(isBefore, lo, utc);
    assert Search(isBefore, lo, utc) == Search(isBefore, lo, utc - 7 * HOUR);
    assert Search(isBefore, lo, utc - 7 * HOUR) == Search(isBefore, lo, utc - 42 * QUARTER);
    assert Search(isBefore, lo, utc - 42 * QUARTER) == Search(isBefore, lo, utc - 49 * QUARTER);
    SearchFallsToLow(isBefore, lo, utc - 49 * QUARTER);
  }

  lemma JumpReadsLateAround(zone: Zone, d: Date, e: Date, day: int)
    requires zone == JumpAt(day * DAY - 11 * HOUR) && FallsOn(day, d) && FallsOn(day - 2, e) && 1000 <= d.year <= 10_000
    requires StartsBelow(Written(d), Formatted(e))
    ensures LateAround(IsBefore(zone, Written(d)), day * DAY)
  {
    var utc := day * DAY;
    forall u | utc - 11 * HOUR <= u <= utc || utc - 14 * HOUR <= u < utc - 12 * HOUR
      ensures !IsBefore(zone, Written(d))(u)
    {
      JumpReadsLate(zone, d, e, day, u);
    }
  }

  /** The search for the second four-digit day reads a date with a three-digit year, and takes it for a later one. */
  lemma JumpIsTooLow(zone: Zone, d: Date, e: Date, day: int)
    requires UtcDay(d) == day && zone == JumpAt(day * DAY - 11 * HOUR)
    requires FallsOn(day, d) && FallsOn(day - 2, e) && 1000 <= d.year <= 10_000
    requires StartsBelow(Written(d), Formatted(e))
    ensures IsTooLow(zone, d)
  {
    JumpReadsLateAround(zone, d, e, day);
    LateMidnight(zone, d);
  }

  lemma LateMidnight(zone: Zone, d: Date)
    requires UtcDay(d) == DayNumber(d) && LateAround(IsBefore(zone, Written(d)), DayNumber(d) * DAY)
    ensures IsTooLow(zone, d)
  {
    hide CompareToMidnight;
    LateReadingsFall(IsBefore(zone, Written(d)), DayNumber(d) * DAY);
  }

  /** The clock before the jump reads the day before; after it, a day later than the target. */
  lemma JumpReadsEarly(zone: Zone, d: Date, f: Date, day: int, u: int)
    requires zone == JumpAt(day * DAY + 11 * HOUR) && IsReal(d) && DayNumber(d) == day == LAST_DAY
    requires FallsOn(day + 1, f) && StartsBelow(Formatted(f), Written(d))
    requires day * DAY <= u <= day * DAY + 14 * HOUR
    ensures CompareToMidnight(zone, Written(d), u) < 0
  {
    if u < day * DAY + 11 * HOUR {
      DayOfReading(zone, u, day - 1);
      FirstBeforeLast();
      CompareIsDayOrder(zone, d, u);
    } else {
      DayOfReading(zone, u, day + 1);
      ReadsEarly(zone, d, f, u);
    }
  }

  lemma FirstBeforeLast()
    ensures FIRST_DAY + 2 < LAST_DAY - 2
  {
  }

  lemma EarlyReadingsRise(isBefore: int -> bool, utc: int)
    requires utc % 1000 == 0 && forall u :: utc <= u <= utc + 14 * HOUR ==> isBefore(u)
    ensures Search(isBefore, utc - 14 * HOUR, utc + 14 * HOUR) == utc + 14 * HOUR
  {
    assert Search(isBefore, utc - 14 * HOUR, utc + 14 * HOUR) == Search(isBefore, utc, utc + 14 * HOUR);
    SearchStaysHigh(isBefore, utc, utc + 14 * HOUR);
  }

  /** The search for the last four-digit day reads a date with a five-digit year, and takes it for an earlier one. */
  lemma JumpIsTooHigh(zone: Zone, d: Date, f: Date, day: int)
    requires UtcDay(d) == day && zone == JumpAt(day * DAY + 11 * HOUR) && IsReal(d) && DayNumber(d) == day == LAST_DAY
    requires FallsOn(day + 1, f) && StartsBelow(Formatted(f), Written(d))
    ensures Midnight(zone, d) == day * DAY + 14 * HOUR
  {
    forall u | day * DAY <= u <= day * DAY + 14 * HOUR
      ensures IsBefore(zone, Written(d))(u)
    {
      JumpReadsEarly(zone, d, f, day, u);
    }
    RisesTo(zone, d, day * DAY);
  }

  lemma RisesTo(zone: Zone, d: Date, utc: int)
    requires utc == UtcDay(d) * DAY && forall u :: utc <= u <= utc + 14 * HOUR ==> IsBefore(zone, Written(d))(u)
    ensures Midnight(zone, d) == utc + 14 * HOUR
  {
    hide CompareToMidnight, Written, UtcDay, Search;
    QuotientIs(utc, 1000, UtcDay(d) * 86_400, 0);
    EarlyReadingsRise(IsBefore(zone, Written(d)), utc);
  }

  // ---- The exact condition ----

  /** The range is right in every zone that is regular around the day. */
  ghost predicate IsRightEverywhere(s: string)
    requires IsCalendarStrict(s)
  {
    forall zone: Zone, u: int :: IsRegular(zone, DayNumber(DateIn(s))) ==> Holds(zone, s, u)
  }

  lemma MidnightStaysNear(zone: Zone, d: Date)
    ensures UtcDay(d) * DAY - 14 * HOUR <= Midnight(zone, d) <= UtcDay(d) * DAY + 14 * HOUR
  {
    hide CompareToMidnight;
    var lo := UtcDay(d) * DAY - 14 * HOUR;
    QuotientIs(lo, 1000, UtcDay(d) * 86_400 - 50_400, 0);
    SearchStaysInside(IsBefore(zone, Written(d)), lo, lo + 28 * HOUR, lo);
  }

  /** A start placed too early takes in instants of another day. */
  lemma LowStartFails(zone: Zone, s: string, u: int)
    requires IsCalendarStrict(s) && IsTooLow(zone, DateIn(s))
    requires DayNumber(DateIn(s)) * DAY - 14 * HOUR + 1000 <= u < DayNumber(DateIn(s)) * DAY + 10 * HOUR
    requires DayAt(zone, u) != DayNumber(DateIn(s))
    ensures !Holds(zone, s, u)
  {
    FieldsAreDate(s);
    NextDateIsNext(DateIn(s));
    NextUtcDay(DateIn(s));
    MidnightStaysNear(zone, NextDate(DateIn(s)));
  }

  lemma NextUtcDay(d: Date)
    requires IsReal(d) && d.year >= 100
    ensures UtcDay(NextDate(d)) == DayNumber(d) + 1
  {
    NextDateIsNext(d);
    LaterYear(d, NextDate(d));
  }

  lemma LaterYear(d: Date, e: Date)
    requires IsReal(d) && IsReal(e) && DayNumber(d) < DayNumber(e)
    ensures d.year <= e.year
  {
    if e.year < d.year {
      EarlierIsSmaller(e, d);
    }
  }

  /** An end placed too early leaves out instants of the day. */
  lemma LowEndFails(zone: Zone, s: string, u: int)
    requires IsCalendarStrict(s) && IsTooLow(zone, NextDate(DateIn(s)))
    requires u >= DayNumber(DateIn(s)) * DAY + 10 * HOUR + 1000 && DayAt(zone, u) == DayNumber(DateIn(s))
    ensures !Holds(zone, s, u)
  {
    FieldsAreDate(s);
    NextDateIsNext(DateIn(s));
  }

  /** An end placed too late takes in instants of the day after. */
  lemma HighEndFails(zone: Zone, s: string, u: int)
    requires IsCalendarStrict(s)
    requires DayNumber(DateIn(s)) * DAY + 14 * HOUR <= u < Midnight(zone, NextDate(DateIn(s)))
    requires DayAt(zone, u) != DayNumber(DateIn(s))
    ensures !Holds(zone, s, u)
  {
    FieldsAreDate(s);
    MidnightStaysNear(zone, DateIn(s));
  }

  lemma UtcReading(u: int, day: int)
    requires day * DAY <= u < day * DAY + DAY
    ensures DayAt(UTC, u) == day
  {
    DayOfReading(UTC, u, day);
  }

  lemma UnsafeLow(s: string) returns (u: int)
    requires IsCalendarStrict(s) && DayNumber(DateIn(s)) <= FIRST_DAY
    ensures !Holds(UTC, s, u)
  {
    var d := DateIn(s);
    FieldsAreDate(s);
    FourDigitYearOf(d);
    if d.year <= 999 {
      SmallYearIsTooLow(d);
    } else {
      EdgesAreTooLow();
    }
    u := DayNumber(d) * DAY - 1;
    UtcReading(u, DayNumber(d) - 1);
    LowStartFails(UTC, s, u);
  }

  lemma FourDigitYearOf(d: Date)
    requires IsReal(d)
    ensures DayNumber(d) < FIRST_DAY <==> d.year <= 999
    ensures DayNumber(d) == FIRST_DAY <==> d == D_1000_01_01
    ensures DayNumber(d) > LAST_DAY <==> d.year >= 10_000
    ensures DayNumber(d) == LAST_DAY <==> d == D_9999_12_31
  {
    SameOrder(d, D_1000_01_01);
    SameOrder(d, D_9999_12_31);
  }

  lemma SameOrder(d: Date, e: Date)
    requires IsReal(d) && IsReal(e)
    ensures DayNumber(d) < DayNumber(e) <==> Earlier(d, e)
    ensures DayNumber(d) == DayNumber(e) <==> d == e
  {
    if Earlier(d, e) {
      EarlierIsSmaller(d, e);
    } else if Earlier(e, d) {
      EarlierIsSmaller(e, d);
    }
  }

  /** A date whose successor is written with one digit more. */
  lemma UnsafeLast(s: string, d: Date, next: Date) returns (u: int)
    requires IsCalendarStrict(s) && Names(s, d) && FallsOn(DayNumber(d) + 1, next) && IsTooLow(UTC, next)
    ensures !Holds(UTC, s, u)
  {
    hide CompareToMidnight, Search, CivilDate, Formatted, Written;
    FieldsAreDate(s);
    NextDateIs(d, next);
    u := DayNumber(d) * DAY + 20 * HOUR;
    UtcReading(u, DayNumber(d));
    LowEndFails(UTC, s, u);
  }

  /** A date two days after one that is written with one digit less. */
  lemma UnsafeSecond(s: string, d: Date, e: Date, day: int)
    requires IsCalendarStrict(s) && Names(s, d) && FallsOn(day, d) && FallsOn(day - 2, e) && 1000 <= d.year <= 10_000
    requires StartsBelow(Written(d), Formatted(e))
    ensures !IsRightEverywhere(s)
  {
    hide CompareToMidnight, Search, CivilDate, Formatted, Written;
    var zone := JumpAt(day * DAY - 11 * HOUR);
    JumpIsTooLow(zone, d, e, day);
    QuotientIs(day * DAY - 11 * HOUR, 1000, day * 86_400 - 39_600, 0);
    JumpIsRegular(day * DAY - 11 * HOUR, day);
    DayOfReading(zone, day * DAY - 12 * HOUR, day - 1);
    LowStartFails(zone, s, day * DAY - 12 * HOUR);
  }

  /** A date whose successor is the last with four digits. */
  lemma UnsafeSecondLast(s: string, d: Date, last: Date, f: Date, day: int)
    requires IsCalendarStrict(s) && Names(s, d) && FallsOn(day - 1, d) && FallsOn(day, last) && FallsOn(day + 1, f)
    requires day == LAST_DAY && UtcDay(last) == day
    requires StartsBelow(Formatted(f), Written(last))
    ensures !IsRightEverywhere(s)
  {
    hide CompareToMidnight, Search, CivilDate, Formatted, Written, Holds, DayNumber, LAST_DAY, Midnight;
    var zone := JumpAt(day * DAY + 11 * HOUR);
    FieldsAreDate(s);
    NextDateIs(d, last);
    JumpIsTooHigh(zone, last, f, day);
    QuotientIs(day * DAY + 11 * HOUR, 1000, day * 86_400 + 39_600, 0);
    JumpIsRegular(day * DAY + 11 * HOUR, day - 1);
    DayOfReading(zone, day * DAY + 12 * HOUR, day + 1);
    HighEndFails(zone, s, day * DAY + 12 * HOUR);
  }

  lemma UnsafeStart(s: string)
    requires IsCalendarStrict(s) && Names(s, D_1000_01_02)
    ensures !IsRightEverywhere(s)
  {
    hide CompareToMidnight, Search, CivilDate, Formatted, Written;
    EdgeStrings();
    DayBeforeYear(999, D_1000_01_01);
    ItFallsOn(FIRST_DAY + 1, D_1000_01_02);
    UnsafeSecond(s, D_1000_01_02, D_0999_12_31, FIRST_DAY + 1);
  }

  lemma UnsafeEnd(s: string)
    requires IsCalendarStrict(s) && Names(s, D_9999_12_30)
    ensures !IsRightEverywhere(s)
  {
    hide CompareToMidnight, Search, CivilDate, Formatted, Written;
    EdgeStrings();
    NewYearFollows(9999);
    ItFallsOn(LAST_DAY - 1, D_9999_12_30);
    ItFallsOn(LAST_DAY, D_9999_12_31);
    ItFallsOn(LAST_DAY + 1, D_10000_01_01);
    UnsafeSecondLast(s, D_9999_12_30, D_9999_12_31, D_10000_01_01, LAST_DAY);
  }

  lemma UnsafeVeryEnd(s: string) returns (u: int)
    requires IsCalendarStrict(s) && Names(s, D_9999_12_31)
    ensures !Holds(UTC, s, u)
  {
    hide CompareToMidnight, Search, CivilDate, Formatted, Written;
    NewYearFollows(9999);
    ItFallsOn(LAST_DAY + 1, D_10000_01_01);
    EdgesAreTooLow();
    u := UnsafeLast(s, D_9999_12_31, D_10000_01_01);
  }

  /** Before 1000-01-02 and after 9999-12-30 the range is wrong in UTC already. */
  lemma UtcFails(s: string) returns (u: int)
    requires IsCalendarStrict(s) && !IsNearlySafeDate(s)
    ensures !Holds(UTC, s, u)
  {
    hide CompareToMidnight, Search, CivilDate, Formatted, Written, Holds;
    var d := DateIn(s);
    FieldsAreDate(s);
    YearFits(s[..4]);
    UnsafeDates(d);
    OrderOfEdges(d);
    if DayNumber(d) <= FIRST_DAY {
      u := UnsafeLow(s);
    } else {
      u := UnsafeVeryEnd(s);
    }
  }

  /** The exact condition for every zone: the range of a valid date is right in all of them if and only if the date lies
      between 1000-01-03 and 9999-12-29. */
  lemma RightExactlyOnSafeDates(s: string)
    requires IsCalendarStrict(s)
    ensures IsRightEverywhere(s) <==> IsSafeDate(s)
  {
    hide CompareToMidnight, Search, CivilDate, Formatted, Written, Holds;
    var d := DateIn(s);
    FieldsAreDate(s);
    if IsSafeDate(s) {
      forall zone: Zone, u: int | IsRegular(zone, DayNumber(d))
        ensures Holds(zone, s, u)
      {
        DayMembership(zone, s, u);
      }
    } else {
      YearFits(s[..4]);
      UnsafeDates(d);
      if d == D_1000_01_02 {
        UnsafeStart(s);
      } else if d == D_9999_12_30 {
        UnsafeEnd(s);
      } else {
        OrderOfEdges(d);
        var u := UtcFails(s);
        UtcIsRegular(DayNumber(d));
      }
    }
  }

  /** The range is right in every zone that does not change its offset by more than 20 hours while the day is searched for. */
  ghost predicate IsRightInSteadyZones(s: string)
    requires IsCalendarStrict(s)
  {
    forall zone: Zone, u: int :: IsRegular(zone, DayNumber(DateIn(s))) && IsSteadyAround(zone, DayNumber(DateIn(s))) ==> Holds(zone, s, u)
  }

  /** The exact condition for steady zones: between 1000-01-02 and 9999-12-30. */
  lemma RightInSteadyZonesExactly(s: string)
    requires IsCalendarStrict(s)
    ensures IsRightInSteadyZones(s) <==> IsNearlySafeDate(s)
  {
    hide CompareToMidnight, Search, CivilDate, Formatted, Written, Holds, IsNearlySafeDate, IsSafeDate;
    if IsNearlySafeDate(s) {
      forall zone: Zone, u: int | IsRegular(zone, DayNumber(DateIn(s))) && IsSteadyAround(zone, DayNumber(DateIn(s)))
        ensures Holds(zone, s, u)
      {
        DayMembership(zone, s, u);
      }
    } else {
      var u := UtcFails(s);
      UtcIsRegular(DayNumber(DateIn(s)));
      UtcIsSteady(DayNumber(DateIn(s)));
    }
  }

  lemma UtcIsSteady(day: int)
    ensures IsSteadyAround(UTC, day)
  {
  }

  lemma OrderOfEdges(d: Date)
    requires IsReal(d)
    ensures DayNumber(d) == FIRST_DAY + 1 <==> d == D_1000_01_02
    ensures DayNumber(d) == LAST_DAY - 1 <==> d == D_9999_12_30
    ensures DayNumber(d) == LAST_DAY <==> d == D_9999_12_31
  {
    SameOrder(d, D_1000_01_02);
    SameOrder(d, D_9999_12_30);
    SameOrder(d, D_9999_12_31);
    EdgeNumbers();
  }

  lemma EdgeNumbers()
    ensures DayNumber(D_1000_01_02) == FIRST_DAY + 1 && DayNumber(D_9999_12_30) == LAST_DAY - 1
  {
  }

  lemma UnsafeDates(d: Date)
    requires IsReal(d) && d.year <= 9999 && !(FIRST_DAY + 2 <= DayNumber(d) <= LAST_DAY - 2)
    ensures DayNumber(d) <= FIRST_DAY || d in {D_1000_01_02, D_9999_12_30, D_9999_12_31}
  {
    FourDigitYearOf(d);
    SameOrder(d, D_1000_01_02);
    SameOrder(d, D_9999_12_30);
  }
}
