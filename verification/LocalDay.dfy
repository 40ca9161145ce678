/** localDayToUtcRange of core/src/utils/temporal.ts: the binary search for local midnight, over any time zone. */
module LocalDay {
  import opened Text
  import opened Calendar

  const HOUR := 3_600_000
  const DAY := 86_400_000

  /** A time zone: the wall-clock reading, in ms since 1970, at each UTC instant. */
  type Zone = int -> int

  /** The local day number at a UTC instant. */
  function DayAt(zone: Zone, utcMs: int): int { zone(utcMs) / DAY }

  /** The instants that the search for a day can read. */
  predicate IsSearched(day: int, u: int) { day * DAY - 14 * HOUR <= u <= day * DAY + 14 * HOUR }

  predicate OffsetFits(zone: Zone, u: int) { -12 * HOUR <= zone(u) - u <= 14 * HOUR }

  predicate SameDayAllSecond(zone: Zone, u: int) { DayAt(zone, u) == DayAt(zone, u / 1000 * 1000) }

  /** What the search for a day relies on, nowhere but where it reads: offsets from -12 to +14 hours, and dates that change on
      whole seconds. */
  ghost predicate IsClockAround(zone: Zone, day: int) {
    forall u :: IsSearched(day, u) ==> OffsetFits(zone, u) && SameDayAllSecond(zone, u)
  }

  /** The local date does not go back across the midnight of the day. */
  ghost predicate NeverBack(zone: Zone, day: int) {
    forall u, v :: IsSearched(day, u) && IsSearched(day, v) && u <= v && DayAt(zone, u) >= day ==> DayAt(zone, v) >= day
  }

  // ---- Comparing dates as strings ----

  /** The formatter's date: the year is not padded, and years before 1 count back from 1. */
  function Formatted(d: Date): string {
    Show(if d.year >= 1 then d.year else 1 - d.year) + "-" + Padded(d.month, 2) + "-" + Padded(d.day, 2)
  }

  /** compareToMidnight: before the target date, after it, or the seconds into it. */
  function CompareToMidnight(zone: Zone, target: string, utcMs: int): int {
    var date := Formatted(CivilDate(DayAt(zone, utcMs)));
    if Less(date, target) then -1
    else if Less(target, date) then 1
    else zone(utcMs) % DAY / 1000
  }

  // ---- The search ----

  /** The binary search between lo and hi, and the final rounding to a whole second. */
  function Search(isBefore: int -> bool, lo: int, hi: int): int
    decreases hi - lo
  {
    if hi - lo <= 1000 then hi / 1000 * 1000
    else
      var mid := (lo + hi) / 2;
      if isBefore(mid) then Search(isBefore, mid, hi) else Search(isBefore, lo, mid)
  }

  /** The question the search asks of an instant. */
  function IsBefore(zone: Zone, target: string): int -> bool {
    utcMs => CompareToMidnight(zone, target, utcMs) < 0
  }

  /** The instant the search returns for a date. */
  function Midnight(zone: Zone, d: Date): int {
    Search(IsBefore(zone, Written(d)), UtcDay(d) * DAY - 14 * HOUR, UtcDay(d) * DAY + 14 * HOUR)
  }

  method FindLocalMidnight(zone: Zone, d: Date) returns (ms: int)
    ensures ms == Midnight(zone, d)
  {
    hide CompareToMidnight;
    var targetDate := Written(d);
    var utcDayMs := UtcDay(d) * DAY;
    var lo := utcDayMs - 14 * HOUR;
    var hi := utcDayMs + 14 * HOUR;
    while hi - lo > 1000
      invariant Midnight(zone, d) == Search(IsBefore(zone, targetDate), lo, hi)
    {
      var mid := (lo + hi) / 2;
      if CompareToMidnight(zone, targetDate, mid) < 0 {
        lo := mid;
      } else {
        hi := mid;
      }
    }
    ms := hi / 1000 * 1000;
  }

  /** The date of the next day, read back from its noon. */
  function NextDate(d: Date): Date { CivilDate(UtcDay(d.(day := d.day + 1))) }

  datatype Range = Range(startUtc: int, endUtcExclusive: int)

  /** `localDate.split('-').map(Number)` on a validated date. */
  function Fields(s: string): Date
    requires IsShape(s)
  {
    FieldsAre(s);
    var parts := Split(s, '-');
    Date(Number(parts[0]), Number(parts[1]), Number(parts[2]))
  }

  lemma FieldsAre(s: string)
    requires IsShape(s)
    ensures Split(s, '-') == [s[..4], s[5..7], s[8..]]
  {
    NoDash(s[..4]);
    NoDash(s[5..7]);
    NoDash(s[8..]);
    assert s == s[..4] + ['-'] + (s[5..7] + ['-'] + s[8..]);
    SplitAppend(s[..4], '-', s[5..7] + ['-'] + s[8..]);
    SplitAppend(s[5..7], '-', s[8..]);
    SplitOfFree(s[8..], '-');
  }

  lemma NoDash(s: string)
    requires AllDigits(s)
    ensures '-' !in s
  {
  }

  function DayRange(zone: Zone, s: string): Range
    requires IsCalendarStrict(s)
  {
    var d := Fields(s);
    Range(Midnight(zone, d), Midnight(zone, NextDate(d)))
  }

  method LocalDayToUtcRange(localDate: string, zone: Zone) returns (r: Range)
    requires IsCalendarStrict(localDate)
    ensures r == DayRange(zone, localDate)
  {
    var d := Fields(localDate);
    var startMs := FindLocalMidnight(zone, d);
    var nd := NextDate(d);
    var endMs := FindLocalMidnight(zone, nd);
    r := Range(startMs, endMs);
  }

  // ---- Widths of the search interval ----

  /** The widths that halving 28 hours goes through: one short, one long, at each step. */
  predicate IsWidth(w: int) {
    || w == 100_800_000 || w == 50_400_000 || w == 25_200_000 || w == 12_600_000 || w == 6_300_000 || w == 3_150_000
    || w == 1_575_000 || w == 787_500 || w == 393_750 || w == 196_875 || 98_437 <= w <= 98_438 || 49_218 <= w <= 49_219
    || 24_609 <= w <= 24_610 || 12_304 <= w <= 12_305 || 6_152 <= w <= 6_153 || 3_076 <= w <= 3_077
    || 1_538 <= w <= 1_539 || 769 <= w <= 770
  }

  lemma WidthHalves(w: int)
    requires IsWidth(w) && w > 1000
    ensures IsWidth(w / 2) && IsWidth(w - w / 2)
  {
  }

  lemma LastWidthIsShort(w: int)
    requires IsWidth(w) && w <= 1000
    ensures w < 1000
  {
  }

  ghost predicate Separates(isBefore: int -> bool, lo: int, hi: int, t: int) {
    forall u :: lo <= u <= hi ==> (isBefore(u) <==> u < t)
  }

  /** The search finds the instant that separates earlier from later, even when that instant is `lo` itself:
      28 hours halve to 769 or 770 ms, so `hi` ends less than a second after it. */
  lemma {:induction false} SearchFinds(isBefore: int -> bool, lo: int, hi: int, t: int)
    requires IsWidth(hi - lo) && lo <= t <= hi && t % 1000 == 0
    requires Separates(isBefore, lo, hi, t)
    ensures Search(isBefore, lo, hi) == t
    decreases hi - lo
  {
    hide IsWidth;
    if hi - lo > 1000 {
      var mid := (lo + hi) / 2;
      assert mid == lo + (hi - lo) / 2;
      WidthHalves(hi - lo);
      if isBefore(mid) {
        SearchFinds(isBefore, mid, hi, t);
      } else {
        SearchFinds(isBefore, lo, mid, t);
      }
    } else {
      LastWidthIsShort(hi - lo);
    }
  }

  /** When nothing compares as earlier, the search runs down to its lower end. */
  lemma {:induction false} SearchFallsToLow(isBefore: int -> bool, lo: int, hi: int)
    requires lo <= hi
    requires forall u :: lo <= u <= hi ==> !isBefore(u)
    ensures Search(isBefore, lo, hi) <= lo + 1000
    decreases hi - lo
  {
    if hi - lo > 1000 {
      SearchFallsToLow(isBefore, lo, (lo + hi) / 2);
    }
  }

  /** When everything compares as earlier, the search stays at its upper end. */
  lemma {:induction false} SearchStaysHigh(isBefore: int -> bool, lo: int, hi: int)
    requires forall u :: lo <= u <= hi ==> isBefore(u)
    ensures Search(isBefore, lo, hi) == hi / 1000 * 1000
    decreases hi - lo
  {
    if hi - lo > 1000 {
      SearchStaysHigh(isBefore, (lo + hi) / 2, hi);
    }
  }

  lemma {:induction false} SearchStaysInside(isBefore: int -> bool, lo: int, hi: int, floor: int)
    requires floor <= lo <= hi && floor % 1000 == 0
    ensures floor <= Search(isBefore, lo, hi) <= hi
    decreases hi - lo
  {
    if hi - lo > 1000 {
      SearchStaysInside(isBefore, (lo + hi) / 2, hi, floor);
      SearchStaysInside(isBefore, lo, (lo + hi) / 2, floor);
    }
  }

  // ---- Order of written dates ----

  lemma {:induction false} LessByParts(x: string, y: string, x': string, y': string)
    requires |x| == |x'|
    ensures Less(x + y, x' + y') <==> Less(x, x') || (x == x' && Less(y, y'))
    decreases |x|
  {
    if x == "" {
      assert x + y == y && x' + y' == y';
    } else {
      assert (x + y)[1..] == x[1..] + y && (x' + y')[1..] == x'[1..] + y';
      assert x == [x[0]] + x[1..] && x' == [x'[0]] + x'[1..];
      LessByParts(x[1..], y, x'[1..], y');
    }
  }

  lemma {:induction false} DigitsInOrder(s: string, t: string)
    requires AllDigits(s) && AllDigits(t) && |s| == |t|
    ensures Less(s, t) <==> Number(s) < Number(t)
    decreases |s|
  {
    if s != "" {
      var s', t' := s[..|s| - 1], t[..|t| - 1];
      var c, d := [s[|s| - 1]], [t[|t| - 1]];
      DigitsInOrder(s', t');
      assert s == s' + c && t == t' + d;
      LessByParts(s', c, t', d);
      if Number(s') == Number(t') {
        SameLengthSameNumber(s', t');
      }
      assert Less(c, d) <==> c[0] < d[0];
    }
  }

  /** A date the formatter and the target string write alike, in ten characters. */
  predicate HasFourDigitYear(d: Date) { 1000 <= d.year <= 9999 && 1 <= d.month <= 12 && 1 <= d.day <= 31 }

  lemma PartsOf(d: Date)
    requires HasFourDigitYear(d)
    ensures Formatted(d) == Written(d) && Show(d.year) == Padded(d.year, 4)
    ensures |Padded(d.year, 4)| == 4 && |Padded(d.month, 2)| == 2 && |Padded(d.day, 2)| == 2
    ensures AllDigits(Padded(d.year, 4)) && AllDigits(Padded(d.month, 2)) && AllDigits(Padded(d.day, 2))
    ensures Number(Padded(d.year, 4)) == d.year && Number(Padded(d.month, 2)) == d.month && Number(Padded(d.day, 2)) == d.day
  {
    DecimalLength(d.year);
    DecimalLength(d.month);
    DecimalLength(d.day);
    NumberOfDecimal(d.year);
    NumberOfDecimal(d.month);
    NumberOfDecimal(d.day);
    PadKeepsNumber(Decimal(d.year), 4);
    PadKeepsNumber(Decimal(d.month), 2);
    PadKeepsNumber(Decimal(d.day), 2);
  }

  /** With four-digit years, comparing written dates as strings is comparing the dates. */
  lemma WrittenInOrder(d: Date, e: Date)
    requires HasFourDigitYear(d) && HasFourDigitYear(e)
    ensures Less(Formatted(d), Written(e)) <==> Earlier(d, e)
  {
    hide Padded, Number;
    PartsOf(d);
    PartsOf(e);
    var (y, m, w) := (Padded(d.year, 4), Padded(d.month, 2), Padded(d.day, 2));
    var (y', m', w') := (Padded(e.year, 4), Padded(e.month, 2), Padded(e.day, 2));
    DigitsInOrder(y, y');
    DigitsInOrder(m, m');
    DigitsInOrder(w, w');
    assert Written(d) == y + ("-" + (m + ("-" + w))) && Written(e) == y' + ("-" + (m' + ("-" + w')));
    LessByParts(y, "-" + (m + ("-" + w)), y', "-" + (m' + ("-" + w')));
    LessByParts("-", m + ("-" + w), "-", m' + ("-" + w'));
    LessByParts(m, "-" + w, m', "-" + w');
    LessByParts("-", w, "-", w');
  }

  // ---- Local midnight ----

  /** The first instant, from u on, whose local date is at least the given day. */
  ghost function FirstAt(zone: Zone, day: int, u: int, bound: int): (t: int)
    requires u <= bound && DayAt(zone, bound) >= day
    ensures u <= t <= bound && DayAt(zone, t) >= day
    ensures forall v :: u <= v < t ==> DayAt(zone, v) < day
    decreases bound - u
  {
    if DayAt(zone, u) >= day then u else FirstAt(zone, day, u + 1, bound)
  }

  const FIRST_DAY := DayNumber(Date(1000, 1, 1))
  const LAST_DAY := DayNumber(Date(9999, 12, 31))

  lemma DaysBetween(day: int, a: Date, b: Date)
    requires IsReal(a) && IsReal(b)
    ensures DayNumber(a) <= day <= DayNumber(b) <==> !Earlier(CivilDate(day), a) && !Earlier(b, CivilDate(day))
  {
    CivilDateInverts(a);
    CivilDateInverts(b);
    SmallerIsEarlier(day, DayNumber(a));
    SmallerIsEarlier(DayNumber(b), day);
  }

  lemma FourDigitYears(day: int)
    ensures FIRST_DAY <= day <= LAST_DAY <==> 1000 <= CivilDate(day).year <= 9999
  {
    CivilDateIsReal(day);
    DaysBetween(day, Date(1000, 1, 1), Date(9999, 12, 31));
  }

  /** Within the search interval the local date is at most two days before and one day after the target. */
  lemma ReadingsAreNear(zone: Zone, day: int, u: int)
    requires IsClockAround(zone, day) && IsSearched(day, u)
    ensures day - 2 <= DayAt(zone, u) <= day + 1
  {
    assert OffsetFits(zone, u);
    assert day * DAY - 26 * HOUR <= zone(u) <= day * DAY + 28 * HOUR;
  }

  lemma CompareIsDayOrder(zone: Zone, d: Date, u: int)
    requires IsReal(d) && FIRST_DAY <= DayNumber(d) <= LAST_DAY && FIRST_DAY <= DayAt(zone, u) <= LAST_DAY
    ensures CompareToMidnight(zone, Written(d), u) < 0 <==> DayAt(zone, u) < DayNumber(d)
  {
    hide Written, Formatted, YearNear, MonthFrom;
    CivilDateInverts(d);
    CivilDateIsReal(DayAt(zone, u));
    FourDigitYears(DayNumber(d));
    FourDigitYears(DayAt(zone, u));
    WrittenInOrder(CivilDate(DayAt(zone, u)), d);
    SmallerIsEarlier(DayAt(zone, u), DayNumber(d));
  }

  lemma FourDigitUtcDay(d: Date)
    requires IsReal(d) && FIRST_DAY <= DayNumber(d) <= LAST_DAY
    ensures 1000 <= d.year <= 9999 && UtcDay(d) == DayNumber(d)
  {
    CivilDateInverts(d);
    FourDigitYears(DayNumber(d));
  }

  /** Where the search reads, the day has begun exactly from t on. */
  ghost predicate BeginsAt(zone: Zone, day: int, t: int) {
    forall u :: IsSearched(day, u) ==> (DayAt(zone, u) >= day <==> u >= t)
  }

  lemma SearchSeparates(zone: Zone, d: Date, t: int)
    requires IsReal(d) && FIRST_DAY + 2 <= DayNumber(d) < LAST_DAY
    requires IsClockAround(zone, DayNumber(d)) && BeginsAt(zone, DayNumber(d), t)
    ensures Separates(IsBefore(zone, Written(d)), DayNumber(d) * DAY - 14 * HOUR, DayNumber(d) * DAY + 14 * HOUR, t)
  {
    hide IsClockAround;
    forall u | DayNumber(d) * DAY - 14 * HOUR <= u <= DayNumber(d) * DAY + 14 * HOUR
      ensures IsBefore(zone, Written(d))(u) <==> u < t
    {
      assert IsSearched(DayNumber(d), u);
      ComparesUpTo(zone, d, t, u);
    }
  }

  lemma ComparesUpTo(zone: Zone, d: Date, t: int, u: int)
    requires IsReal(d) && FIRST_DAY + 2 <= DayNumber(d) < LAST_DAY
    requires IsClockAround(zone, DayNumber(d)) && IsSearched(DayNumber(d), u)
    requires DayAt(zone, u) >= DayNumber(d) <==> u >= t
    ensures CompareToMidnight(zone, Written(d), u) < 0 <==> u < t
  {
    ReadingsAreNear(zone, DayNumber(d), u);
    CompareIsDayOrder(zone, d, u);
  }

  /** There is a first instant of the local day, on a whole second, between 14 hours before and 12 hours after UTC midnight. */
  ghost function FirstInstant(zone: Zone, day: int): (t: int)
    requires IsClockAround(zone, day) && NeverBack(zone, day)
    ensures day * DAY - 14 * HOUR <= t <= day * DAY + 12 * HOUR && t % 1000 == 0
    ensures BeginsAt(zone, day, t)
  {
    var lo, noon := day * DAY - 14 * HOUR, day * DAY + 12 * HOUR;
    assert IsSearched(day, noon) && OffsetFits(zone, noon);
    assert zone(noon) >= day * DAY;
    var t := FirstAt(zone, day, lo, noon);
    assert IsSearched(day, t) && SameDayAllSecond(zone, t);
    assert lo <= t / 1000 * 1000 <= t;
    t
  }

  lemma MidnightSeparates(zone: Zone, d: Date, t: int)
    requires UtcDay(d) * DAY - 14 * HOUR <= t <= UtcDay(d) * DAY + 14 * HOUR && t % 1000 == 0
    requires Separates(IsBefore(zone, Written(d)), UtcDay(d) * DAY - 14 * HOUR, UtcDay(d) * DAY + 14 * HOUR, t)
    ensures Midnight(zone, d) == t
  {
    var lo, hi := UtcDay(d) * DAY - 14 * HOUR, UtcDay(d) * DAY + 14 * HOUR;
    assert hi - lo == 100_800_000 && IsWidth(hi - lo);
    hide IsWidth, Separates, CompareToMidnight, UtcDay, Search;
    SearchFinds(IsBefore(zone, Written(d)), lo, hi, t);
  }

  /** The search returns the first instant of the local day: whatever the zone does at other times, and as long as its date
      does not go back across this midnight, the local date has reached the target exactly from there on. */
  lemma MidnightIsFirst(zone: Zone, d: Date)
    requires IsReal(d) && FIRST_DAY + 2 <= DayNumber(d) < LAST_DAY
    requires IsClockAround(zone, DayNumber(d)) && NeverBack(zone, DayNumber(d))
    ensures Midnight(zone, d) == FirstInstant(zone, DayNumber(d))
  {
    hide IsClockAround, NeverBack, BeginsAt;
    var t := FirstInstant(zone, DayNumber(d));
    FourDigitUtcDay(d);
    SearchSeparates(zone, d, t);
    MidnightSeparates(zone, d, t);
  }
}
