/** The Gregorian day arithmetic behind isCalendarStrict of core/src/utils/temporal.ts. */
module Calendar {
  import opened Text

  // ---- Day numbers, section 21.4.1 of ECMA-262 ----

  /** Day number of 1 January of a year, counted from 1970. */
  function DayFromYear(y: int): int {
    365 * (y - 1970) + (y - 1969) / 4 - (y - 1901) / 100 + (y - 1601) / 400
  }

  predicate IsLeap(y: int) { y % 4 == 0 && (y % 100 != 0 || y % 400 == 0) }

  /** A quotient grows by one exactly at the multiples of the divisor. */
  lemma QuotientStep(a: int, k: int)
    requires k > 0
    ensures (a + 1) / k == a / k + if (a + 1) % k == 0 then 1 else 0
  {
    var q, r := a / k, a % k;
    if r + 1 == k {
      QuotientIs(a + 1, k, q + 1, 0);
    } else {
      QuotientIs(a + 1, k, q, r + 1);
    }
  }

  lemma QuotientIs(a: int, k: int, q: int, r: int)
    requires k > 0 && a == k * q + r && 0 <= r < k
    ensures a / k == q && a % k == r
  {
    var d := a / k - q;
    assert k * d == r - a % k;
    if d > 0 {
      PositiveProduct(k, d);
    } else if d < 0 {
      var e := -d;
      assert k * d == -(k * e);
      PositiveProduct(k, e);
    }
  }

  lemma PositiveProduct(k: int, d: int)
    requires k > 0 && d > 0
    ensures k * d >= k
  {
  }

  lemma YearLength(y: int)
    ensures DayFromYear(y + 1) == DayFromYear(y) + if IsLeap(y) then 366 else 365
  {
    QuotientStep(y - 1969, 4);
    QuotientStep(y - 1901, 100);
    QuotientStep(y - 1601, 400);
    Cycles(y);
  }

  lemma Cycles(y: int)
    ensures (y - 1968) % 4 == 0 <==> y % 4 == 0
    ensures (y - 1900) % 100 == 0 <==> y % 100 == 0
    ensures (y - 1600) % 400 == 0 <==> y % 400 == 0
    ensures y % 400 == 0 ==> y % 100 == 0
    ensures y % 100 == 0 ==> y % 4 == 0
  {
    QuotientIs(y - 1968, 4, y / 4 - 492, y % 4);
    QuotientIs(y - 1900, 100, y / 100 - 19, y % 100);
    QuotientIs(y - 1600, 400, y / 400 - 4, y % 400);
    if y % 400 == 0 {
      QuotientIs(y, 100, 4 * (y / 400), 0);
    }
    if y % 100 == 0 {
      QuotientIs(y, 4, 25 * (y / 100), 0);
    }
  }

  lemma {:induction false} YearsIncrease(y: int, z: int)
    requires y < z
    ensures DayFromYear(y) + 365 <= DayFromYear(y + 1) <= DayFromYear(z)
    decreases z - y
  {
    YearLength(y);
    if y + 1 < z {
      YearLength(z - 1);
      YearsIncrease(y, z - 1);
    }
  }

  /** The year a day belongs to, searched from a nearby year. */
  function YearNear(day: int, y: int): (year: int)
    ensures DayFromYear(year) <= day < DayFromYear(year + 1)
    decreases DayFromYear(y) > day, if DayFromYear(y) > day then DayFromYear(y) - day else day - DayFromYear(y)
  {
    YearLength(y);
    YearLength(y - 1);
    if DayFromYear(y) > day then YearNear(day, y - 1)
    else if DayFromYear(y + 1) <= day then YearNear(day, y + 1)
    else y
  }

  function DaysInMonth(y: int, m: int): int {
    if m in {4, 6, 9, 11} then 30
    else if m == 2 then if IsLeap(y) then 29 else 28
    else 31
  }

  /** Days of the year before the first of month m. */
  function MonthStart(y: int, m: int): (days: int)
    decreases m
  {
    if m <= 1 then 0 else MonthStart(y, m - 1) + DaysInMonth(y, m - 1)
  }

  datatype Date = Date(year: int, month: int, day: int)

  /** A day of the Gregorian calendar. */
  predicate IsReal(d: Date) { 1 <= d.month <= 12 && 1 <= d.day <= DaysInMonth(d.year, d.month) }

  /** Day number of a date; days before the first or past the end of the month run on into other months. */
  function DayNumber(d: Date): int { DayFromYear(d.year) + MonthStart(d.year, d.month) + d.day - 1 }

  /** The month a day of the year belongs to, searched from month m on. */
  function MonthFrom(y: int, dayInYear: int, m: int): (month: int)
    requires 1 <= m <= 12
    ensures m <= month <= 12
    decreases 12 - m
  {
    if m < 12 && MonthStart(y, m + 1) <= dayInYear then MonthFrom(y, dayInYear, m + 1) else m
  }

  /** The calendar date of a day number. */
  function CivilDate(day: int): Date {
    var y := YearNear(day, 1970);
    var m := MonthFrom(y, day - DayFromYear(y), 1);
    Date(y, m, day - DayFromYear(y) - MonthStart(y, m) + 1)
  }

  lemma {:induction false} MonthFromIs(y: int, dayInYear: int, m: int)
    requires 1 <= m <= 12 && MonthStart(y, m) <= dayInYear < MonthStart(y, 13)
    ensures var month := MonthFrom(y, dayInYear, m);
            MonthStart(y, month) <= dayInYear < MonthStart(y, month + 1)
    decreases 12 - m
  {
    if m < 12 && MonthStart(y, m + 1) <= dayInYear {
      MonthFromIs(y, dayInYear, m + 1);
    }
  }

  lemma {:induction false} MonthsIncrease(y: int, m: int, n: int)
    requires 1 <= m < n
    ensures MonthStart(y, m + 1) <= MonthStart(y, n)
    decreases n
  {
    if m + 1 < n {
      MonthsIncrease(y, m, n - 1);
    }
  }

  lemma MonthsFillYear(y: int)
    ensures MonthStart(y, 13) == if IsLeap(y) then 366 else 365
  {
    var feb := DaysInMonth(y, 2);
    assert MonthStart(y, 3) == 31 + feb;
    assert MonthStart(y, 5) == MonthStart(y, 4) + 30 == 31 + feb + 61;
    assert MonthStart(y, 7) == MonthStart(y, 6) + 30 == 31 + feb + 122;
    assert MonthStart(y, 9) == MonthStart(y, 8) + 31 == 31 + feb + 184;
    assert MonthStart(y, 11) == MonthStart(y, 10) + 31 == 31 + feb + 245;
    assert MonthStart(y, 13) == MonthStart(y, 12) + 31 == 31 + feb + 306;
  }

  /** Where the months start, by a formula that knows no month lengths. */
  lemma {:induction false} MonthStartIs(y: int, m: int)
    requires 1 <= m <= 13
    ensures MonthStart(y, m)
         == (367 * m - 362) / 12 + if m <= 2 then 0 else if y % 4 == 0 && (y % 100 != 0 || y % 400 == 0) then -1 else -2
  {
    if m > 3 {
      MonthStartIs(y, m - 1);
    }
  }

  /** Day numbers count from 1 January 1970; years have 366 days or 365 by the Gregorian rule; and months start within them as the
      formula says. */
  lemma DayNumbersCount(y: int, m: int, d: int)
    requires 1 <= m <= 12
    ensures DayNumber(Date(1970, 1, 1)) == 0
    ensures DayNumber(Date(y + 1, 1, 1)) - DayNumber(Date(y, 1, 1)) == if y % 4 == 0 && (y % 100 != 0 || y % 400 == 0) then 366 else 365
    ensures DayNumber(Date(y, m, d)) - DayNumber(Date(y, 1, 1))
         == (367 * m - 362) / 12 + (if m <= 2 then 0 else if y % 4 == 0 && (y % 100 != 0 || y % 400 == 0) then -1 else -2) + d - 1
  {
    YearLength(y);
    MonthStartIs(y, m);
  }

  /** Every day number is a real date, and the date's day number. */
  lemma CivilDateIsReal(day: int)
    ensures IsReal(CivilDate(day)) && DayNumber(CivilDate(day)) == day
  {
    var y := YearNear(day, 1970);
    YearLength(y);
    MonthsFillYear(y);
    MonthFromIs(y, day - DayFromYear(y), 1);
  }

  /** Day numbers order real dates by year, then month, then day. */
  predicate Earlier(d: Date, e: Date) {
    d.year < e.year || (d.year == e.year && (d.month < e.month || (d.month == e.month && d.day < e.day)))
  }

  lemma EarlierIsSmaller(d: Date, e: Date)
    requires IsReal(d) && IsReal(e) && Earlier(d, e)
    ensures DayNumber(d) < DayNumber(e)
  {
    hide DayFromYear, MonthStart, DaysInMonth;
    WithinYear(d);
    WithinYear(e);
    MonthStep(d.year, d.month);
    if d.year < e.year {
      YearsIncrease(d.year, e.year);
    } else if d.month < e.month {
      MonthsIncrease(d.year, d.month, e.month);
    }
  }

  lemma MonthStep(y: int, m: int)
    requires m >= 1
    ensures MonthStart(y, m + 1) == MonthStart(y, m) + DaysInMonth(y, m)
  {
  }

  lemma WithinYear(d: Date)
    requires IsReal(d)
    ensures DayFromYear(d.year) <= DayNumber(d) < DayFromYear(d.year + 1)
  {
    YearLength(d.year);
    MonthsFillYear(d.year);
    MonthsIncrease(d.year, d.month, 13);
    MonthStartNonNegative(d.year, d.month);
  }

  lemma {:induction false} MonthStartNonNegative(y: int, m: int)
    ensures MonthStart(y, m) >= 0
    decreases m
  {
    if m > 1 {
      MonthStartNonNegative(y, m - 1);
    }
  }

  /** Dates and day numbers are inverse to each other. */
  lemma CivilDateInverts(d: Date)
    requires IsReal(d)
    ensures CivilDate(DayNumber(d)) == d
  {
    var e := CivilDate(DayNumber(d));
    CivilDateIsReal(DayNumber(d));
    if Earlier(d, e) {
      EarlierIsSmaller(d, e);
    } else if Earlier(e, d) {
      EarlierIsSmaller(e, d);
    }
  }

  lemma SmallerIsEarlier(s: int, t: int)
    ensures s < t <==> Earlier(CivilDate(s), CivilDate(t))
  {
    CivilDateIsReal(s);
    CivilDateIsReal(t);
    if Earlier(CivilDate(s), CivilDate(t)) {
      EarlierIsSmaller(CivilDate(s), CivilDate(t));
    } else if Earlier(CivilDate(t), CivilDate(s)) {
      EarlierIsSmaller(CivilDate(t), CivilDate(s));
    }
  }

  // ---- Digits ----

  /** Digit strings of one length are ordered as their numbers. */
  lemma {:induction false} SameLengthSameNumber(s: string, t: string)
    requires AllDigits(s) && AllDigits(t) && |s| == |t| && Number(s) == Number(t)
    ensures s == t
    decreases |s|
  {
    if s != "" {
      SameLengthSameNumber(s[..|s| - 1], t[..|t| - 1]);
      assert s == s[..|s| - 1] + [s[|s| - 1]] && t == t[..|t| - 1] + [t[|t| - 1]];
    }
  }

  /** `s.padStart(width, '0')` */
  function PadStart(s: string, width: nat): (r: string)
    ensures |r| == if |s| < width then width else |s|
    ensures AllDigits(s) ==> AllDigits(r)
    decreases width - |s|
  {
    if |s| < width then PadStart("0" + s, width) else s
  }

  lemma {:induction false} ZeroInFront(s: string)
    requires AllDigits(s)
    ensures AllDigits("0" + s) && Number("0" + s) == Number(s)
  {
    if s == "" {
      assert ("0" + s)[..0] == "";
    } else {
      ZeroInFront(s[..|s| - 1]);
      assert ("0" + s)[..|s|] == "0" + s[..|s| - 1];
    }
  }

  lemma {:induction false} PadKeepsNumber(s: string, width: nat)
    requires AllDigits(s)
    ensures Number(PadStart(s, width)) == Number(s)
    decreases width - |s|
  {
    if |s| < width {
      ZeroInFront(s);
      PadKeepsNumber("0" + s, width);
    }
  }

  lemma {:induction false} DecimalLength(n: nat)
    ensures n < 100 ==> |Decimal(n)| <= 2
    ensures n < 10_000 ==> |Decimal(n)| <= 4
    ensures n >= 1_000 ==> |Decimal(n)| >= 4
    ensures n >= 10_000 ==> |Decimal(n)| >= 5
  {
    hide Decimal;
    DecimalStep(n);
    DecimalStep(n / 10);
    DecimalStep(n / 10 / 10);
    DecimalStep(n / 10 / 10 / 10);
  }

  lemma DecimalStep(n: nat)
    ensures |Decimal(n)| == if n < 10 then 1 else |Decimal(n / 10)| + 1
  {
  }

  /** `String(n)` */
  function Show(n: int): string { if n < 0 then "-" + Decimal(-n) else Decimal(n) }

  function Padded(n: int, width: nat): string { PadStart(Show(n), width) }

  // ---- isCalendarStrict ----

  /** The pattern of four, two and two digits. */
  predicate IsShape(s: string) {
    |s| == 10 && s[4] == '-' && s[7] == '-' && AllDigits(s[..4]) && AllDigits(s[5..7]) && AllDigits(s[8..])
  }

  function DateIn(s: string): Date
    requires IsShape(s)
  {
    Date(Number(s[..4]), Number(s[5..7]), Number(s[8..]))
  }

  /** `Date.UTC(year, month - 1, day)` in whole days: section 21.4.3.4 of ECMA-262 moves years 0 to 99 to 1900 to 1999. */
  function UtcDay(d: Date): int {
    DayNumber(if 0 <= d.year <= 99 then d.(year := 1900 + d.year) else d)
  }

  /** The date written year-month-day with zero padding. */
  function Written(d: Date): string {
    Padded(d.year, 4) + "-" + Padded(d.month, 2) + "-" + Padded(d.day, 2)
  }

  predicate IsCalendarStrict(s: string) {
    IsShape(s) &&
    var d := DateIn(s);
    1 <= d.month <= 12 && Written(CivilDate(UtcDay(d))) == s
  }

  lemma PaddedIs(n: nat, width: nat, s: string)
    requires AllDigits(s) && |s| == width
    ensures AllDigits(Padded(n, width))
    ensures Padded(n, width) == s <==> |Padded(n, width)| == width && Number(s) == n
  {
    NumberOfDecimal(n);
    PadKeepsNumber(Decimal(n), width);
    if |Padded(n, width)| == width && Number(s) == n {
      SameLengthSameNumber(Padded(n, width), s);
    }
  }

  /** A written date equals a string of the right shape exactly when the string names that date. */
  lemma WrittenIs(d: Date, s: string)
    requires IsShape(s) && 0 <= d.year && 1 <= d.month <= 12 && 1 <= d.day <= 31
    ensures Written(d) == s <==> DateIn(s) == d
  {
    DecimalLength(d.year);
    DecimalLength(d.month);
    DecimalLength(d.day);
    PaddedIs(d.year, 4, s[..4]);
    PaddedIs(d.month, 2, s[5..7]);
    PaddedIs(d.day, 2, s[8..]);
    var y, m, w := Padded(d.year, 4), Padded(d.month, 2), Padded(d.day, 2);
    assert s == s[..4] + "-" + s[5..7] + "-" + s[8..];
    if Written(d) == s {
      assert |y| == 4;
      assert s[..4] == y && s[5..7] == m && s[8..] == w;
    } else if DateIn(s) == d {
      YearFits(s[..4]);
    }
  }

  lemma YearFits(s: string)
    requires AllDigits(s) && |s| == 4
    ensures Number(s) < 10_000
  {
    assert Number(s[..1]) < 10 by {
      assert s[..1][..0] == "";
    }
    assert s[..2][..1] == s[..1] && s[..3][..2] == s[..2] && s[..4] == s && s[..4][..3] == s[..3];
  }

  lemma StrictNamesRealDate(s: string)
    ensures IsCalendarStrict(s) <==> IsShape(s) && DateIn(s).year >= 100 && IsReal(DateIn(s))
  {
    hide CivilDate, DayFromYear, Written, Number;
    if IsShape(s) && 1 <= DateIn(s).month <= 12 {
      var d := DateIn(s);
      var e := CivilDate(UtcDay(d));
      CivilDateIsReal(UtcDay(d));
      MonthStartNonNegative(d.year, d.month);
      MonthStartNonNegative(1900 + d.year, d.month);
      YearIsLate(d);
      WrittenIs(e, s);
      if d.year >= 100 && IsReal(d) {
        CivilDateInverts(d);
      }
    }
  }

  /** How long a month is, from where it and the next one start. */
  lemma MonthLengths(y: int, m: int)
    requires 1 <= m <= 12
    ensures var leap := y % 4 == 0 && (y % 100 != 0 || y % 400 == 0);
            DaysInMonth(y, m) == [31, if leap then 29 else 28, 31, 30, 31, 30, 31, 31, 30, 31, 30, 31][m - 1]
  {
    MonthStep(y, m);
    MonthStartIs(y, m);
    MonthStartIs(y, m + 1);
  }

  /** Calendar validity: accepted exactly are four, two and two digits, with dashes between them, for a year from 100 on, a
      month, and a day that this month has. */
  lemma StrictIsReal(s: string)
    ensures IsCalendarStrict(s) <==>
            && |s| == 10 && s[4] == '-' && s[7] == '-' && AllDigits(s[..4]) && AllDigits(s[5..7]) && AllDigits(s[8..])
            && var (y, m, d) := (Number(s[..4]), Number(s[5..7]), Number(s[8..]));
               var leap := y % 4 == 0 && (y % 100 != 0 || y % 400 == 0);
               && y >= 100 && 1 <= m <= 12
               && 1 <= d <= [31, if leap then 29 else 28, 31, 30, 31, 30, 31, 31, 30, 31, 30, 31][m - 1]
  {
    hide IsCalendarStrict, DaysInMonth, Number;
    StrictNamesRealDate(s);
    if IsShape(s) && 1 <= DateIn(s).month <= 12 {
      MonthLengths(DateIn(s).year, DateIn(s).month);
    }
  }

  /** The date read back from a year below 100 lies in another century. */
  lemma YearIsLate(d: Date)
    requires 0 <= d.year && 1 <= d.month <= 12 && 0 <= d.day
    ensures d.year >= 100 ==> CivilDate(UtcDay(d)).year >= 99
    ensures d.year < 100 ==> CivilDate(UtcDay(d)).year >= 1899
  {
    var shown := if d.year <= 99 then 1900 + d.year else d.year;
    MonthStartNonNegative(shown, d.month);
    assert UtcDay(d) >= DayFromYear(shown) - 1;
    YearAtLeast(UtcDay(d), shown);
  }

  lemma YearAtLeast(day: int, y: int)
    requires day >= DayFromYear(y) - 1
    ensures CivilDate(day).year >= y - 1
  {
    var e := YearNear(day, 1970);
    if e < y - 1 {
      YearsIncrease(e, y - 1);
      YearsIncrease(y - 1, y);
    }
  }
}
