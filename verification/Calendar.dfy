/** The proleptic Gregorian calendar, day by day, and the closed-form conversion that must agree with it
    (`src/ssh`, `civil_from_days`). */
module Calendar {

  datatype Date = Date(year: int, month: int, day: int)

  // ----- the calendar, from its rules -----

  predicate IsLeap(y: int) { y % 4 == 0 && (y % 100 != 0 || y % 400 == 0) }

  function YearLength(y: int): int { if IsLeap(y) then 366 else 365 }

  function MonthLength(y: int, m: int): int {
    if m == 2 then (if IsLeap(y) then 29 else 28)
    else if m == 4 || m == 6 || m == 9 || m == 11 then 30
    else 31
  }

  predicate IsDate(c: Date) { 1 <= c.month <= 12 && 1 <= c.day <= MonthLength(c.year, c.month) }

  /** The day after. */
  function NextDay(c: Date): (n: Date)
    requires IsDate(c)
    ensures IsDate(n)
  {
    if c.day < MonthLength(c.year, c.month) then c.(day := c.day + 1)
    else if c.month < 12 then Date(c.year, c.month + 1, 1)
    else Date(c.year + 1, 1, 1)
  }

  /** Days from 1970-01-01 to the first day of year `y`, counted year by year. */
  function DaysToYear(y: int): int
    decreases if y >= 1970 then y - 1970 else 1970 - y
  {
    if y == 1970 then 0
    else if y > 1970 then DaysToYear(y - 1) + YearLength(y - 1)
    else DaysToYear(y + 1) - YearLength(y)
  }

  /** Days from the first of January to the first of month `m`, counted month by month. */
  function DaysToMonth(y: int, m: int): int
    decreases m
  {
    if m <= 1 then 0 else DaysToMonth(y, m - 1) + MonthLength(y, m - 1)
  }

  function DayNumber(c: Date): int { DaysToYear(c.year) + DaysToMonth(c.year, c.month) + c.day - 1 }

  // ----- the conversion -----

  /** `civil_from_days`: `div_euclid` and `rem_euclid` are Dafny's own `/` and `%`. */
  function CivilFromDays(days: int): Date {
    var z := days + 719468;
    var era := z / 146097;
    var doe := z % 146097;
    var yoe := YearOfEra(doe);
    var y := yoe + era * 400;
    MonthAndDay(y, doe - EraDays(yoe))
  }

  /** Its second half: the date `doy` days after the first of March of year `y`. */
  function MonthAndDay(y: int, doy: int): Date {
    var mp := (5 * doy + 2) / 153;
    var d := doy - (153 * mp + 2) / 5 + 1;
    var m := if mp < 10 then mp + 3 else mp - 9;
    Date(if m <= 2 then y + 1 else y, m, d)
  }

  function YearOfEra(doe: int): int { (doe - doe / 1460 + doe / 36524 - doe / 146096) / 365 }

  /** Days from the first of March of the era's first year to the first of March `yoe` years later. */
  function EraDays(yoe: int): int { 365 * yoe + yoe / 4 - yoe / 100 }

  // ----- why it is right -----

  /** The estimate in terms of `doe == 1460 * a + t`: four-year blocks, a correction of at most one year, and
      the century it lies in. */
  lemma EstimateParts(a: int, t: int, c: int, k: int)
    requires 0 <= t < 1460 && 0 <= c <= 3
    requires 36524 * c <= 1460 * a + t < 36524 * (c + 1)
    requires 365 * k <= t + c - a < 365 * (k + 1)
    ensures 25 * c <= a <= 25 * c + 25
    ensures -1 <= k <= 3
    ensures 100 * c <= 4 * a + k < 100 * (c + 1)
  {
    match c {
      case 0 => case 1 => case 2 => case 3 =>
    }
  }

  lemma QuotientOf(x: int, d: int, q: int)
    requires d > 0 && d * q <= x < d * (q + 1)
    ensures x / d == q
  {
    var r := x - d * q;
    assert x == d * q + r && 0 <= r < d;
    QuotientUnique(x, d, q, x / d);
  }

  lemma QuotientUnique(x: int, d: int, q: int, p: int)
    requires d > 0 && d * q <= x < d * q + d && d * p <= x < d * p + d
    ensures q == p
  {
    Ordered(d, q, p);
    Ordered(d, p, q);
  }

  lemma Ordered(d: int, q: int, p: int)
    requires d > 0
    ensures q < p ==> d * q + d <= d * p
  {
    if q < p { assert d * (q + 1) <= d * p; }
  }

  lemma EstimateIs(doe: int, a: int, t: int, c: int, k: int)
    requires 0 <= doe < 146096 && doe == 1460 * a + t && 0 <= t < 1460
    requires 36524 * c <= doe < 36524 * (c + 1)
    requires 365 * k <= t + c - a < 365 * (k + 1)
    ensures YearOfEra(doe) == 4 * a + k
  {
    QuotientOf(doe, 1460, a);
    QuotientOf(doe, 36524, c);
    QuotientOf(doe, 146096, 0);
    QuotientOf(doe - a + c, 365, 4 * a + k);
  }

  lemma EraDaysOf(a: int, c: int, k: int)
    requires -1 <= k <= 3 && 100 * c <= 4 * a + k < 100 * (c + 1)
    ensures EraDays(4 * a + k) == 1460 * a + 365 * k + (if k < 0 then a - 1 else a) - c
  {
    QuotientOf(4 * a + k, 4, if k < 0 then a - 1 else a);
    QuotientOf(4 * a + k, 100, c);
  }

  /** Day `doe` of the era lies in its year `yoe`: the day of the year is never negative and never past the
      end, and reaches 365 only when the following February has 29 days. */
  predicate LiesIn(doe: int, yoe: int) {
    && 0 <= yoe < 400 && 0 <= doe - EraDays(yoe) <= 365
    && (doe - EraDays(yoe) == 365 ==> IsLeap(yoe + 1))
  }

  lemma EstimateLiesIn(doe: int, a: int, t: int, c: int, k: int)
    requires 0 <= doe < 146096 && doe == 1460 * a + t && 0 <= t < 1460
    requires 36524 * c <= doe < 36524 * (c + 1)
    requires 365 * k <= t + c - a < 365 * (k + 1)
    ensures LiesIn(doe, 4 * a + k)
  {
    EstimateParts(a, t, c, k);
    EraDaysOf(a, c, k);
    if doe - EraDays(4 * a + k) == 365 { LeapAfter(a, c, doe); }
  }

  lemma LastDayOfEra()
    ensures YearOfEra(146096) == 399 && LiesIn(146096, 399)
  {
  }

  /** The estimate of the year hits the right year. */
  lemma YearOfEraIs(doe: int)
    requires 0 <= doe < 146097
    ensures LiesIn(doe, YearOfEra(doe))
  {
    if doe < 146096 {
      var a, t, c := doe / 1460, doe % 1460, doe / 36524;
      var k := (t + c - a) / 365;
      EstimateIs(doe, a, t, c, k);
      EstimateLiesIn(doe, a, t, c, k);
    } else {
      LastDayOfEra();
    }
  }

  lemma LeapAfter(a: int, c: int, doe: int)
    requires 0 <= c <= 3 && 36524 * c <= doe < 36524 * (c + 1)
    requires 25 * c <= a <= 25 * c + 25 && doe == 1461 * a - 1 - c
    ensures IsLeap(4 * a)
  {
    match c {
      case 0 => case 1 => case 2 => case 3 =>
    }
  }

  /** Leap years up to and including year `n`. */
  function Leaps(n: int): int { n / 4 - n / 100 + n / 400 }

  lemma LeapStep(y: int)
    ensures Leaps(y) == Leaps(y - 1) + (if IsLeap(y) then 1 else 0)
  {
    QuotientStep(y, 4);
    QuotientStep(y, 100);
    QuotientStep(y, 400);
  }

  lemma QuotientStep(y: int, d: int)
    requires d > 1
    ensures y / d == (y - 1) / d + (if y % d == 0 then 1 else 0)
  {
    var q, r := y / d, y % d;
    assert y == d * q + r && 0 <= r < d;
    if r == 0 {
      assert d * (q - 1) == d * q - d;
      QuotientOf(y - 1, d, q - 1);
    } else {
      QuotientOf(y - 1, d, q);
    }
  }

  lemma {:induction false} DaysToYearIs(y: int)
    ensures DaysToYear(y) == 365 * (y - 1970) + Leaps(y - 1) - 477
    decreases if y >= 1970 then y - 1970 else 1970 - y
  {
    if y > 1970 {
      DaysToYearIs(y - 1);
      LeapStep(y - 1);
    } else if y < 1970 {
      DaysToYearIs(y + 1);
      LeapStep(y);
    }
  }

  /** The first of March, `yoe` years into era `era`. */
  lemma FirstOfMarch(yoe: int, era: int)
    requires 0 <= yoe < 400
    ensures var y := yoe + era * 400;
            var march := 146097 * era + EraDays(yoe) - 719468;
            && DaysToYear(y) + 59 + (if IsLeap(y) then 1 else 0) == march
            && DaysToYear(y + 1) == march + 306
  {
    var y := yoe + era * 400;
    DaysToYearIs(y);
    DaysToYearIs(y + 1);
    LeapStep(y);
    QuotientOf(y, 400, era);
    Multiples(yoe, era, 4, 100);
    Multiples(yoe, era, 100, 4);
  }

  lemma Multiples(x: int, e: int, d: int, f: int)
    requires d > 0 && d * f == 400
    ensures (x + e * 400) / d == x / d + e * f
  {
    var q, r := x / d, x % d;
    assert x == d * q + r && 0 <= r < d;
    assert d * (q + e * f) == d * q + e * (d * f);
    assert d * (q + e * f + 1) == d * (q + e * f) + d;
    QuotientOf(x + e * 400, d, q + e * f);
  }

  lemma MonthStarts(y: int)
    ensures var l := if IsLeap(y) then 1 else 0;
            && DaysToMonth(y, 1) == 0 && DaysToMonth(y, 2) == 31 && DaysToMonth(y, 3) == 59 + l
            && DaysToMonth(y, 4) == 90 + l && DaysToMonth(y, 5) == 120 + l && DaysToMonth(y, 6) == 151 + l
            && DaysToMonth(y, 7) == 181 + l && DaysToMonth(y, 8) == 212 + l && DaysToMonth(y, 9) == 243 + l
            && DaysToMonth(y, 10) == 273 + l && DaysToMonth(y, 11) == 304 + l && DaysToMonth(y, 12) == 334 + l
            && DaysToMonth(y, 13) == YearLength(y)
  {
    assert DaysToMonth(y, 4) == DaysToMonth(y, 3) + 31;
    assert DaysToMonth(y, 6) == DaysToMonth(y, 5) + 31;
    assert DaysToMonth(y, 8) == DaysToMonth(y, 7) + 31;
    assert DaysToMonth(y, 10) == DaysToMonth(y, 9) + 30;
    assert DaysToMonth(y, 12) == DaysToMonth(y, 11) + 30;
  }

  /** The month and the day from the day of the March year. */
  lemma MonthOfYear(y: int, doy: int)
    requires 0 <= doy <= 365 && (doy == 365 ==> IsLeap(y + 1))
    ensures var c := MonthAndDay(y, doy);
            && IsDate(c)
            && (c.year == y ==> DaysToMonth(y, c.month) + c.day - 1 == 59 + (if IsLeap(y) then 1 else 0) + doy)
            && (c.year != y ==> c.year == y + 1 && DaysToMonth(y + 1, c.month) + c.day - 1 == doy - 306)
  {
    MonthStarts(y);
    MonthStarts(y + 1);
    var mp := (5 * doy + 2) / 153;
    assert 0 <= mp <= 11;
    match mp {
      case 0 => case 1 => case 2 => case 3 => case 4 => case 5 =>
      case 6 => case 7 => case 8 => case 9 => case 10 => case 11 =>
    }
  }

  /** The conversion as era, year of the era and day of the year. */
  lemma CivilParts(days: int) returns (yoe: int, era: int, doy: int)
    ensures 0 <= yoe < 400 && 0 <= doy <= 365 && (doy == 365 ==> IsLeap(yoe + 1))
    ensures days == 146097 * era + EraDays(yoe) + doy - 719468
    ensures CivilFromDays(days) == MonthAndDay(yoe + era * 400, doy)
  {
    var z := days + 719468;
    era := z / 146097;
    yoe, doy := EraParts(z % 146097);
    CivilUnfolds(days, era, z % 146097);
  }

  lemma CivilUnfolds(days: int, era: int, doe: int)
    requires era == (days + 719468) / 146097 && doe == (days + 719468) % 146097
    ensures CivilFromDays(days) == MonthAndDay(YearOfEra(doe) + era * 400, doe - EraDays(YearOfEra(doe)))
  {
  }

  lemma EraParts(doe: int) returns (yoe: int, doy: int)
    requires 0 <= doe < 146097
    ensures yoe == YearOfEra(doe) && doy == doe - EraDays(yoe) && LiesIn(doe, yoe)
  {
    YearOfEraIs(doe);
    yoe := YearOfEra(doe);
    doy := doe - EraDays(yoe);
  }

  /** Whole days to a date and back: for every integer the conversion gives a date of the calendar, and the
      calendar's own count of that date is the integer. */
  lemma CivilIsInverse(days: int)
    ensures IsDate(CivilFromDays(days)) && DayNumber(CivilFromDays(days)) == days
  {
    var yoe, era, doy := CivilParts(days);
    LeapPeriod(yoe + 1, era);
    DateInEra(yoe, era, doy);
  }

  lemma DateInEra(yoe: int, era: int, doy: int)
    requires 0 <= yoe < 400 && 0 <= doy <= 365 && (doy == 365 ==> IsLeap(yoe + 1 + era * 400))
    ensures var c := MonthAndDay(yoe + era * 400, doy);
            IsDate(c) && DayNumber(c) == 146097 * era + EraDays(yoe) + doy - 719468
  {
    MonthOfYear(yoe + era * 400, doy);
    FirstOfMarch(yoe, era);
  }

  lemma LeapPeriod(x: int, e: int)
    ensures IsLeap(x + e * 400) <==> IsLeap(x)
  {
    Multiples(x, e, 4, 100);
    Multiples(x, e, 100, 4);
    Multiples(x, e, 400, 1);
  }

  /** The count goes up by one from each day to the next. */
  lemma NextDayCounts(c: Date)
    requires IsDate(c)
    ensures DayNumber(NextDay(c)) == DayNumber(c) + 1
  {
    if c.day == MonthLength(c.year, c.month) && c.month == 12 {
      MonthStarts(c.year);
      MonthStarts(c.year + 1);
      DaysToYearIs(c.year);
      DaysToYearIs(c.year + 1);
      LeapStep(c.year);
    }
  }

  /** Calendar order. */
  predicate Before(a: Date, b: Date) {
    a.year < b.year || (a.year == b.year && (a.month < b.month || (a.month == b.month && a.day < b.day)))
  }

  lemma {:induction false} DaysToYearGrows(y: int, y': int)
    requires y < y'
    ensures DaysToYear(y) + YearLength(y) <= DaysToYear(y')
    decreases y' - y
  {
    DaysToYearIs(y);
    DaysToYearIs(y + 1);
    LeapStep(y);
    if y + 1 < y' { DaysToYearGrows(y + 1, y'); }
  }

  lemma {:induction false} DaysToMonthGrows(y: int, m: int, m': int)
    requires 1 <= m < m'
    ensures DaysToMonth(y, m) + MonthLength(y, m) <= DaysToMonth(y, m')
    decreases m'
  {
    if m < m' - 1 { DaysToMonthGrows(y, m, m' - 1); }
  }

  /** The count respects calendar order, so it is injective on dates. */
  lemma CountIsMonotone(a: Date, b: Date)
    requires IsDate(a) && IsDate(b)
    ensures Before(a, b) ==> DayNumber(a) < DayNumber(b)
  {
    MonthStarts(a.year);
    if a.year < b.year {
      DaysToYearGrows(a.year, b.year);
      DaysToMonthGrows(a.year, a.month, 13);
      if b.month > 1 { DaysToMonthGrows(b.year, 1, b.month); }
    } else if a.year == b.year && a.month < b.month {
      DaysToMonthGrows(a.year, a.month, b.month);
    }
  }

  /** A date of the calendar survives being counted and converted back. */
  lemma CivilOfCount(c: Date)
    requires IsDate(c)
    ensures CivilFromDays(DayNumber(c)) == c
  {
    var d := CivilFromDays(DayNumber(c));
    CivilIsInverse(DayNumber(c));
    CountIsMonotone(c, d);
    CountIsMonotone(d, c);
  }

  /** The next integer is the next day of the calendar. */
  lemma CivilSucceeds(days: int)
    ensures IsDate(CivilFromDays(days)) && CivilFromDays(days + 1) == NextDay(CivilFromDays(days))
  {
    CivilIsInverse(days);
    var next := NextDay(CivilFromDays(days));
    NextDayCounts(CivilFromDays(days));
    CivilOfNumber(days + 1, next);
  }

  lemma CivilOfNumber(days: int, c: Date)
    requires IsDate(c) && DayNumber(c) == days
    ensures CivilFromDays(days) == c
  {
    CivilOfCount(c);
  }

  lemma CivilEpoch()
    ensures CivilFromDays(0) == Date(1970, 1, 1)
  {
    CivilOfNumber(0, Date(1970, 1, 1));
  }

  /** Later days are later dates. */
  lemma CivilIsMonotone(x: int, y: int)
    requires x < y
    ensures Before(CivilFromDays(x), CivilFromDays(y))
  {
    CivilIsInverse(x);
    CivilIsInverse(y);
    CountIsMonotone(CivilFromDays(y), CivilFromDays(x));
  }
}
