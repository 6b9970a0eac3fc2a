/** The timestamp in connection ids (`src/ssh`, `basic_date_t_time`): ISO 8601 basic format in UTC. */
module Timestamp {
  import opened Wrappers
  import opened Calendar
  import opened Decimal

  /** `basic_date_t_time`. */
  function BasicDateTTime(unixSecs: int): string { Stamp(unixSecs / 86400, unixSecs % 86400) }

  function Stamp(days: int, secs: int): string { DatePart(CivilFromDays(days)) + ("T" + TimePart(secs)) }

  function DatePart(c: Date): string { Padded(c.year, 4) + (Padded(c.month, 2) + Padded(c.day, 2)) }

  function TimePart(secs: int): string {
    Padded(secs / 3600, 2) + (Padded(secs % 3600 / 60, 2) + Padded(secs % 60, 2))
  }

  function ThreeFields(a: nat, w: nat, b: nat, c: nat): string {
    FixedDigits(a, w) + (FixedDigits(b, 2) + FixedDigits(c, 2))
  }

  function YearOf(unixSecs: int): int { CivilFromDays(unixSecs / 86400).year }

  lemma Powers()
    ensures Pow10(2) == 100 && Pow10(3) == 1000 && Pow10(4) == 10000
  {
    assert Pow10(2) == 100;
  }

  lemma TwoDigits(x: int)
    requires 0 <= x < 100
    ensures Padded(x, 2) == FixedDigits(x, 2)
  {
    Powers();
    PaddedFits(x, 2);
  }

  /** The two parts in fixed width. */
  lemma TimeIsFixed(secs: int)
    requires 0 <= secs < 86400
    ensures TimePart(secs) == ThreeFields(secs / 3600, 2, secs % 3600 / 60, secs % 60)
  {
    TwoDigits(secs / 3600);
    TwoDigits(secs % 3600 / 60);
    TwoDigits(secs % 60);
  }

  lemma DateIsFixed(c: Date)
    requires IsDate(c)
    ensures Padded(c.month, 2) == FixedDigits(c.month, 2) && Padded(c.day, 2) == FixedDigits(c.day, 2)
    ensures 0 <= c.year < 10000 ==> DatePart(c) == ThreeFields(c.year, 4, c.month, c.day)
  {
    TwoDigits(c.month);
    TwoDigits(c.day);
    Powers();
    if 0 <= c.year < 10000 { PaddedFits(c.year, 4); }
  }

  /** The string has its nominal fifteen characters exactly for the years -999 to 9999. */
  lemma FifteenCharacters(unixSecs: int)
    ensures |BasicDateTTime(unixSecs)| == 15 <==> -999 <= YearOf(unixSecs) <= 9999
  {
    var c := CivilFromDays(unixSecs / 86400);
    CivilIsInverse(unixSecs / 86400);
    DateLength(c);
    TimeIsFixed(unixSecs % 86400);
    assert |BasicDateTTime(unixSecs)| == |DatePart(c)| + 7;
  }

  lemma DateLength(c: Date)
    requires IsDate(c)
    ensures |DatePart(c)| == 8 <==> -999 <= c.year <= 9999
  {
    DateIsFixed(c);
    Powers();
    PaddedLength(c.year, 4);
  }

  // Reading a timestamp back.

  /** Two digits each for month, day, hour, minute and second, counted from the end, a `T` between day and hour, and
      the year in front. */
  function ReadStamp(s: string): Option<int> {
    var n := |s|;
    if n < 12 || s[n - 7] != 'T' then None else
    var year, month, day := SignedValue(s[..n - 11]), Value(s[n - 11..n - 9]), Value(s[n - 9..n - 7]);
    var hour, minute, second := Value(s[n - 6..n - 4]), Value(s[n - 4..n - 2]), Value(s[n - 2..]);
    if year.None? || month.None? || day.None? || hour.None? || minute.None? || second.None? then None else
    var days := DayNumber(Date(year.value, month.value, day.value));
    Some(86400 * days + 3600 * hour.value + 60 * minute.value + second.value)
  }

  lemma Cuts(y: string, m: string, d: string, h: string, i: string, c: string)
    requires y != "" && |m| == 2 && |d| == 2 && |h| == 2 && |i| == 2 && |c| == 2
    ensures var s := y + (m + d) + ("T" + (h + (i + c)));
            var n := |s|;
            && n >= 12 && s[n - 7] == 'T'
            && s[..n - 11] == y && s[n - 11..n - 9] == m && s[n - 9..n - 7] == d
            && s[n - 6..n - 4] == h && s[n - 4..n - 2] == i && s[n - 2..] == c
  {
  }

  lemma TwoDigitsRead(x: int)
    requires 0 <= x < 100
    ensures |Padded(x, 2)| == 2 && Value(Padded(x, 2)) == Some(x)
  {
    TwoDigits(x);
    NonNegativeReads(x, 2);
  }

  lemma PartsRead(y: string, m: string, d: string, h: string, i: string, c: string, date: Date, hour: nat,
                  minute: nat, second: nat, secs: int)
    requires y != "" && |m| == 2 && |d| == 2 && |h| == 2 && |i| == 2 && |c| == 2
    requires SignedValue(y) == Some(date.year) && Value(m) == Some(date.month) && Value(d) == Some(date.day)
    requires Value(h) == Some(hour) && Value(i) == Some(minute) && Value(c) == Some(second)
    requires 3600 * hour + 60 * minute + second == secs
    ensures ReadStamp(y + (m + d) + ("T" + (h + (i + c)))) == Some(86400 * DayNumber(date) + secs)
  {
    Cuts(y, m, d, h, i, c);
  }

  lemma DateReads(c: Date) returns (y: string, m: string, d: string)
    requires IsDate(c)
    ensures DatePart(c) == y + (m + d) && y != "" && |m| == 2 && |d| == 2
    ensures SignedValue(y) == Some(c.year) && Value(m) == Some(c.month) && Value(d) == Some(c.day)
  {
    y, m, d := Padded(c.year, 4), Padded(c.month, 2), Padded(c.day, 2);
    PaddedReads(c.year, 4, y);
    TwoDigitsRead(c.month);
    TwoDigitsRead(c.day);
  }

  lemma TimeReads(secs: int) returns (h: string, i: string, e: string)
    requires 0 <= secs < 86400
    ensures TimePart(secs) == h + (i + e) && |h| == 2 && |i| == 2 && |e| == 2
    ensures Value(h) == Some(secs / 3600) && Value(i) == Some(secs % 3600 / 60) && Value(e) == Some(secs % 60)
  {
    h, i, e := Padded(secs / 3600, 2), Padded(secs % 3600 / 60, 2), Padded(secs % 60, 2);
    TwoDigitsRead(secs / 3600);
    TwoDigitsRead(secs % 3600 / 60);
    TwoDigitsRead(secs % 60);
  }

  lemma StampReads(c: Date, secs: int)
    requires IsDate(c) && 0 <= secs < 86400
    ensures ReadStamp(DatePart(c) + ("T" + TimePart(secs))) == Some(86400 * DayNumber(c) + secs)
  {
    var y, m, d := DateReads(c);
    var h, i, e := TimeReads(secs);
    SecondsAddUp(secs);
    PartsRead(y, m, d, h, i, e, c, secs / 3600, secs % 3600 / 60, secs % 60, secs);
  }

  lemma SecondsAddUp(secs: int)
    ensures 3600 * (secs / 3600) + 60 * (secs % 3600 / 60) + secs % 60 == secs
  {
    SecondsOf(secs);
  }

  /** The string says the time: read back with the calendar's own count of days, it gives the same second, for every
      number of seconds. */
  lemma TimestampRoundTrip(unixSecs: int)
    ensures ReadStamp(BasicDateTTime(unixSecs)) == Some(unixSecs)
  {
    CivilIsInverse(unixSecs / 86400);
    StampReads(CivilFromDays(unixSecs / 86400), unixSecs % 86400);
  }

  lemma TimeFields(s: int, t: int)
    requires 0 <= s < t < 86400
    ensures s / 3600 < t / 3600
         || (s / 3600 == t / 3600 && (s % 3600 / 60 < t % 3600 / 60
                                   || (s % 3600 / 60 == t % 3600 / 60 && s % 60 < t % 60)))
  {
    InOrderBy(s, t, 3600);
    if s / 3600 == t / 3600 {
      InOrderBy(s % 3600, t % 3600, 60);
      SecondsOf(s);
      SecondsOf(t);
    }
  }

  lemma InOrderBy(s: int, t: int, d: int)
    requires 0 <= s < t && d > 0
    ensures s / d < t / d || (s / d == t / d && s % d < t % d)
  {
    var q, p := s / d, t / d;
    assert s == d * q + s % d && t == d * p + t % d;
    Ordered(d, p, q);
    if p == q { assert d * p == d * q; }
  }

  lemma SecondsOf(s: int)
    ensures s % 3600 % 60 == s % 60
  {
    assert s == 60 * (60 * (s / 3600)) + s % 3600;
  }

  lemma TimeIsOrdered(s: int, t: int)
    requires 0 <= s < t < 86400
    ensures LexLess(TimePart(s), TimePart(t))
  {
    TimeIsFixed(s);
    TimeIsFixed(t);
    TimeFields(s, t);
    Powers();
    FieldsOrdered(s / 3600, s % 3600 / 60, s % 60, t / 3600, t % 3600 / 60, t % 60, 2);
  }

  /** Fields of fixed width compare like the tuple of their values. */
  lemma FieldsOrdered(a: nat, b: nat, c: nat, a': nat, b': nat, c': nat, w: nat)
    requires a < Pow10(w) && a' < Pow10(w) && b < 100 && b' < 100 && c < 100 && c' < 100
    requires a < a' || (a == a' && (b < b' || (b == b' && c < c')))
    ensures LexLess(ThreeFields(a, w, b, c), ThreeFields(a', w, b', c'))
  {
    Powers();
    if a == a' {
      if b == b' { FixedDigitsOrdered(c, c', 2); }
      FieldOrdered(b, b', 2, FixedDigits(c, 2), FixedDigits(c', 2));
    }
    FieldOrdered(a, a', w, FixedDigits(b, 2) + FixedDigits(c, 2), FixedDigits(b', 2) + FixedDigits(c', 2));
  }

  lemma MonthDayOrdered(c: Date, d: Date)
    requires IsDate(c) && IsDate(d) && Before(c, d) && c.year == d.year
    ensures LexLess(Padded(c.month, 2) + Padded(c.day, 2), Padded(d.month, 2) + Padded(d.day, 2))
    ensures |Padded(c.month, 2) + Padded(c.day, 2)| == |Padded(d.month, 2) + Padded(d.day, 2)| == 4
  {
    DateIsFixed(c);
    DateIsFixed(d);
    Powers();
    if c.month == d.month { FixedDigitsOrdered(c.day, d.day, 2); }
    FieldOrdered(c.month, d.month, 2, FixedDigits(c.day, 2), FixedDigits(d.day, 2));
  }

  /** Years of the same number of digits, five or more. */
  ghost predicate SameDigits(a: int, b: int) { exists k :: k >= 4 && Pow10(k) <= a && b < Pow10(k + 1) }

  /** The two years on either side of a change to fewer digits, before year 0. */
  ghost predicate DigitLess(a: int, b: int) { b == a + 1 && exists k :: k >= 3 && a + Pow10(k) == 0 }

  /** The years from `a` to `b` sort as they follow each other. */
  ghost predicate YearsSort(a: int, b: int) {
    a == b || (-1 <= a && b <= 9999) || SameDigits(a, b) || DigitLess(a, b)
  }

  lemma PositiveYearSplits(c: int, d: int)
    requires 0 <= c < d && (d <= 9999 || SameDigits(c, d))
    ensures Splits(Padded(c, 4), Padded(d, 4))
  {
    Powers();
    if d <= 9999 {
      PaddedSplits(c, d, 4);
    } else {
      var k :| k >= 4 && Pow10(k) <= c && d < Pow10(k + 1);
      SameDigitsSplit(c, d, k, 4);
    }
  }

  lemma DigitLessSplits(c: int, d: int)
    requires DigitLess(c, d)
    ensures c < 0 && Splits(Padded(c, 4), Padded(d, 4))
  {
    var k :| k >= 3 && c + Pow10(k) == 0;
    Pow10Grows(2, k);
    Powers();
    CarrySplits(k, 3);
    SplitsAfter('-', PadLeft(Digits(-c), 3), PadLeft(Digits(-d), 3));
  }

  lemma YearSplits(c: int, d: int)
    requires c < d && YearsSort(c, d)
    ensures Splits(Padded(c, 4), Padded(d, 4))
  {
    if DigitLess(c, d) {
      DigitLessSplits(c, d);
    } else if c >= 0 {
      PositiveYearSplits(c, d);
    } else {
      SignIsFirst(c, d);
    }
  }

  lemma {:induction false} PaddedIsDigits(x: nat, w: nat)
    ensures PadLeft(Digits(x), w) != [] && '0' <= PadLeft(Digits(x), w)[0]
  {
    DigitsAreDigits(x);
    if |Digits(x)| < w { ZerosAreZeros(w - |Digits(x)|); }
  }

  lemma {:induction false} DigitsAreDigits(x: nat)
    ensures '0' <= Digits(x)[0]
  {
    if x >= 10 { DigitsAreDigits(x / 10); }
  }

  lemma {:induction false} ZerosAreZeros(k: nat)
    requires k > 0
    ensures Zeros(k)[0] == '0'
  {
    if k > 1 { ZerosAreZeros(k - 1); }
  }

  lemma SignIsFirst(c: int, d: int)
    requires c < 0 <= d
    ensures Splits(Padded(c, 4), Padded(d, 4))
  {
    PaddedIsDigits(d, 4);
    assert Padded(c, 4)[0] == '-';
  }

  lemma EarlierDay(d: int, e: int, r: string, r': string)
    requires d < e && YearsSort(CivilFromDays(d).year, CivilFromDays(e).year)
    ensures LexLess(DatePart(CivilFromDays(d)) + r, DatePart(CivilFromDays(e)) + r')
  {
    var c, c' := CivilFromDays(d), CivilFromDays(e);
    CivilIsInverse(d);
    CivilIsInverse(e);
    CivilIsMonotone(d, e);
    var md, md' := Padded(c.month, 2) + Padded(c.day, 2), Padded(c'.month, 2) + Padded(c'.day, 2);
    Regroup(Padded(c.year, 4), md, r);
    Regroup(Padded(c'.year, 4), md', r');
    if c.year < c'.year {
      YearSplits(c.year, c'.year);
      SplitsDecides(Padded(c.year, 4), Padded(c'.year, 4), md + r, md' + r');
    } else {
      MonthDayOrdered(c, c');
      LexAppend(md, md', r, r');
      LexPrepend(Padded(c.year, 4), md + r, md' + r');
    }
  }

  lemma StampOrdered(d: int, s: int, e: int, t: int)
    requires d < e || (d == e && s < t)
    requires 0 <= s < 86400 && 0 <= t < 86400 && YearsSort(CivilFromDays(d).year, CivilFromDays(e).year)
    ensures LexLess(Stamp(d, s), Stamp(e, t))
  {
    if d < e {
      EarlierDay(d, e, "T" + TimePart(s), "T" + TimePart(t));
    } else {
      TimeIsOrdered(s, t);
      LexPrepend("T", TimePart(s), TimePart(t));
      LexPrepend(DatePart(CivilFromDays(d)), "T" + TimePart(s), "T" + TimePart(t));
    }
  }

  lemma DaySplit(x: int, y: int)
    requires x < y
    ensures x / 86400 < y / 86400 || (x / 86400 == y / 86400 && x % 86400 < y % 86400)
  {
  }

  /** Between years that sort, an earlier time gives a smaller string: the names sort by time, and two different
      seconds never share one. The years -1 to 9999 sort. */
  lemma StringsFollowTime(x: int, y: int)
    requires x < y && YearsSort(YearOf(x), YearOf(y))
    ensures LexLess(BasicDateTTime(x), BasicDateTTime(y))
    ensures BasicDateTTime(x) != BasicDateTTime(y)
  {
    DaySplit(x, y);
    StampOrdered(x / 86400, x % 86400, y / 86400, y % 86400);
    LexIrreflexive(BasicDateTTime(x));
  }

  // And no other stretch of years does.

  /** The times of the years from `a` to `b` give strings in their order. */
  ghost predicate Sorted(a: int, b: int) {
    forall x, y :: x < y && a <= YearOf(x) && YearOf(y) <= b ==> LexLess(BasicDateTTime(x), BasicDateTTime(y))
  }

  /** The first second of a year. */
  function NewYear(y: int): int { 86400 * DayNumber(Date(y, 1, 1)) }

  lemma NewYearIs(y: int)
    ensures NewYear(y) / 86400 == DayNumber(Date(y, 1, 1)) && NewYear(y) % 86400 == 0
    ensures CivilFromDays(NewYear(y) / 86400) == Date(y, 1, 1)
  {
    CivilOfCount(Date(y, 1, 1));
  }

  lemma NewYearsFollow(y: int)
    ensures NewYear(y) < NewYear(y + 1)
  {
    CountIsMonotone(Date(y, 1, 1), Date(y + 1, 1, 1));
  }

  /** What follows the year in the string of its first second. */
  function AfterYear(): string { Padded(1, 2) + Padded(1, 2) + ("T" + TimePart(0)) }

  lemma NewYearString(c: int)
    ensures BasicDateTTime(NewYear(c)) == Padded(c, 4) + AfterYear()
  {
    NewYearIs(c);
    Regroup(Padded(c, 4), Padded(1, 2) + Padded(1, 2), "T" + TimePart(0));
  }

  lemma Regroup(a: string, b: string, c: string)
    ensures a + b + c == a + (b + c)
  {
  }

  /** Two new years in the wrong order. */
  lemma WrongOrder(c: int)
    requires Splits(Padded(c + 1, 4), Padded(c, 4))
    ensures !LexLess(BasicDateTTime(NewYear(c)), BasicDateTTime(NewYear(c + 1)))
    ensures LexLess(BasicDateTTime(NewYear(c + 1)), BasicDateTTime(NewYear(c)))
  {
    NewYearString(c);
    NewYearString(c + 1);
    SplitsDecides(Padded(c + 1, 4), Padded(c, 4), AfterYear(), AfterYear());
  }

  lemma NotSorted(a: int, b: int, c: int)
    requires a <= c < b && Splits(Padded(c + 1, 4), Padded(c, 4))
    ensures !Sorted(a, b)
  {
    WrongOrder(c);
    NewYearsFollow(c);
    NewYearIs(c);
    NewYearIs(c + 1);
    assert YearOf(NewYear(c)) == c && YearOf(NewYear(c + 1)) == c + 1;
  }

  /** Before year -1 a year sorts after the next one, unless that one has a digit less. */
  lemma NegativeYearSplits(c: int)
    requires c <= -2 && !DigitLess(c, c + 1)
    ensures Splits(Padded(c + 1, 4), Padded(c, 4))
  {
    var m := -c;
    Powers();
    if m < 1000 {
      PaddedSplits(m - 1, m, 3);
    } else {
      var k := Decade(m);
      assert m != Pow10(k);
      SameDigitsSplit(m - 1, m, k, 3);
    }
    SplitsAfter('-', PadLeft(Digits(m - 1), 3), PadLeft(Digits(m), 3));
  }

  /** A year of nothing but nines, five or more with the next one, sorts after it. */
  lemma NinesSplit(k: nat)
    requires k >= 4
    ensures Splits(Padded(Pow10(k), 4), Padded(Pow10(k) - 1, 4))
  {
    CarrySplits(k, 4);
  }

  lemma SubYears(a: int, b: int, c: int, d: int)
    requires YearsSort(a, b) && a <= c <= d <= b
    ensures YearsSort(c, d)
  {
  }

  lemma YearsFollow(x: int, y: int)
    requires x < y
    ensures YearOf(x) <= YearOf(y)
  {
    DaySplit(x, y);
    if x / 86400 < y / 86400 { CivilIsMonotone(x / 86400, y / 86400); }
  }

  lemma EarlyYears(a: int, b: int)
    requires a < b && a <= -2 && !YearsSort(a, b)
    ensures !Sorted(a, b)
  {
    if DigitLess(a, a + 1) {
      NotTwiceDigitLess(a);
      NegativeYearSplits(a + 1);
      NotSorted(a, b, a + 1);
    } else {
      NegativeYearSplits(a);
      NotSorted(a, b, a);
    }
  }

  lemma NotTwiceDigitLess(a: int)
    requires DigitLess(a, a + 1)
    ensures a <= -1000 && !DigitLess(a + 1, a + 2)
  {
    var k :| k >= 3 && a + Pow10(k) == 0;
    Powers();
    if k > 3 { Pow10Grows(3, k); }
    forall j | j >= 3 ensures a + 1 + Pow10(j) != 0 {
      if j < k { Pow10Grows(j, k); } else if k < j { Pow10Grows(k, j); }
    }
  }

  lemma LateYears(a: int, b: int)
    requires -1 <= a < b && b >= 10000 && !YearsSort(a, b)
    ensures !Sorted(a, b)
  {
    Powers();
    var k := if a < 10000 then 4 else Decade(a) + 1;
    if a >= 10000 {
      if Decade(a) < 4 { Pow10Grows(Decade(a), 4); }
      assert Decade(a) >= 4 ==> b >= Pow10(k);
    }
    NinesSplit(k);
    NotSorted(a, b, Pow10(k) - 1);
  }

  /** A stretch of years gives strings in order exactly when it is a single year; lies in -1 to 9999; has one
      number of digits, five or more; or is the pair around a change to fewer digits before year 0. */
  lemma SortsExactly(a: int, b: int)
    requires a <= b
    ensures Sorted(a, b) <==> YearsSort(a, b)
  {
    if YearsSort(a, b) {
      forall x, y | x < y && a <= YearOf(x) && YearOf(y) <= b ensures LexLess(BasicDateTTime(x), BasicDateTTime(y)) {
        YearsFollow(x, y);
        SubYears(a, b, YearOf(x), YearOf(y));
        StringsFollowTime(x, y);
      }
    } else if a <= -2 {
      EarlyYears(a, b);
    } else {
      LateYears(a, b);
    }
  }

  lemma NewYearOn(y: int, days: int)
    requires CivilFromDays(days) == Date(y, 1, 1)
    ensures NewYear(y) == 86400 * days
  {
    CivilIsInverse(days);
  }

  lemma YearsOfEra()
    ensures YearOfEra(145307) == 397 && YearOfEra(145672) == 398
  {
  }

  lemma EarlyNewYears()
    ensures CivilFromDays(-720258) == Date(-2, 1, 1) && CivilFromDays(-719893) == Date(-1, 1, 1)
  {
    YearsOfEra();
    assert -720258 + 719468 == -1 * 146097 + 145307 && -719893 + 719468 == -1 * 146097 + 145672;
  }

  /** The first seconds of the years -2 and -1 give strings in the wrong order. */
  lemma NegativeYearsDoNotSort()
    ensures !LexLess(BasicDateTTime(-62230291200), BasicDateTTime(-62198755200))
    ensures YearOf(-62230291200) == -2 && YearOf(-62198755200) == -1
  {
    Powers();
    EarlyNewYears();
    NewYearOn(-2, -720258);
    NewYearOn(-1, -719893);
    PaddedSplits(1, 2, 3);
    SplitsAfter('-', PadLeft(Digits(1), 3), PadLeft(Digits(2), 3));
    WrongOrder(-2);
    NewYearIs(-2);
    NewYearIs(-1);
  }

  const I64_MIN := -0x8000_0000_0000_0000
  const I64_MAX := 0x7fff_ffff_ffff_ffff

  predicate FitsI64(x: int) { I64_MIN <= x <= I64_MAX }

  predicate FitsU32(x: int) { 0 <= x < 0x1_0000_0000 }

  /** No intermediate value of the conversion leaves `i64`, and both casts to `u32` are exact, for every
      `i64` second count. */
  lemma NothingOverflows(unixSecs: int)
    requires FitsI64(unixSecs)
    ensures var z := unixSecs / 86400 + 719468;
            var era, doe := z / 146097, z % 146097;
            var yoe := YearOfEra(doe);
            var doy := doe - EraDays(yoe);
            var mp := (5 * doy + 2) / 153;
            && FitsI64(unixSecs / 86400) && FitsI64(z) && FitsI64(doe - doe / 1460 + doe / 36524)
            && FitsI64(era * 400) && FitsI64(yoe + era * 400) && FitsI64(yoe + era * 400 + 1)
            && FitsI64(365 * yoe + yoe / 4) && FitsI64(5 * doy + 2) && FitsI64(153 * mp + 2)
            && FitsU32(CivilFromDays(unixSecs / 86400).month) && FitsU32(CivilFromDays(unixSecs / 86400).day)
  {
    var z := unixSecs / 86400 + 719468;
    YearOfEraIs(z % 146097);
    CivilIsInverse(unixSecs / 86400);
    EraFits(unixSecs);
  }

  lemma EraFits(unixSecs: int)
    requires FitsI64(unixSecs)
    ensures var z := unixSecs / 86400 + 719468;
            FitsI64(z) && -1000000000 <= z / 146097 <= 1000000000
  {
  }
}
