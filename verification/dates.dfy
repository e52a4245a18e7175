/**
 * Calendar dates as Python's datetime.date handles them for the scheduler:
 * strptime(s, '%Y-%m-%d'), strftime('%Y-%m-%d'), date comparison, toordinal()
 * and `date + timedelta(days=n)` (proleptic Gregorian calendar, years 1 to 9999).
 */
module Dates {
  import opened Text

  datatype Date = Date(year: int, month: int, day: int)

  /** datetime.MINYEAR and datetime.MAXYEAR */
  const MinYear := 1
  const MaxYear := 9999

  /** The last date Python can represent. */
  const MaxDate := Date(MaxYear, 12, 31)

  predicate IsLeap(y: int)
  {
    y % 4 == 0 && (y % 100 != 0 || y % 400 == 0)
  }

  function DaysInMonth(y: int, m: int): (n: int)
    requires 1 <= m <= 12
    ensures 28 <= n <= 31
    ensures m == 2 ==> (n == 29 <==> IsLeap(y))
  {
    if m == 2 then (if IsLeap(y) then 29 else 28)
    else if m == 4 || m == 6 || m == 9 || m == 11 then 30
    else 31
  }

  /** The dates datetime.date accepts. */
  predicate Valid(d: Date)
  {
    MinYear <= d.year <= MaxYear && 1 <= d.month <= 12 && 1 <= d.day <= DaysInMonth(d.year, d.month)
  }

  /** `a < b` on dates: (year, month, day) compared lexicographically. */
  predicate Before(a: Date, b: Date)
  {
    a.year < b.year || (a.year == b.year && (a.month < b.month || (a.month == b.month && a.day < b.day)))
  }

  // ---------------------------------------------------------------
  //  strptime(s, '%Y-%m-%d')
  // ---------------------------------------------------------------

  predicate AllDigits(s: string)
  {
    forall i :: 0 <= i < |s| ==> IsDigit(s[i])
  }

  /** The %m group of strptime's pattern, 1[0-2] | 0[1-9] | [1-9], matching the whole field. */
  function MonthField(t: string): (r: Option<int>)
    ensures r.Some? ==> 1 <= r.value <= 12
  {
    if |t| == 2 && t[0] == '1' && '0' <= t[1] <= '2' then Some(10 + DigitValue(t[1]))
    else if |t| == 2 && t[0] == '0' && '1' <= t[1] <= '9' then Some(DigitValue(t[1]))
    else if |t| == 1 && '1' <= t[0] <= '9' then Some(DigitValue(t[0]))
    else None
  }

  /** The %d group, 3[01] | [12]\d | 0[1-9] | [1-9] | ' '[1-9], matching the rest of the string
      (the first alternative that matches is taken and must reach the end). */
  function DayField(t: string): (r: Option<int>)
    ensures r.Some? ==> 1 <= r.value <= 31
  {
    if |t| == 2 && t[0] == '3' && '0' <= t[1] <= '1' then Some(30 + DigitValue(t[1]))
    else if |t| == 2 && '1' <= t[0] <= '2' && IsDigit(t[1]) then Some(10 * DigitValue(t[0]) + DigitValue(t[1]))
    else if |t| == 2 && t[0] == '0' && '1' <= t[1] <= '9' then Some(DigitValue(t[1]))
    else if |t| == 1 && '1' <= t[0] <= '9' then Some(DigitValue(t[0]))
    else if |t| == 2 && t[0] == ' ' && '1' <= t[1] <= '9' then Some(DigitValue(t[1]))
    else None
  }

  /** datetime.datetime.strptime(s, '%Y-%m-%d').date(), with None for the ValueError it raises:
      exactly four year digits, '-', the month field, '-', the day field, nothing after it,
      and a date that exists. */
  function ParseDate(s: string): (r: Option<Date>)
    ensures r.Some? ==> Valid(r.value)
  {
    if |s| < 7 || !AllDigits(s[..4]) || s[4] != '-' then None
    else
      var monthEnd := if s[6] == '-' then 6 else 7;
      if monthEnd >= |s| || s[monthEnd] != '-' then None
      else
        match (MonthField(s[5..monthEnd]), DayField(s[monthEnd + 1..]))
        case (Some(m), Some(d)) =>
          var date := Date(DecimalValue(s[..4]), m, d);
          if Valid(date) then Some(date) else None
        case _ => None
  }

  // ---------------------------------------------------------------
  //  strftime('%Y-%m-%d') and strftime('%Y-%m-%d %H:%M:%S')
  // ---------------------------------------------------------------

  function Pow10(k: nat): (p: nat)
    ensures p >= 1
  {
    if k == 0 then 1 else 10 * Pow10(k - 1)
  }

  /** n written with exactly `width` digits, zero-padded on the left. */
  function Digits(n: nat, width: nat): (r: string)
    ensures |r| == width && AllDigits(r)
  {
    if width == 0 then []
    else
      var r := Digits(n / 10, width - 1) + [DigitChar(n % 10)];
      assert forall i :: 0 <= i < width - 1 ==> r[i] == Digits(n / 10, width - 1)[i];
      r
  }

  /** Zero-padded digits read back as the number they were made from. */
  lemma {:induction false} DigitsValue(n: nat, width: nat)
    requires n < Pow10(width)
    ensures DecimalValue(Digits(n, width)) == n
  {
    if width > 0 {
      var r := Digits(n, width);
      assert r[..|r| - 1] == Digits(n / 10, width - 1);
      assert n / 10 < Pow10(width - 1);
      DigitsValue(n / 10, width - 1);
    }
  }

  function FormatDate(d: Date): (r: string)
    requires Valid(d)
    ensures |r| == 10 && r[4] == '-' && r[7] == '-'
  {
    Digits(d.year, 4) + "-" + Digits(d.month, 2) + "-" + Digits(d.day, 2)
  }

  lemma MonthFieldOfDigits(m: int)
    requires 1 <= m <= 12
    ensures MonthField(Digits(m, 2)) == Some(m)
  {
    assert Digits(m / 10, 1) == Digits(m / 10 / 10, 0) + [DigitChar(m / 10 % 10)];
    assert Digits(m, 2) == [DigitChar(m / 10 % 10), DigitChar(m % 10)];
  }

  lemma DayFieldOfDigits(d: int)
    requires 1 <= d <= 31
    ensures DayField(Digits(d, 2)) == Some(d)
  {
    var hi, lo := d / 10, d % 10;
    assert hi / 10 == 0 && hi % 10 == hi;
    assert Digits(hi, 1) == Digits(0, 0) + [DigitChar(hi)];
    var t := Digits(d, 2);
    assert t == [DigitChar(hi), DigitChar(lo)];
    assert DigitValue(t[0]) == hi && DigitValue(t[1]) == lo && d == 10 * hi + lo;
    if hi == 3 {
      assert t[0] == '3' && '0' <= t[1] <= '1';
    } else if hi == 0 {
      assert t[0] == '0' && '1' <= t[1] <= '9';
    } else {
      assert '1' <= t[0] <= '2';
    }
  }

  /** What strftime writes, strptime reads back: parse(format(d)) == d. */
  lemma ParseFormatDate(d: Date)
    requires Valid(d)
    ensures ParseDate(FormatDate(d)) == Some(d)
  {
    var s := FormatDate(d);
    assert s[..4] == Digits(d.year, 4);
    DigitsValue(d.year, 4);
    assert s[6] == Digits(d.month, 2)[1];
    assert s[5..7] == Digits(d.month, 2);
    assert s[8..] == Digits(d.day, 2);
    MonthFieldOfDigits(d.month);
    DayFieldOfDigits(d.day);
  }

  /** A moment as datetime.datetime.now() reports it, to the second. */
  datatype Instant = Instant(date: Date, hour: int, minute: int, second: int)

  predicate ValidInstant(t: Instant)
  {
    Valid(t.date) && 0 <= t.hour < 24 && 0 <= t.minute < 60 && 0 <= t.second < 60
  }

  /** strftime('%Y-%m-%d %H:%M:%S') */
  function FormatTimestamp(t: Instant): (r: string)
    requires ValidInstant(t)
    ensures |r| == 19 && r[..10] == FormatDate(t.date)
  {
    FormatDate(t.date) + " " + Digits(t.hour, 2) + ":" + Digits(t.minute, 2) + ":" + Digits(t.second, 2)
  }

  // ---------------------------------------------------------------
  //  day numbers: date.toordinal()
  // ---------------------------------------------------------------

  function DaysInYear(y: int): int
  {
    if IsLeap(y) then 366 else 365
  }

  /** Days in the years 1 .. y-1. */
  function DaysBeforeYear(y: int): nat
    requires y >= 1
  {
    if y == 1 then 0 else DaysBeforeYear(y - 1) + DaysInYear(y - 1)
  }

  /** Days in the months 1 .. m-1 of year y. */
  function DaysBeforeMonth(y: int, m: int): nat
    requires 1 <= m <= 13
  {
    if m == 1 then 0 else DaysBeforeMonth(y, m - 1) + DaysInMonth(y, m - 1)
  }

  /** date.toordinal(): 0001-01-01 is day 1. */
  function Ordinal(d: Date): int
    requires Valid(d)
  {
    DaysBeforeYear(d.year) + DaysBeforeMonth(d.year, d.month) + d.day
  }

  /** The twelve months add up to the year. */
  lemma MonthsMakeYear(y: int)
    ensures DaysBeforeMonth(y, 13) == DaysInYear(y)
  {
    assert DaysBeforeMonth(y, 2) == 31;
    assert DaysBeforeMonth(y, 3) == 31 + DaysInMonth(y, 2);
    assert DaysBeforeMonth(y, 4) == 62 + DaysInMonth(y, 2);
    assert DaysBeforeMonth(y, 5) == 92 + DaysInMonth(y, 2);
    assert DaysBeforeMonth(y, 6) == 123 + DaysInMonth(y, 2);
    assert DaysBeforeMonth(y, 7) == 153 + DaysInMonth(y, 2);
    assert DaysBeforeMonth(y, 8) == 184 + DaysInMonth(y, 2);
    assert DaysBeforeMonth(y, 9) == 215 + DaysInMonth(y, 2);
    assert DaysBeforeMonth(y, 10) == 245 + DaysInMonth(y, 2);
    assert DaysBeforeMonth(y, 11) == 276 + DaysInMonth(y, 2);
    assert DaysBeforeMonth(y, 12) == 306 + DaysInMonth(y, 2);
  }

  lemma {:induction false} MonthsMonotone(y: int, m1: int, m2: int)
    requires 1 <= m1 < m2 <= 13
    ensures DaysBeforeMonth(y, m1) + DaysInMonth(y, m1) <= DaysBeforeMonth(y, m2)
    decreases m2
  {
    if m1 < m2 - 1 {
      MonthsMonotone(y, m1, m2 - 1);
    }
  }

  lemma {:induction false} YearsMonotone(y1: int, y2: int)
    requires 1 <= y1 < y2
    ensures DaysBeforeYear(y1) + DaysInYear(y1) <= DaysBeforeYear(y2)
    decreases y2
  {
    if y1 < y2 - 1 {
      YearsMonotone(y1, y2 - 1);
    }
  }

  /** A valid date's day lies within its year. */
  lemma OrdinalWithinYear(d: Date)
    requires Valid(d)
    ensures DaysBeforeYear(d.year) < Ordinal(d) <= DaysBeforeYear(d.year) + DaysInYear(d.year)
  {
    MonthsMakeYear(d.year);
    if d.month < 12 {
      MonthsMonotone(d.year, d.month, 13);
    }
  }

  /** Comparing dates is comparing their day numbers. */
  lemma {:induction false} BeforeIsOrdinalLess(a: Date, b: Date)
    requires Valid(a) && Valid(b)
    ensures Before(a, b) <==> Ordinal(a) < Ordinal(b)
    ensures a == b <==> Ordinal(a) == Ordinal(b)
  {
    if a.year != b.year {
      var (x, y) := if a.year < b.year then (a, b) else (b, a);
      OrdinalWithinYear(x);
      OrdinalWithinYear(y);
      YearsMonotone(x.year, y.year);
    } else if a.month != b.month {
      var (x, y) := if a.month < b.month then (a, b) else (b, a);
      MonthsMonotone(x.year, x.month, y.month);
    }
  }

  /** The next calendar day (possibly past MaxDate). */
  function NextDay(d: Date): Date
    requires Valid(d)
  {
    if d.day < DaysInMonth(d.year, d.month) then Date(d.year, d.month, d.day + 1)
    else if d.month < 12 then Date(d.year, d.month + 1, 1)
    else Date(d.year + 1, 1, 1)
  }

  lemma NextDayOrdinal(d: Date)
    requires Valid(d) && d != MaxDate
    ensures Valid(NextDay(d)) && Ordinal(NextDay(d)) == Ordinal(d) + 1
  {
    if d.day == DaysInMonth(d.year, d.month) && d.month == 12 {
      MonthsMakeYear(d.year);
    }
  }

  lemma OrdinalAtMost(d: Date)
    requires Valid(d)
    ensures Ordinal(d) <= Ordinal(MaxDate)
  {
    BeforeIsOrdinalLess(d, MaxDate);
  }

  /** `d + timedelta(days=n)`, or None for the OverflowError past 9999-12-31. The result is the
      valid date exactly n days later. */
  function AddDays(d: Date, n: nat): (r: Option<Date>)
    requires Valid(d)
    ensures r.Some? ==> Valid(r.value) && Ordinal(r.value) == Ordinal(d) + n
    ensures r.None? <==> Ordinal(d) + n > Ordinal(MaxDate)
    decreases n
  {
    if n == 0 then
      OrdinalAtMost(d);
      Some(d)
    else if d == MaxDate then None
    else
      NextDayOrdinal(d);
      AddDays(NextDay(d), n - 1)
  }

  /** There is only one date n days later: the result of AddDays is determined by its day number. */
  lemma AddDaysUnique(d: Date, n: nat, e: Date)
    requires Valid(d) && Valid(e) && Ordinal(e) == Ordinal(d) + n
    ensures AddDays(d, n) == Some(e)
  {
    OrdinalAtMost(e);
    BeforeIsOrdinalLess(AddDays(d, n).value, e);
  }

  /** Adding days in two steps is adding them at once. */
  lemma AddDaysTwice(d: Date, m: nat, n: nat)
    requires Valid(d) && AddDays(d, m).Some?
    ensures AddDays(AddDays(d, m).value, n) == AddDays(d, m + n)
  {
    var e := AddDays(d, m).value;
    var r := AddDays(e, n);
    var total := Ordinal(d) + m + n;
    if r.Some? {
      assert Ordinal(r.value) == total;
      AddDaysUnique(d, m + n, r.value);
    } else {
      assert total > Ordinal(MaxDate);
    }
  }

  // Examples: month ends, leap years and the year boundary.
  lemma AddWeekLeapFebruary()
    ensures AddDays(Date(2024, 2, 26), 7) == Some(Date(2024, 3, 4))
  {
    AddDaysUnique(Date(2024, 2, 26), 7, Date(2024, 3, 4));
  }

  lemma AddWeekCommonFebruary()
    ensures AddDays(Date(2023, 2, 26), 7) == Some(Date(2023, 3, 5))
  {
    AddDaysUnique(Date(2023, 2, 26), 7, Date(2023, 3, 5));
  }

  lemma AddWeekNewYear()
    ensures AddDays(Date(2024, 12, 28), 7) == Some(Date(2025, 1, 4))
  {
    MonthsMakeYear(2024);
    AddDaysUnique(Date(2024, 12, 28), 7, Date(2025, 1, 4));
  }

  lemma AddWeekOverflow()
    ensures AddDays(Date(9999, 12, 25), 7) == None
  {
  }

  lemma YearDigits2024()
    ensures DecimalValue("2024") == 2024 && DecimalValue("2023") == 2023
  {
    assert "2024"[..3] == "202" && "2023"[..3] == "202";
    assert "202"[..2] == "20";
    assert "20"[..1] == "2";
  }

  // Examples of the lenient fields strptime accepts, and of what it refuses.
  lemma ParseDateSingleDigitFields()
    ensures ParseDate("2024-1-5") == Some(Date(2024, 1, 5))
  {
    var s := "2024-1-5";
    assert s[..4] == "2024" && AllDigits(s[..4]);
    YearDigits2024();
    assert s[5..6] == "1" && s[7..] == "5";
  }

  lemma ParseDateSpacePaddedDay()
    ensures ParseDate("2024-01- 5") == Some(Date(2024, 1, 5))
  {
    var s := "2024-01- 5";
    assert s[..4] == "2024";
    assert AllDigits(s[..4]) by {
      assert forall i :: 0 <= i < 4 ==> s[i] == "2024"[i];
    }
    YearDigits2024();
    assert s[5..7] == "01" && s[8..] == " 5";
  }

  lemma ParseDateNoLeapDay()
    ensures ParseDate("2023-02-29") == None
    ensures ParseDate("2024-02-29") == Some(Date(2024, 2, 29))
  {
    var s, t := "2023-02-29", "2024-02-29";
    assert s[..4] == "2023";
    assert AllDigits(s[..4]) by {
      assert forall i :: 0 <= i < 4 ==> s[i] == "2023"[i];
    }
    assert t[..4] == "2024";
    assert AllDigits(t[..4]) by {
      assert forall i :: 0 <= i < 4 ==> t[i] == "2024"[i];
    }
    YearDigits2024();
    assert s[5..7] == "02" && s[8..] == "29";
    assert t[5..7] == "02" && t[8..] == "29";
  }

  lemma ParseDateTrailingText()
    ensures ParseDate("2024-01-01 ") == None
  {
    var s := "2024-01-01 ";
    assert s[5..7] == "01" && s[8..] == "01 ";
  }
}
