/**
 * Calendar dates as `datetime.strptime(text, "%d/%m/%Y")` reads them, and
 * `date.weekday()` (Monday is 0, Sunday is 6) in the proleptic Gregorian calendar.
 */
module Dates {
  import opened Wrappers
  import opened Text
  import opened Numerals

  datatype Date = Date(day: nat, month: nat, year: nat)

  predicate IsLeapYear(y: nat)
  {
    y % 4 == 0 && (y % 100 != 0 || y % 400 == 0)
  }

  function DaysInMonth(m: nat, y: nat): (n: nat)
    requires 1 <= m <= 12
    ensures 28 <= n <= 31
  {
    if m == 2 then (if IsLeapYear(y) then 29 else 28)
    else if m == 4 || m == 6 || m == 9 || m == 11 then 30
    else 31
  }

  /** The dates `datetime` can represent: years 1 to 9999, real months and month days. */
  predicate ValidDate(d: Date)
  {
    1 <= d.year <= 9999 && 1 <= d.month <= 12 && 1 <= d.day <= DaysInMonth(d.month, d.year)
  }

  /** Text matched by strptime's `%d` pattern `3[01]|[12]\d|0[1-9]|[1-9]| [1-9]`, as its value. */
  function ParseDay(t: string): (r: Option<nat>)
    ensures r.Some? ==> 1 <= r.value <= 31
  {
    if |t| == 1 && '1' <= t[0] <= '9' then Some(DigitValue(t[0]))
    else if |t| == 2 && t[0] == ' ' && '1' <= t[1] <= '9' then Some(DigitValue(t[1]))
    else if |t| == 2 && t[0] == '0' && '1' <= t[1] <= '9' then Some(DigitValue(t[1]))
    else if |t| == 2 && (t[0] == '1' || t[0] == '2') && IsDigit(t[1]) then Some(10 * DigitValue(t[0]) + DigitValue(t[1]))
    else if |t| == 2 && t[0] == '3' && (t[1] == '0' || t[1] == '1') then Some(30 + DigitValue(t[1]))
    else None
  }

  /** Text matched by strptime's `%m` pattern `1[0-2]|0[1-9]|[1-9]`, as its value. */
  function ParseMonth(t: string): (r: Option<nat>)
    ensures r.Some? ==> 1 <= r.value <= 12
  {
    if |t| == 1 && '1' <= t[0] <= '9' then Some(DigitValue(t[0]))
    else if |t| == 2 && t[0] == '0' && '1' <= t[1] <= '9' then Some(DigitValue(t[1]))
    else if |t| == 2 && t[0] == '1' && '0' <= t[1] <= '2' then Some(10 + DigitValue(t[1]))
    else None
  }

  /** Text matched by strptime's `%Y` pattern (exactly four digits), as its value. */
  function ParseYear(t: string): (r: Option<nat>)
    ensures r.Some? ==> r.value <= 9999
  {
    if |t| == 4 && AllDigits(t) then
      ParseNatBelow(t);
      assert Pow10(4) == 10000;
      Some(ParseNat(t))
    else None
  }

  /**
   * `datetime.strptime(text, "%d/%m/%Y")`: `None` stands for the ValueError raised when the
   * text does not match the whole pattern, or names a day that does not exist.
   */
  function ParseDate(text: string): (r: Option<Date>)
    ensures r.Some? ==> ValidDate(r.value)
    ensures text == "" ==> r == None
  {
    var parts := Split(text, '/');
    assert text == "" ==> parts == [""];
    if |parts| != 3 then None
    else
      match (ParseDay(parts[0]), ParseMonth(parts[1]), ParseYear(parts[2]))
      case (Some(d), Some(m), Some(y)) =>
        if 1 <= y && d <= DaysInMonth(m, y) then Some(Date(d, m, y)) else None
      case _ => None
  }

  /** The canonical `DD/MM/YYYY` text of a date (what `strftime("%d/%m/%Y")` writes). */
  function FormatDate(d: Date): (s: string)
    requires ValidDate(d)
  {
    PadZeros(d.day, 2) + "/" + PadZeros(d.month, 2) + "/" + PadZeros(d.year, 4)
  }

  lemma FormatDateFields(d: Date)
    requires ValidDate(d)
    ensures Split(FormatDate(d), '/') == [PadZeros(d.day, 2), PadZeros(d.month, 2), PadZeros(d.year, 4)]
  {
    var dd, mm, yy := PadZeros(d.day, 2), PadZeros(d.month, 2), PadZeros(d.year, 4);
    NoSlash(dd); NoSlash(mm); NoSlash(yy);
    assert Join([dd, mm, yy], '/') == dd + "/" + mm + "/" + yy by {
      assert [dd, mm, yy][1..] == [mm, yy];
      assert [mm, yy][1..] == [yy];
      assert Join([yy], '/') == yy;
      assert Join([mm, yy], '/') == mm + "/" + yy;
    }
    SplitJoin([dd, mm, yy], '/');
  }

  /** Every valid date, written as `DD/MM/YYYY`, parses back to itself. */
  lemma FormatDateRoundTrip(d: Date)
    requires ValidDate(d)
    ensures ParseDate(FormatDate(d)) == Some(d)
  {
    FormatDateFields(d);
    DayRoundTrip(d.day);
    MonthRoundTrip(d.month);
    FourDigits(d.year);
    ParseDateFromFields(FormatDate(d), PadZeros(d.day, 2), PadZeros(d.month, 2), PadZeros(d.year, 4), d);
  }

  /** A date whose three fields parse, and which exists, is what the text parses to. */
  lemma ParseDateFromFields(text: string, dd: string, mm: string, yy: string, d: Date)
    requires Split(text, '/') == [dd, mm, yy]
    requires ParseDay(dd) == Some(d.day) && ParseMonth(mm) == Some(d.month) && ParseYear(yy) == Some(d.year)
    requires ValidDate(d)
    ensures ParseDate(text) == Some(d)
  {
    var parts := Split(text, '/');
    assert parts[0] == dd && parts[1] == mm && parts[2] == yy;
  }

  lemma DayRoundTrip(n: nat)
    requires 1 <= n <= 31
    ensures ParseDay(PadZeros(n, 2)) == Some(n)
  {
    TwoDigits(n);
  }

  lemma MonthRoundTrip(n: nat)
    requires 1 <= n <= 12
    ensures ParseMonth(PadZeros(n, 2)) == Some(n)
  {
    TwoDigits(n);
  }

  lemma NoSlash(s: string)
    requires AllDigits(s)
    ensures '/' !in s
  {
    forall i | 0 <= i < |s| ensures s[i] != '/' { assert IsDigit(s[i]); }
  }

  lemma TwoDigits(n: nat)
    requires 1 <= n <= 31
    ensures |PadZeros(n, 2)| == 2
    ensures PadZeros(n, 2) == [DigitChar(n / 10), DigitChar(n % 10)]
  {
    if n >= 10 {
      assert NatToDigits(n / 10) == [DigitChar(n / 10)];
    }
  }

  lemma FourDigits(n: nat)
    requires 1 <= n <= 9999
    ensures ParseYear(PadZeros(n, 4)) == Some(n)
  {
    PadZerosValue(n, 4);
    assert |NatToDigits(n)| <= 4 by { DigitCount(n); }
  }

  lemma {:induction false} DigitCount(n: nat)
    ensures n < 10000 ==> |NatToDigits(n)| <= 4
    ensures n < 1000 ==> |NatToDigits(n)| <= 3
    ensures n < 100 ==> |NatToDigits(n)| <= 2
  {
    if n >= 10 { DigitCount(n / 10); }
  }

  // ---------------------------------------------------------------------------
  // Day of the week

  /** Days in the years before `y` (`_days_before_year` of CPython's datetime module). */
  function DaysBeforeYear(y: nat): nat
    requires y >= 1
  {
    var p := y - 1;
    p * 365 + p / 4 - p / 100 + p / 400
  }

  /** Days in the months of year `y` before month `m` (CPython's `_days_before_month`: a table plus the leap day). */
  function DaysBeforeMonth(m: nat, y: nat): nat
    requires 1 <= m <= 12
  {
    [0, 31, 59, 90, 120, 151, 181, 212, 243, 273, 304, 334][m - 1] + (if m > 2 && IsLeapYear(y) then 1 else 0)
  }

  /** The month table agrees with the month lengths. */
  lemma DaysBeforeMonthStep(m: nat, y: nat)
    requires 1 <= m < 12
    ensures DaysBeforeMonth(m + 1, y) == DaysBeforeMonth(m, y) + DaysInMonth(m, y)
  {
  }

  /** `date.toordinal()`: 1 January of year 1 is day 1. */
  function Ordinal(d: Date): nat
    requires ValidDate(d)
  {
    DaysBeforeYear(d.year) + DaysBeforeMonth(d.month, d.year) + d.day
  }

  /** `date.weekday()`: Monday is 0 and Sunday is 6. */
  function Weekday(d: Date): (w: nat)
    requires ValidDate(d)
    ensures w < 7
  {
    (Ordinal(d) + 6) % 7
  }

  /** `weekday() >= 5`: Saturday or Sunday. */
  predicate IsWeekend(d: Date)
    requires ValidDate(d)
  {
    Weekday(d) >= 5
  }

  /** The calendar day after `d` (an independent reference for the weekday arithmetic). */
  function NextDay(d: Date): (n: Date)
    requires ValidDate(d) && (d.year < 9999 || d.month < 12 || d.day < 31)
    ensures ValidDate(n)
  {
    if d.day < DaysInMonth(d.month, d.year) then Date(d.day + 1, d.month, d.year)
    else if d.month < 12 then Date(1, d.month + 1, d.year)
    else Date(1, 1, d.year + 1)
  }

  lemma DivisorChain(y: nat)
    ensures y % 400 == 0 ==> y % 100 == 0
    ensures y % 100 == 0 ==> y % 4 == 0
  {
    if y % 400 == 0 {
      assert y == 100 * (4 * (y / 400));
    }
    if y % 100 == 0 {
      assert y == 4 * (25 * (y / 100));
    }
  }

  /** A year has 366 days when it is a leap year and 365 otherwise. */
  lemma YearLength(y: nat)
    requires y >= 1
    ensures DaysBeforeYear(y + 1) == DaysBeforeYear(y) + (if IsLeapYear(y) then 366 else 365)
  {
    var p := y - 1;
    assert (p + 1) / 4 == p / 4 + (if y % 4 == 0 then 1 else 0);
    assert (p + 1) / 100 == p / 100 + (if y % 100 == 0 then 1 else 0);
    assert (p + 1) / 400 == p / 400 + (if y % 400 == 0 then 1 else 0);
    DivisorChain(y);
  }

  /** Consecutive days have consecutive ordinals. */
  lemma NextDayOrdinal(d: Date)
    requires ValidDate(d) && (d.year < 9999 || d.month < 12 || d.day < 31)
    ensures Ordinal(NextDay(d)) == Ordinal(d) + 1
  {
    if d.day == DaysInMonth(d.month, d.year) {
      if d.month == 12 {
        YearLength(d.year);
        assert DaysBeforeMonth(12, d.year) + 31 == if IsLeapYear(d.year) then 366 else 365;
      } else {
        DaysBeforeMonthStep(d.month, d.year);
      }
    }
  }

  lemma ModSevenSuccessor(x: nat)
    ensures (x + 1) % 7 == (x % 7 + 1) % 7
  {
  }

  /** The weekday advances by one (mod 7) from each day to the next. */
  lemma NextDayWeekday(d: Date)
    requires ValidDate(d) && (d.year < 9999 || d.month < 12 || d.day < 31)
    ensures Weekday(NextDay(d)) == (Weekday(d) + 1) % 7
  {
    NextDayOrdinal(d);
    ModSevenSuccessor(Ordinal(d) + 6);
  }

  /** 1 January of year 1 was a Monday. */
  lemma FirstDayMonday()
    ensures Weekday(Date(1, 1, 1)) == 0
  {
  }

  lemma SaturdayFields()
    ensures Split("18/10/2025", '/') == ["18", "10", "2025"]
  {
    var parts := ["18", "10", "2025"];
    assert Join(parts, '/') == "18/10/2025" by {
      assert parts[1..] == ["10", "2025"];
      assert Join(["2025"], '/') == "2025";
      assert Join(["10", "2025"], '/') == "10/2025";
    }
    SplitJoin(parts, '/');
  }

  lemma YearExample()
    ensures ParseYear("2025") == Some(2025)
  {
    assert ParseNat("2025") == 2025 by {
      assert "2025"[..3] == "202" && "202"[..2] == "20" && "20"[..1] == "2" && "2"[..0] == "";
    }
  }

  /** "18/10/2025" reads as 18 October 2025 ... */
  lemma SaturdayDayMonth()
    ensures ParseDay("18") == Some(18)
    ensures ParseMonth("10") == Some(10)
  {
    assert DigitValue('1') == 1 && DigitValue('8') == 8 && DigitValue('0') == 0;
  }

  lemma SaturdayParses()
    ensures ParseDate("18/10/2025") == Some(Date(18, 10, 2025))
  {
    SaturdayFields();
    YearExample();
    SaturdayDayMonth();
    ParseDateFromFields("18/10/2025", "18", "10", "2025", Date(18, 10, 2025));
  }

  /** ... which is a Saturday. */
  lemma SaturdayIsWeekend()
    ensures ValidDate(Date(18, 10, 2025)) && Weekday(Date(18, 10, 2025)) == 5
  {
    assert DaysBeforeYear(2025) == 739251;
  }
}
