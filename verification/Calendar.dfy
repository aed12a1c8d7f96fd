/** Gregorian dates, the closed-form day number, and adding and subtracting days. */
module Calendar {
  import opened Octets

  datatype Date = Date(year: int, month: int, day: int)

  predicate Leap(y: int) {
    y % 4 == 0 && (y % 100 != 0 || y % 400 == 0)
  }

  function MonthDays(y: int, m: int): int
    requires 1 <= m <= 12
  {
    if m == 2 then (if Leap(y) then 29 else 28)
    else if m == 4 || m == 6 || m == 9 || m == 11 then 30 else 31
  }

  predicate IsDate(d: Date) {
    d.year >= 1 && 1 <= d.month <= 12 && 1 <= d.day <= MonthDays(d.year, d.month)
  }

  /** The calendar's next day: the reference the formulas are measured against. */
  function Next(d: Date): (n: Date)
    requires IsDate(d)
    ensures IsDate(n)
  {
    if d.day < MonthDays(d.year, d.month) then d.(day := d.day + 1)
    else if d.month < 12 then Date(d.year, d.month + 1, 1)
    else Date(d.year + 1, 1, 1)
  }

  function Advance(d: Date, n: nat): (r: Date)
    requires IsDate(d)
    ensures IsDate(r)
  {
    if n == 0 then d else Next(Advance(d, n - 1))
  }

  // ----- The closed form

  /** Days of the years that start in March before year ny. */
  function YearDays(ny: int): int {
    365 * ny + ny / 4 - ny / 100 + ny / 400
  }

  /** Days of the months that start in March before month nm. */
  function MarchDays(nm: int): int {
    (nm * 306 + 5) / 10
  }

  /** The day number inside MyTime::getDayDiff. */
  function DayNumber(d: Date): int {
    var nm := (d.month + 9) % 12;
    YearDays(d.year - nm / 10) + MarchDays(nm) + (d.day - 1)
  }

  function GetDayDiff(a: Date, b: Date): nat {
    var diff := DayNumber(b) - DayNumber(a);
    if diff >= 0 then diff else -diff
  }

  function MarchMonth(m: int): int {
    if m <= 2 then m + 9 else m - 3
  }

  function MarchYear(d: Date): int {
    if d.month <= 2 then d.year - 1 else d.year
  }

  lemma DayNumberParts(d: Date)
    requires 1 <= d.month <= 12
    ensures DayNumber(d) == YearDays(MarchYear(d)) + MarchDays(MarchMonth(d.month)) + (d.day - 1)
  {
  }

  lemma MonthLengths(y: int, m: int)
    requires 1 <= m <= 12 && m != 2
    ensures MarchDays(MarchMonth(m) + 1) == MarchDays(MarchMonth(m)) + MonthDays(y, m)
  {
  }

  lemma QuotientStep(y: nat, k: nat)
    requires y >= 1 && k > 0
    ensures y / k == (y - 1) / k + (if y % k == 0 then 1 else 0)
  {
    var q, r := y / k, y % k;
    if r == 0 {
      assert y - 1 == (q - 1) * k + (k - 1);
      DivModUnique(y - 1, k, q - 1, k - 1);
    } else {
      DivModUnique(y - 1, k, q, r - 1);
    }
  }

  lemma CenturyRules(y: nat)
    ensures y % 400 == 0 ==> y % 100 == 0
    ensures y % 100 == 0 ==> y % 4 == 0
  {
    assert y % 400 == 0 ==> y == 100 * (4 * (y / 400));
    assert y % 100 == 0 ==> y == 4 * (25 * (y / 100));
  }

  lemma LeapYears(y: int)
    requires y >= 1
    ensures YearDays(y) == YearDays(y - 1) + 365 + (if Leap(y) then 1 else 0)
  {
    QuotientStep(y, 4);
    QuotientStep(y, 100);
    QuotientStep(y, 400);
    CenturyRules(y);
  }

  /** Month ends, leap days and centuries included, the number grows by one from day to day. */
  lemma NextDayNumber(d: Date)
    requires IsDate(d)
    ensures DayNumber(Next(d)) == DayNumber(d) + 1
  {
    hide DayNumber, YearDays, MarchDays, Leap;
    DayNumberParts(d);
    DayNumberParts(Next(d));
    if d.day == MonthDays(d.year, d.month) {
      if d.month == 2 {
        LeapYears(d.year);
        WholeYear();
      } else {
        MonthLengths(d.year, d.month);
      }
    }
  }

  lemma WholeYear()
    ensures MarchDays(MarchMonth(2)) == 337 && MarchDays(MarchMonth(3)) == 0
  {
  }

  /** n calendar steps are n in the day number, so getDayDiff counts the steps between dates. */
  lemma {:induction false} AdvanceDayNumber(d: Date, n: nat)
    requires IsDate(d)
    ensures DayNumber(Advance(d, n)) == DayNumber(d) + n
    ensures GetDayDiff(d, Advance(d, n)) == n && GetDayDiff(Advance(d, n), d) == n
  {
    hide DayNumber, Next;
    if n > 0 {
      AdvanceDayNumber(d, n - 1);
      NextDayNumber(Advance(d, n - 1));
    }
  }

  // ----- The Gregorian rules in numbers

  /** A year has 366 days when 4 divides it and not 100, or when 400 does, and otherwise 365. */
  lemma YearLength(y: int)
    requires y >= 1
    ensures DayNumber(Date(y + 1, 1, 1)) - DayNumber(Date(y, 1, 1)) ==
            if y % 400 == 0 || (y % 4 == 0 && y % 100 != 0) then 366 else 365
  {
    hide DayNumber, YearDays, MarchDays;
    DayNumberParts(Date(y + 1, 1, 1));
    DayNumberParts(Date(y, 1, 1));
    LeapYears(y);
    CenturyRules(y);
  }

  /** The twelve months, one after the other. */
  lemma MonthTable(y: int)
    requires y >= 1
    ensures var leap := if y % 400 == 0 || (y % 4 == 0 && y % 100 != 0) then 1 else 0;
            && MonthDays(y, 1) == 31 && MonthDays(y, 2) == 28 + leap && MonthDays(y, 3) == 31
            && MonthDays(y, 4) == 30 && MonthDays(y, 5) == 31 && MonthDays(y, 6) == 30
            && MonthDays(y, 7) == 31 && MonthDays(y, 8) == 31 && MonthDays(y, 9) == 30
            && MonthDays(y, 10) == 31 && MonthDays(y, 11) == 30 && MonthDays(y, 12) == 31
  {
    CenturyRules(y);
  }

  /** Four centuries are 146097 days, whatever the date. */
  lemma FourCenturies(d: Date)
    requires IsDate(d)
    ensures DayNumber(Date(d.year + 400, d.month, d.day)) == DayNumber(d) + 146097
  {
    hide DayNumber, MarchDays, YearDays;
    DayNumberParts(d);
    DayNumberParts(Date(d.year + 400, d.month, d.day));
    YearDaysPeriod(MarchYear(d));
  }

  lemma YearDaysPeriod(y: nat)
    ensures YearDays(y + 400) == YearDays(y) + 146097
  {
    QuotientPlus(y, 4, 100);
    QuotientPlus(y, 100, 4);
    QuotientPlus(y, 400, 1);
  }

  lemma QuotientPlus(y: nat, k: nat, m: nat)
    requires k > 0
    ensures (y + k * m) / k == y / k + m
  {
    assert y + k * m == (y / k + m) * k + y % k;
    DivModUnique(y + k * m, k, y / k + m, y % k);
  }

  /** An order-preserving code that leaves room for 31 days in every month. */
  function Code(d: Date): int {
    372 * d.year + 31 * d.month + d.day
  }

  lemma CodeOfNext(a: Date, b: Date)
    requires IsDate(a) && IsDate(b) && Code(a) < Code(b)
    ensures Code(a) < Code(Next(a)) <= Code(b)
  {
    assert a.year <= b.year;
    assert a.year == b.year ==> a.month <= b.month;
  }

  lemma CodeInjective(a: Date, b: Date)
    requires IsDate(a) && IsDate(b) && Code(a) == Code(b)
    ensures a == b
  {
    assert a.year == b.year;
    assert a.month == b.month;
  }

  /** Of any two dates, the later is reached from the earlier day by day. */
  lemma {:induction false} StepsBetween(a: Date, b: Date) returns (n: nat)
    requires IsDate(a) && IsDate(b) && Code(a) <= Code(b)
    ensures Advance(a, n) == b
    decreases Code(b) - Code(a)
  {
    if Code(a) == Code(b) {
      CodeInjective(a, b);
      n := 0;
    } else {
      CodeOfNext(a, b);
      n := StepsBetween(Next(a), b);
      AdvanceNext(a, n);
      n := n + 1;
    }
  }

  lemma {:induction false} AdvanceNext(d: Date, n: nat)
    requires IsDate(d)
    ensures Advance(Next(d), n) == Advance(d, n + 1)
  {
    hide Next, IsDate;
    if n == 0 {
      assert Advance(d, 1) == Next(Advance(d, 0));
    } else {
      AdvanceNext(d, n - 1);
    }
  }

  /** No two dates share a day number. */
  lemma DayNumberInjective(a: Date, b: Date)
    requires IsDate(a) && IsDate(b) && DayNumber(a) == DayNumber(b)
    ensures a == b
  {
    if Code(a) <= Code(b) {
      var n := StepsBetween(a, b);
      AdvanceDayNumber(a, n);
    } else {
      var n := StepsBetween(b, a);
      AdvanceDayNumber(b, n);
    }
  }

  // ----- dateAdd and dateDec over the calendar

  /** Adding days to a date through seconds since the epoch. */
  function DateAdd(start: Date, days: nat): (d: Date)
    requires IsDate(start)
    ensures IsDate(d)
  {
    Advance(start, days)
  }

  /** The day a broken-down date stands for: months and days past their range carry over. */
  function DaysOf(d: Date): int {
    DayNumber(Date(d.year + (d.month - 1) / 12, (d.month - 1) % 12 + 1, 1)) + (d.day - 1)
  }

  /** Days from start to end; 0 when the end is the earlier one. */
  function DateDec(start: Date, end: Date): nat {
    if DaysOf(end) < DaysOf(start) then 0 else DaysOf(end) - DaysOf(start)
  }

  lemma DaysOfDate(d: Date)
    requires 1 <= d.month <= 12
    ensures DaysOf(d) == DayNumber(d)
  {
    assert (d.month - 1) / 12 == 0;
  }

  /** dateDec undoes dateAdd. */
  lemma DateDecAdd(start: Date, days: nat)
    requires IsDate(start)
    ensures DateDec(start, DateAdd(start, days)) == days
  {
    hide DayNumber, DaysOf;
    AdvanceDayNumber(start, days);
    DaysOfDate(start);
    DaysOfDate(DateAdd(start, days));
  }

  /** Months past December carry into the next year, days past the end of a month into the next. */
  lemma DaysCarry(y: int, m: int, d: int, k: int)
    ensures DaysOf(Date(y, m + 12, d)) == DaysOf(Date(y + 1, m, d))
    ensures DaysOf(Date(y, m, d + k)) == DaysOf(Date(y, m, d)) + k
  {
    hide DayNumber;
    assert (m + 12 - 1) / 12 == (m - 1) / 12 + 1 && (m + 12 - 1) % 12 == (m - 1) % 12;
  }

  /** An end before the start counts no days. */
  lemma NoDaysBack(start: Date, days: nat)
    requires IsDate(start)
    ensures DateDec(DateAdd(start, days), start) == 0
  {
    hide DayNumber, DaysOf;
    AdvanceDayNumber(start, days);
    DaysOfDate(start);
    DaysOfDate(DateAdd(start, days));
  }

  const EPOCH := Date(2000, 1, 1)

  /** 16-bit day counts from 2000-01-01 stay within four-digit years. */
  lemma SixteenBitYears(days: nat)
    requires days < 0x10000
    ensures 2000 <= DateAdd(EPOCH, days).year < 10000
  {
    var d := DateAdd(EPOCH, days);
    AdvanceDayNumber(EPOCH, days);
    YearBounds(d);
    if d.year < 2000 {
      var n := StepsBetween(d, EPOCH);
      AdvanceDayNumber(d, n);
    }
  }

  lemma YearBounds(d: Date)
    requires IsDate(d)
    ensures 365 * (d.year - 1) <= DayNumber(d)
  {
    hide DayNumber, MarchDays;
    DayNumberParts(d);
    NonNegativeMonths(MarchMonth(d.month));
  }

  lemma NonNegativeMonths(nm: int)
    requires nm >= 0
    ensures MarchDays(nm) >= 0
  {
  }
}
