/**
 * Calendar days of the proleptic Gregorian calendar, as the picker handles them through
 * JavaScript `Date` objects normalised to midnight.
 *
 * A day is a (year, month, day) triple with the month counted 1..12 (JavaScript's `getMonth()`
 * is this month minus one). The module gives
 *  - the month lengths, from the cumulative day counts that ECMA-262 (section 21.4.1, "Month
 *    Number" and "Date Number") uses;
 *  - ECMAScript's day number of a date (its time value divided by one day), and the proof that
 *    comparing two `Date`s, which compares time values, is the lexicographic order of triples;
 *  - the normalisation that `MakeDay` applies to a day of month outside the month, which is what
 *    `setDate(day)`, `setMonth(m)` and `new Date(y, m, 0)` do;
 *  - days in month as the picker computes it, and calendar navigation by one month.
 */
module Dates {

  datatype Date = Date(year: int, month: int, day: int)

  /** Gregorian leap years: divisible by 4, and not by 100 unless by 400. */
  predicate LeapYear(y: int) {
    y % 4 == 0 && (y % 100 != 0 || y % 400 == 0)
  }

  /** Days of year `y` that precede the first of month `m`; month 13 stands for the next year. */
  function DaysBeforeMonth(y: int, m: int): int
    requires 1 <= m <= 13
  {
    var leap := if LeapYear(y) then 1 else 0;
    if m == 1 then 0
    else if m == 2 then 31
    else if m == 3 then 59 + leap
    else if m == 4 then 90 + leap
    else if m == 5 then 120 + leap
    else if m == 6 then 151 + leap
    else if m == 7 then 181 + leap
    else if m == 8 then 212 + leap
    else if m == 9 then 243 + leap
    else if m == 10 then 273 + leap
    else if m == 11 then 304 + leap
    else if m == 12 then 334 + leap
    else 365 + leap
  }

  function DaysInYear(y: int): int {
    DaysBeforeMonth(y, 13)
  }

  /** The number of days of month `m` of year `y`: thirty days hath September, April, June and
      November, February has 29 in a leap year and 28 otherwise, all the rest have 31. */
  function MonthLength(y: int, m: int): (r: int)
    requires 1 <= m <= 12
    ensures 28 <= r <= 31
    ensures r == (if m == 2 then (if LeapYear(y) then 29 else 28)
                  else if m == 4 || m == 6 || m == 9 || m == 11 then 30
                  else 31)
  {
    DaysBeforeMonth(y, m + 1) - DaysBeforeMonth(y, m)
  }

  /** A day that exists in the calendar; every JavaScript `Date` the picker holds is one. */
  predicate ValidDate(d: Date) {
    1 <= d.month <= 12 && 1 <= d.day <= MonthLength(d.year, d.month)
  }

  /** `a` is an earlier calendar day than `b`: lexicographic order on (year, month, day). */
  predicate Before(a: Date, b: Date) {
    a.year < b.year
    || (a.year == b.year && a.month < b.month)
    || (a.year == b.year && a.month == b.month && a.day < b.day)
  }

  predicate AtMost(a: Date, b: Date) {
    a == b || Before(a, b)
  }

  /** The month `delta` months after month `m` of year `y`, carrying into the year as
      ECMAScript's `MakeDay` does (year plus floor of the month index by 12, the index modulo 12). */
  function AddMonths(y: int, m: int, delta: int): (r: (int, int))
    requires 1 <= m <= 12
    ensures 1 <= r.1 <= 12
    ensures 12 * r.0 + r.1 == 12 * y + m + delta
  {
    var index := m - 1 + delta;
    (y + index / 12, index % 12 + 1)
  }

  /** A month is determined by its count of months since year 0. */
  lemma MonthCountDetermines(a: (int, int), b: (int, int))
    requires 1 <= a.1 <= 12 && 1 <= b.1 <= 12
    requires 12 * a.0 + a.1 == 12 * b.0 + b.1
    ensures a == b
  {
  }

  lemma AddMonthsUndo(y: int, m: int, delta: int)
    requires 1 <= m <= 12
    ensures var t := AddMonths(y, m, delta); AddMonths(t.0, t.1, -delta) == (y, m)
  {
    var t := AddMonths(y, m, delta);
    MonthCountDetermines(AddMonths(t.0, t.1, -delta), (y, m));
  }

  /** The day MakeDay(y, m, d) designates when `d` need not lie within month (y, m): days beyond
      the month's end roll into the following months, day 0 and below count back into the
      preceding ones. `setDate(day)` on a date of month (y, m) yields it. */
  function Normalize(y: int, m: int, d: int): (r: Date)
    requires 1 <= m <= 12
    ensures ValidDate(r)
    ensures 1 <= d <= MonthLength(y, m) ==> r == Date(y, m, d)
    decreases if d < 1 then 1 - d else 0, if d < 1 then 0 else d
  {
    if d < 1 then
      var p := AddMonths(y, m, -1);
      Normalize(p.0, p.1, d + MonthLength(p.0, p.1))
    else if d > MonthLength(y, m) then
      var n := AddMonths(y, m, 1);
      Normalize(n.0, n.1, d - MonthLength(y, m))
    else
      Date(y, m, d)
  }

  // ---------------------------------------------------------------------------------------------
  // ECMAScript day numbers

  /** ECMA-262 section 21.4.1.3: the day number of the first of January of year `y`, counted from
      1 January 1970. */
  function DayFromYear(y: int): int {
    365 * (y - 1970) + (y - 1969) / 4 - (y - 1901) / 100 + (y - 1601) / 400
  }

  /** The day number of a date: `Day(t)` for the time value `t` of that date at midnight. */
  function DayNumber(d: Date): int
    requires 1 <= d.month <= 12
  {
    DayFromYear(d.year) + DaysBeforeMonth(d.year, d.month) + d.day - 1
  }

  /** A year is as long as the gap between its first day and the next year's. */
  lemma YearStep(y: int)
    ensures DayFromYear(y + 1) == DayFromYear(y) + DaysInYear(y)
  {
    var q4 := (y + 1 - 1969) / 4 - (y - 1969) / 4;
    var q100 := (y + 1 - 1901) / 100 - (y - 1901) / 100;
    var q400 := (y + 1 - 1601) / 400 - (y - 1601) / 400;
    assert DayFromYear(y + 1) == DayFromYear(y) + 365 + q4 - q100 + q400;
    EveryFourth(y);
    EveryHundredth(y);
    EveryFourHundredth(y);
    DivisibilityChain(y);
    assert q4 - q100 + q400 == if LeapYear(y) then 1 else 0;
  }

  lemma DivisibilityChain(y: int)
    ensures y % 400 == 0 ==> y % 100 == 0
    ensures y % 100 == 0 ==> y % 4 == 0
  {
    if y % 400 == 0 {
      FourHundredsAreHundreds(y);
    }
    if y % 100 == 0 {
      HundredsAreFours(y);
    }
  }

  lemma FourHundredsAreHundreds(y: int)
    requires y % 400 == 0
    ensures y % 100 == 0
  {
    var k := y / 400;
    assert y == 100 * (4 * k);
  }

  lemma HundredsAreFours(y: int)
    requires y % 100 == 0
    ensures y % 4 == 0
  {
    var k := y / 100;
    assert y == 4 * (25 * k);
  }

  // The three terms of DayFromYear grow at the years divisible by 4, 100 and 400 respectively.

  lemma EveryFourth(y: int)
    ensures (y + 1 - 1969) / 4 - (y - 1969) / 4 == if y % 4 == 0 then 1 else 0
  {
  }

  lemma EveryHundredth(y: int)
    ensures (y + 1 - 1901) / 100 - (y - 1901) / 100 == if y % 100 == 0 then 1 else 0
  {
  }

  lemma EveryFourHundredth(y: int)
    ensures (y + 1 - 1601) / 400 - (y - 1601) / 400 == if y % 400 == 0 then 1 else 0
  {
  }

  lemma {:induction false} DayFromYearGrows(a: int, b: int)
    requires a < b
    ensures DayFromYear(a) + DaysInYear(a) <= DayFromYear(b)
    decreases b - a
  {
    YearStep(a);
    if a + 1 < b {
      DayFromYearGrows(a + 1, b);
    }
  }

  lemma DaysBeforeMonthGrows(y: int, m1: int, m2: int)
    requires 1 <= m1 <= m2 <= 13
    ensures DaysBeforeMonth(y, m1) <= DaysBeforeMonth(y, m2)
  {
  }

  /** A date's day number lies within its month's stretch of its year's days. */
  lemma DayNumberInMonth(d: Date)
    requires ValidDate(d)
    ensures DayFromYear(d.year) + DaysBeforeMonth(d.year, d.month) <= DayNumber(d)
    ensures DayNumber(d) < DayFromYear(d.year) + DaysBeforeMonth(d.year, d.month + 1)
  {
  }

  /** Days of an earlier month (or year) have smaller day numbers. */
  lemma EarlierMonthSmallerDayNumber(a: Date, b: Date)
    requires ValidDate(a) && ValidDate(b)
    requires a.year < b.year || (a.year == b.year && a.month < b.month)
    ensures DayNumber(a) < DayNumber(b)
  {
    DayNumberInMonth(a);
    DayNumberInMonth(b);
    if a.year < b.year {
      DaysBeforeMonthGrows(a.year, a.month + 1, 13);
      DayFromYearGrows(a.year, b.year);
    } else {
      DaysBeforeMonthGrows(a.year, a.month + 1, b.month);
    }
  }

  /** Comparing two `Date`s compares their time values (lines 98 and 241 of the component); for
      midnight dates this is exactly the calendar order of the triples. */
  lemma BeforeIffDayNumber(a: Date, b: Date)
    requires ValidDate(a) && ValidDate(b)
    ensures Before(a, b) <==> DayNumber(a) < DayNumber(b)
    ensures a == b <==> DayNumber(a) == DayNumber(b)
  {
    if a.year < b.year || (a.year == b.year && a.month < b.month) {
      EarlierMonthSmallerDayNumber(a, b);
    } else if b.year < a.year || (a.year == b.year && b.month < a.month) {
      EarlierMonthSmallerDayNumber(b, a);
    }
  }

  /** The first of the next month comes MonthLength days after the first of this one. */
  lemma MonthStep(y: int, m: int)
    requires 1 <= m <= 12
    ensures var n := AddMonths(y, m, 1);
            DayNumber(Date(n.0, n.1, 1)) == DayNumber(Date(y, m, 1)) + MonthLength(y, m)
  {
    if m == 12 {
      assert AddMonths(y, m, 1) == (y + 1, 1);
      assert DayNumber(Date(y + 1, 1, 1)) == DayFromYear(y + 1);
      assert DayNumber(Date(y, 12, 1)) + MonthLength(y, 12) == DayFromYear(y) + DaysInYear(y);
      YearStep(y);
    } else {
      assert AddMonths(y, m, 1) == (y, m + 1);
    }
  }

  /** Normalize is MakeDay: it moves `d - 1` days on from the first of month (y, m). */
  lemma {:induction false} NormalizeDayNumber(y: int, m: int, d: int)
    requires 1 <= m <= 12
    ensures DayNumber(Normalize(y, m, d)) == DayNumber(Date(y, m, 1)) + d - 1
    decreases if d < 1 then 1 - d else 0, if d < 1 then 0 else d, 1
  {
    if d < 1 {
      NormalizeBackDayNumber(y, m, d);
    } else if d > MonthLength(y, m) {
      NormalizeForwardDayNumber(y, m, d);
    }
  }

  lemma {:induction false} NormalizeBackDayNumber(y: int, m: int, d: int)
    requires 1 <= m <= 12 && d < 1
    ensures DayNumber(Normalize(y, m, d)) == DayNumber(Date(y, m, 1)) + d - 1
    decreases 1 - d, 0, 0
  {
    var p := AddMonths(y, m, -1);
    var len := MonthLength(p.0, p.1);
    var r := Normalize(p.0, p.1, d + len);
    assert Normalize(y, m, d) == r;
    NormalizeDayNumber(p.0, p.1, d + len);
    AddMonthsUndo(y, m, -1);
    MonthStep(p.0, p.1);
  }

  lemma {:induction false} NormalizeForwardDayNumber(y: int, m: int, d: int)
    requires 1 <= m <= 12 && d > MonthLength(y, m)
    ensures DayNumber(Normalize(y, m, d)) == DayNumber(Date(y, m, 1)) + d - 1
    decreases 0, d, 0
  {
    var n := AddMonths(y, m, 1);
    var len := MonthLength(y, m);
    var r := Normalize(n.0, n.1, d - len);
    assert Normalize(y, m, d) == r;
    NormalizeDayNumber(n.0, n.1, d - len);
    MonthStep(y, m);
  }

  // ---------------------------------------------------------------------------------------------
  // Days in month (getCurrentCalendarDateDaysInMonth)

  /** The year the `Date(year, monthIndex, day)` constructor actually uses: ECMA-262 section
      21.4.2.1 reads a year argument from 0 to 99 as 1900 plus that year. */
  function ConstructorYear(y: int): (r: int)
    ensures 0 <= y <= 99 ==> r == 1900 + y
    ensures !(0 <= y <= 99) ==> r == y
    ensures y != 0 ==> (LeapYear(r) <==> LeapYear(y))
    ensures y == 0 ==> LeapYear(y) && !LeapYear(r)
  {
    if 0 <= y <= 99 then 1900 + y else y
  }

  /** `new Date(y, getMonth() + 1, 0).getDate()` as the component writes it: day 0 of the
      following month, which is the last day of month `m` in the year the constructor makes of
      `y`. */
  function DaysInMonthAsWritten(y: int, m: int): (r: int)
    requires 1 <= m <= 12
    ensures r == MonthLength(ConstructorYear(y), m)
  {
    var c := ConstructorYear(y);
    var n := AddMonths(c, m, 1);
    AddMonthsUndo(c, m, 1);
    Normalize(n.0, n.1, 0).day
  }

  /** Day 0 of the following month in year `y` itself (the year passed through `setFullYear`
      rather than the constructor), which is the month's last day. */
  function DaysInMonth(y: int, m: int): (r: int)
    requires 1 <= m <= 12
    ensures r == MonthLength(y, m)
  {
    var n := AddMonths(y, m, 1);
    AddMonthsUndo(y, m, 1);
    Normalize(n.0, n.1, 0).day
  }

  /** Finding: February of year 0, a leap year, has 29 days, but the constructor computes
      day 0 of March 1900, which is 28 February. */
  lemma DaysInMonthAsWrittenYearZero()
    ensures DaysInMonthAsWritten(0, 2) == 28
    ensures DaysInMonth(0, 2) == 29
  {
    assert ConstructorYear(0) == 1900;
    assert !LeapYear(1900) && LeapYear(0);
  }

  /** Outside February of year 0 the mapping of years 0..99 to 1900..1999 changes no month length. */
  lemma DaysInMonthAsWrittenAgrees(y: int, m: int)
    requires 1 <= m <= 12
    requires !(y == 0 && m == 2)
    ensures DaysInMonthAsWritten(y, m) == DaysInMonth(y, m)
  {
    if 0 <= y <= 99 && m == 2 {
      assert ConstructorYear(y) == 1900 + y;
      assert (1900 + y) % 4 == y % 4;
      assert (1900 + y) % 100 == y && y % 100 == y;
      assert LeapYear(1900 + y) == LeapYear(y);
    }
  }

  // ---------------------------------------------------------------------------------------------
  // Calendar navigation (calendarNavigateBack / calendarNavigateNext)

  /** `d.setMonth(d.getMonth() + delta)` as the component writes it: MakeDay keeps the day of
      month, so a day the target month lacks rolls over into the month after it. */
  function SetMonth(d: Date, delta: int): (r: Date)
    requires ValidDate(d)
    ensures ValidDate(r)
    ensures var t := AddMonths(d.year, d.month, delta);
            d.day <= MonthLength(t.0, t.1) ==> r == Date(t.0, t.1, d.day)
  {
    var t := AddMonths(d.year, d.month, delta);
    Normalize(t.0, t.1, d.day)
  }

  /** Finding: "next month" from 31 January 2023 shows March, skipping February. */
  lemma NavigateNextSkipsFebruary()
    ensures SetMonth(Date(2023, 1, 31), 1) == Date(2023, 3, 3)
  {
    assert AddMonths(2023, 2, 1) == (2023, 3);
    assert Normalize(2023, 2, 31) == Normalize(2023, 3, 3);
  }

  /** Finding, other direction: "previous month" from 31 March 2023 stays in March. */
  lemma NavigateBackStaysInMarch()
    ensures SetMonth(Date(2023, 3, 31), -1) == Date(2023, 3, 3)
  {
    assert AddMonths(2023, 3, -1) == (2023, 2);
    assert AddMonths(2023, 2, 1) == (2023, 3);
    assert Normalize(2023, 2, 31) == Normalize(2023, 3, 3);
  }

  /** Navigation as intended: the shown month moves by exactly `delta` months, and the day of
      month is kept where the target month has it and clamped to the month's last day elsewhere. */
  function ShiftMonth(d: Date, delta: int): (r: Date)
    requires ValidDate(d)
    ensures ValidDate(r)
    ensures (r.year, r.month) == AddMonths(d.year, d.month, delta)
    ensures r.day == if d.day <= MonthLength(r.year, r.month) then d.day else MonthLength(r.year, r.month)
  {
    var t := AddMonths(d.year, d.month, delta);
    var last := MonthLength(t.0, t.1);
    Date(t.0, t.1, if d.day <= last then d.day else last)
  }

  /** Where the target month has the day, the component's navigation and the intended one agree. */
  lemma SetMonthAgreesWithShiftMonth(d: Date, delta: int)
    requires ValidDate(d)
    requires var t := AddMonths(d.year, d.month, delta); d.day <= MonthLength(t.0, t.1)
    ensures SetMonth(d, delta) == ShiftMonth(d, delta)
  {
  }

  /** Going forward one month and back one month returns to the month one started from. */
  lemma ShiftMonthForwardBack(d: Date)
    requires ValidDate(d)
    ensures var e := ShiftMonth(ShiftMonth(d, 1), -1); e.year == d.year && e.month == d.month
  {
    var f := ShiftMonth(d, 1);
    var e := ShiftMonth(f, -1);
    assert 12 * e.year + e.month == 12 * d.year + d.month;
  }
}
