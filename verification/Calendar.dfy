/** The proleptic Gregorian calendar in UTC, as the cron evaluator reads it from the clock.
    Days are counted from Monday, 1 January of year 1. */
module Calendar {

  datatype Date = Date(year: int, month: int, day: int)

  const DAYS_TO_EPOCH: int := 719162  // 1 January 1970
  const MINUTES_PER_DAY: int := 1440

  predicate IsLeap(y: int) {
    y % 4 == 0 && (y % 100 != 0 || y % 400 == 0)
  }

  function DaysInMonth(leap: bool, m: int): (r: int)
    requires 1 <= m <= 12
    ensures 28 <= r <= 31
  {
    if m == 2 then (if leap then 29 else 28)
    else if m == 4 || m == 6 || m == 9 || m == 11 then 30
    else 31
  }

  predicate ValidDate(d: Date) {
    1 <= d.month <= 12 && 1 <= d.day <= DaysInMonth(IsLeap(d.year), d.month)
  }

  function YearLength(y: int): int {
    if IsLeap(y) then 366 else 365
  }

  /** Days from 1 January of year 1 to 1 January of year y, one year at a time in either direction. */
  ghost function DaysBeforeYear(y: int): int
    decreases if y >= 1 then y - 1 else 1 - y
  {
    if y == 1 then 0
    else if y > 1 then DaysBeforeYear(y - 1) + YearLength(y - 1)
    else DaysBeforeYear(y + 1) - YearLength(y)
  }

  function DaysBeforeMonth(leap: bool, m: int): int
    requires 1 <= m <= 13
  {
    if m == 1 then 0 else DaysBeforeMonth(leap, m - 1) + DaysInMonth(leap, m - 1)
  }

  /** Day number of a date; an excess day runs on into the next month, as time.Date normalises it. */
  ghost function DayNumber(d: Date): int
    requires 1 <= d.month <= 12
  {
    DaysBeforeYear(d.year) + DaysBeforeMonth(IsLeap(d.year), d.month) + d.day - 1
  }

  lemma MonthTotals(leap: bool)
    ensures DaysBeforeMonth(leap, 13) == if leap then 366 else 365
    ensures DaysBeforeMonth(leap, 3) == if leap then 60 else 59
  {
    var d3 := DaysBeforeMonth(leap, 3);
    assert DaysBeforeMonth(leap, 2) == 31;
    assert d3 == if leap then 60 else 59;
    var d6 := DaysBeforeMonth(leap, 6);
    assert DaysBeforeMonth(leap, 4) == d3 + 31;
    assert DaysBeforeMonth(leap, 5) == d3 + 61;
    assert d6 == d3 + 92;
    assert DaysBeforeMonth(leap, 7) == d6 + 30;
    assert DaysBeforeMonth(leap, 8) == d6 + 61;
    var d9 := DaysBeforeMonth(leap, 9);
    assert d9 == d6 + 92;
    assert DaysBeforeMonth(leap, 10) == d9 + 30;
    assert DaysBeforeMonth(leap, 11) == d9 + 61;
    assert DaysBeforeMonth(leap, 12) == d9 + 91;
  }

  /** The days of a common year before each month, and before the next year. */
  const DAYS_BEFORE: seq<int> := [0, 31, 59, 90, 120, 151, 181, 212, 243, 273, 304, 334, 365]

  /** Month lengths agree with that table; a leap year is one day longer from March on. */
  lemma MonthTable(leap: bool, m: int)
    requires 1 <= m <= 13
    ensures DaysBeforeMonth(leap, m) == DAYS_BEFORE[m - 1] + if leap && m > 2 then 1 else 0
  {
    if m > 1 {
      MonthTable(leap, m - 1);
    }
  }

  lemma {:induction false} MonthsOrdered(leap: bool, a: int, b: int)
    requires 1 <= a <= b <= 13
    ensures DaysBeforeMonth(leap, a) + 28 * (b - a) <= DaysBeforeMonth(leap, b)
    decreases b - a
  {
    if a < b {
      MonthsOrdered(leap, a, b - 1);
    }
  }

  lemma YearStep(y: int)
    ensures DaysBeforeYear(y + 1) == DaysBeforeYear(y) + YearLength(y)
  {
  }

  lemma {:induction false} YearsOrdered(a: int, b: int)
    requires a <= b
    ensures DaysBeforeYear(a) + 365 * (b - a) <= DaysBeforeYear(b)
    decreases b - a
  {
    if a < b {
      YearsOrdered(a, b - 1);
      YearStep(b - 1);
    }
  }

  // The computation: peel off cycles of 400, 100, 4 and 1 years, then walk the months.

  function ClosedForm(y: int): int {
    365 * (y - 1) + (y - 1) / 4 - (y - 1) / 100 + (y - 1) / 400
  }

  lemma ClosedFormStep(y: int)
    ensures ClosedForm(y + 1) == ClosedForm(y) + YearLength(y)
  {
    assert y / 4 - (y - 1) / 4 == if y % 4 == 0 then 1 else 0;
    assert y / 100 - (y - 1) / 100 == if y % 100 == 0 then 1 else 0;
    assert y / 400 - (y - 1) / 400 == if y % 400 == 0 then 1 else 0;
    assert y % 400 == 0 ==> y % 100 == 0;
    assert y % 100 == 0 ==> y % 4 == 0;
  }

  lemma {:induction false} YearStartClosedForm(y: int)
    ensures DaysBeforeYear(y) == ClosedForm(y)
    decreases if y >= 1 then y - 1 else 1 - y
  {
    if y > 1 {
      YearStartClosedForm(y - 1);
      ClosedFormStep(y - 1);
    } else if y < 1 {
      YearStartClosedForm(y + 1);
      ClosedFormStep(y);
    }
  }

  /** The last century and the last year of a cycle are longer. */
  function YearOf(n: int): int {
    var r400 := n % 146097;
    var centuries := if r400 / 36524 == 4 then 3 else r400 / 36524;
    var r100 := r400 - centuries * 36524;
    var r4 := r100 % 1461;
    var years := if r4 / 365 == 4 then 3 else r4 / 365;
    n / 146097 * 400 + centuries * 100 + r100 / 1461 * 4 + years + 1
  }

  function MonthFrom(leap: bool, yearDay: int, m: int): (r: int)
    requires 1 <= m <= 12
    requires DaysBeforeMonth(leap, m) <= yearDay < DaysBeforeMonth(leap, 13)
    ensures m <= r <= 12
    ensures DaysBeforeMonth(leap, r) <= yearDay < DaysBeforeMonth(leap, r + 1)
    decreases 12 - m
  {
    if yearDay < DaysBeforeMonth(leap, m + 1) then m else MonthFrom(leap, yearDay, m + 1)
  }

  /** The start of a year written in cycles, which is what YearOf recovers. */
  lemma CycleSplit(a: int, b: int, c: int, e: int)
    requires 0 <= b <= 3 && 0 <= c <= 24 && 0 <= e <= 3
    ensures DaysBeforeYear(400 * a + 100 * b + 4 * c + e + 1) == 146097 * a + 36524 * b + 1461 * c + 365 * e
  {
    var y := 400 * a + 100 * b + 4 * c + e;
    assert y / 4 == 100 * a + 25 * b + c;
    assert y / 100 == 4 * a + b;
    assert y / 400 == a;
    YearStartClosedForm(y + 1);
  }

  /** A four-year cycle ends in a leap year, except at the end of a century that does not end its 400 years. */
  lemma CycleEndsInLeapYear(a: int, b: int, c: int)
    requires 0 <= b <= 3 && 0 <= c <= 24
    requires c == 24 ==> b == 3
    ensures IsLeap(400 * a + 100 * b + 4 * c + 4)
  {
    var y := 400 * a + 100 * b + 4 * c + 4;
    assert y % 4 == 0;
    if c < 24 {
      assert y % 100 == 4 * c + 4;
    } else {
      assert y % 400 == 0;
    }
  }

  /** YearOf finds the year whose days contain day n. */
  lemma YearOfBrackets(n: int)
    ensures DaysBeforeYear(YearOf(n)) <= n < DaysBeforeYear(YearOf(n) + 1)
  {
    var a := n / 146097;
    var r400 := n % 146097;
    var b := if r400 / 36524 == 4 then 3 else r400 / 36524;
    var r100 := r400 - b * 36524;
    assert 0 <= b <= 3 && 0 <= r100 <= 36524 && (r100 == 36524 ==> b == 3);
    var c := r100 / 1461;
    var r4 := r100 % 1461;
    var e := if r4 / 365 == 4 then 3 else r4 / 365;
    assert 0 <= e <= 3 && 365 * e <= r4 <= 365 * e + 365;
    assert r4 == 365 * e + 365 ==> e == 3;
    CycleSplit(a, b, c, e);
    YearStep(400 * a + 100 * b + 4 * c + e + 1);
    if r4 == 1460 {
      CycleEndsInLeapYear(a, b, c);
    }
  }

  /** CivilDate computes the calendar date of a day number. */
  function CivilDate(n: int): (d: Date)
    ensures ValidDate(d)
    ensures DayNumber(d) == n
  {
    YearOfBrackets(n);
    var y := YearOf(n);
    YearStep(y);
    MonthTotals(IsLeap(y));
    var yearDay := n - ClosedForm(y);
    YearStartClosedForm(y);
    var m := MonthFrom(IsLeap(y), yearDay, 1);
    Date(y, m, yearDay - DaysBeforeMonth(IsLeap(y), m) + 1)
  }

  lemma DateExists(n: int)
    ensures exists d: Date :: ValidDate(d) && DayNumber(d) == n
  {
    var d := CivilDate(n);
    assert ValidDate(d) && DayNumber(d) == n;
  }

  /** The calendar date of a day number: the valid date that has that number. */
  ghost function DateOf(n: int): (d: Date)
    ensures ValidDate(d) && DayNumber(d) == n
  {
    DateExists(n);
    var d: Date :| ValidDate(d) && DayNumber(d) == n;
    d
  }

  lemma DayWithinYear(d: Date)
    requires ValidDate(d)
    ensures DaysBeforeYear(d.year) <= DayNumber(d) < DaysBeforeYear(d.year + 1)
  {
    var leap := IsLeap(d.year);
    MonthsOrdered(leap, 1, d.month);
    MonthsOrdered(leap, d.month + 1, 13);
    MonthTotals(leap);
    YearStep(d.year);
  }

  /** Later years, and within a year later months, have larger day numbers. */
  lemma DatesOrdered(d: Date, e: Date)
    requires ValidDate(d) && ValidDate(e)
    requires d.year < e.year || (d.year == e.year && d.month < e.month)
    ensures DayNumber(d) < DayNumber(e)
  {
    DayWithinYear(d);
    DayWithinYear(e);
    if d.year < e.year {
      YearsOrdered(d.year + 1, e.year);
    } else {
      MonthsOrdered(IsLeap(d.year), d.month + 1, e.month);
    }
  }

  /** Day numbers and valid dates correspond one to one. */
  lemma DateRoundTrip(d: Date)
    requires ValidDate(d)
    ensures DateOf(DayNumber(d)) == d
  {
    var e := DateOf(DayNumber(d));
    if d.year < e.year || (d.year == e.year && d.month < e.month) {
      DatesOrdered(d, e);
    } else if e.year < d.year || (d.year == e.year && e.month < d.month) {
      DatesOrdered(e, d);
    }
  }

  /** The computed date is the calendar date. */
  lemma CivilDateIsDate(n: int)
    ensures CivilDate(n) == DateOf(n)
  {
    DateRoundTrip(CivilDate(n));
  }

  // The clock reading of a minute, counted from the Unix epoch.

  function DayOfMinute(t: int): int {
    t / MINUTES_PER_DAY + DAYS_TO_EPOCH
  }

  function HourOf(t: int): (h: int)
    ensures 0 <= h < 24
  {
    t % MINUTES_PER_DAY / 60
  }

  function MinuteOf(t: int): (m: int)
    ensures 0 <= m < 60
  {
    t % MINUTES_PER_DAY % 60
  }

  /** Sunday is 0; day 0 of the count is a Monday. */
  function WeekdayOf(n: int): (w: int)
    ensures 0 <= w < 7
  {
    (n + 1) % 7
  }

  function MinuteAt(n: int, hour: int, minute: int): int {
    (n - DAYS_TO_EPOCH) * MINUTES_PER_DAY + hour * 60 + minute
  }

  lemma ClockRoundTrip(n: int, hour: int, minute: int)
    requires 0 <= hour < 24 && 0 <= minute < 60
    ensures DayOfMinute(MinuteAt(n, hour, minute)) == n
    ensures HourOf(MinuteAt(n, hour, minute)) == hour
    ensures MinuteOf(MinuteAt(n, hour, minute)) == minute
  {
    var t := MinuteAt(n, hour, minute);
    var rest := hour * 60 + minute;
    assert t / MINUTES_PER_DAY == n - DAYS_TO_EPOCH && t % MINUTES_PER_DAY == rest;
  }

  lemma MinuteFromClock(t: int)
    ensures MinuteAt(DayOfMinute(t), HourOf(t), MinuteOf(t)) == t
  {
  }

  /** The clock and the calendar are those of UTC: minute 0 is midnight on Thursday, 1 January 1970; minutes, days and
      weekdays run on evenly from there. */
  lemma EpochIsThursday(t: int)
    ensures DateOf(DayOfMinute(0)) == Date(1970, 1, 1) && WeekdayOf(DayOfMinute(0)) == 4
    ensures t == (DayOfMinute(t) - DayOfMinute(0)) * 1440 + HourOf(t) * 60 + MinuteOf(t)
    ensures (WeekdayOf(DayOfMinute(t)) - 4 - (DayOfMinute(t) - DayOfMinute(0))) % 7 == 0
  {
    YearStartClosedForm(1970);
    assert DayNumber(Date(1970, 1, 1)) == DAYS_TO_EPOCH;
    DateRoundTrip(Date(1970, 1, 1));
  }

  /** The day after a date is the next day of its month, or the first of the next month, or the next New Year's Day. */
  lemma NextDay(n: int)
    ensures var d := DateOf(n);
            DateOf(n + 1) == if ValidDate(Date(d.year, d.month, d.day + 1)) then Date(d.year, d.month, d.day + 1)
                             else if d.month < 12 then Date(d.year, d.month + 1, 1)
                             else Date(d.year + 1, 1, 1)
  {
    var d := DateOf(n);
    var e := if ValidDate(Date(d.year, d.month, d.day + 1)) then Date(d.year, d.month, d.day + 1)
             else if d.month < 12 then Date(d.year, d.month + 1, 1)
             else Date(d.year + 1, 1, 1);
    MonthTotals(IsLeap(d.year));
    YearStep(d.year);
    assert DayNumber(e) == n + 1;
    DateRoundTrip(e);
  }

  /** AddDate(5, 0, 0): same month, day and time of day; 29 February becomes 1 March. */
  ghost function FiveYearsLater(t: int): int {
    var d := DateOf(DayOfMinute(t));
    MinuteAt(DayNumber(Date(d.year + 5, d.month, d.day)), HourOf(t), MinuteOf(t))
  }

  /** The same, computed. */
  function AddFiveYears(t: int): (r: int)
    ensures r == FiveYearsLater(t)
  {
    CivilDateIsDate(DayOfMinute(t));
    var d := CivilDate(DayOfMinute(t));
    YearStartClosedForm(d.year + 5);
    MinuteAt(ClosedForm(d.year + 5) + DaysBeforeMonth(IsLeap(d.year + 5), d.month) + d.day - 1, HourOf(t), MinuteOf(t))
  }

  lemma LaterDayLaterMinute(n: int, k: int, hour: int, minute: int, hour': int, minute': int)
    requires n < k
    requires 0 <= hour < 24 && 0 <= minute < 60 && 0 <= hour' < 24 && 0 <= minute' < 60
    ensures MinuteAt(n, hour, minute) < MinuteAt(k, hour', minute')
  {
  }
}
