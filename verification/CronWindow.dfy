/** Adequacy of the five-year search window, over the Gregorian calendar. */
module CronWindow {
  import opened Prelude
  import opened Calendar
  import opened CronSchedule

  ghost predicate Lists(f: Field, lo: int, hi: int) {
    exists v :: lo <= v <= hi && v in f.values
  }

  /** What parsing guarantees: every field holds a value in its range. */
  ghost predicate WellFormed(s: Schedule) {
    && Lists(s.minute, 0, 59)
    && Lists(s.hour, 0, 23)
    && Lists(s.dom, 1, 31)
    && Lists(s.month, 1, 12)
    && Lists(s.dow, 0, 6)
  }

  /** Only the day of month decides the day: dow is the literal "*" and dom is not. */
  predicate DomOnly(s: Schedule) {
    s.dow.all && !s.dom.all
  }

  /** Some listed day exists in a listed month of every year. */
  ghost predicate YearlyDate(s: Schedule) {
    exists m, d :: m in s.month.values && d in s.dom.values && ValidCommonDate(m, d)
  }

  predicate ValidCommonDate(m: int, d: int) {
    1 <= m <= 12 && 1 <= d <= DaysInMonth(false, m)
  }

  predicate ListsLeapDay(s: Schedule) {
    2 in s.month.values && 29 in s.dom.values
  }

  /** A year divisible by 100 but not by 400, which is not leap. */
  predicate CommonCentury(c: int) {
    c % 100 == 0 && c % 400 != 0
  }

  ghost function LeapDayMinute(y: int, hour: int, minute: int): int {
    MinuteAt(DayNumber(Date(y, 2, 29)), hour, minute)
  }

  ghost function FirstOfMarch(y: int): int {
    MinuteAt(DayNumber(Date(y, 3, 1)), 0, 0)
  }

  /** Every listed time of day on 29 February of year y lies before start. */
  ghost predicate LeapDayPassed(s: Schedule, y: int, start: int) {
    forall h, m :: 0 <= h < 24 && 0 <= m < 60 && h in s.hour.values && m in s.minute.values
        ==> LeapDayMinute(y, h, m) < start
  }

  /** The eight years without 29 February around a common century c: from after the last listed time on
      29 February c - 4 up to, not including, 1 March c - 1. */
  ghost predicate GapAt(s: Schedule, c: int, start: int) {
    CommonCentury(c) && LeapDayPassed(s, c - 4, start) && start < FirstOfMarch(c - 1)
  }

  ghost predicate InLeapGap(s: Schedule, start: int) {
    exists c :: GapAt(s, c, start)
  }

  lemma MatchesOn(s: Schedule, d: Date, hour: int, minute: int)
    requires ValidDate(d) && 0 <= hour < 24 && 0 <= minute < 60
    requires hour in s.hour.values && minute in s.minute.values && d.month in s.month.values
    requires DayMatches(s, d.day, WeekdayOf(DayNumber(d)))
    ensures Matches(s, MinuteAt(DayNumber(d), hour, minute))
  {
    ClockRoundTrip(DayNumber(d), hour, minute);
    DateRoundTrip(d);
  }

  ghost function YearOfMinute(t: int): int {
    DateOf(DayOfMinute(t)).year
  }

  /** Days, and so years, order minutes. */
  lemma EarlierDay(t: int, u: int)
    ensures DayOfMinute(t) < DayOfMinute(u) ==> t < u
    ensures t <= u ==> DayOfMinute(t) <= DayOfMinute(u)
  {
  }

  lemma EarlierYear(t: int, u: int)
    requires YearOfMinute(t) < YearOfMinute(u)
    ensures t < u
  {
    DatesOrdered(DateOf(DayOfMinute(t)), DateOf(DayOfMinute(u)));
    EarlierDay(t, u);
  }

  lemma MarchClock(y: int)
    ensures DateOf(DayOfMinute(FirstOfMarch(y))) == Date(y, 3, 1)
  {
    ClockRoundTrip(DayNumber(Date(y, 3, 1)), 0, 0);
    DateRoundTrip(Date(y, 3, 1));
  }

  lemma DeadlineDate(t: int)
    ensures YearOfMinute(FiveYearsLater(t)) == YearOfMinute(t) + 5
    ensures DayOfMinute(FiveYearsLater(t)) == DayNumber(DateOf(DayOfMinute(t)).(year := YearOfMinute(t) + 5))
  {
    var d := DateOf(DayOfMinute(t));
    var n := DayNumber(d.(year := d.year + 5));
    ClockRoundTrip(n, HourOf(t), MinuteOf(t));
    DeadlineWithinYear(d);
    var e := DateOf(n);
    DayWithinYear(e);
    if e.year < d.year + 5 {
      YearsOrdered(e.year + 1, d.year + 5);
    } else if e.year > d.year + 5 {
      YearsOrdered(d.year + 6, e.year);
    }
  }

  /** Minutes of the four calendar years after the starting one lie in the window. */
  lemma InWindow(start: int, t: int)
    requires YearOfMinute(start) < YearOfMinute(t) < YearOfMinute(start) + 5
    ensures start <= t <= FiveYearsLater(start)
  {
    EarlierYear(start, t);
    DeadlineDate(start);
    EarlierYear(t, FiveYearsLater(start));
  }

  lemma WeekdayShift(n: int, shift: int, w: int)
    requires 0 <= w < 7 && (shift == w - WeekdayOf(n) || shift == w - WeekdayOf(n) + 7)
    ensures WeekdayOf(n + shift) == w
  {
    var weeks := (n + 1) / 7;
    assert n + 1 == 7 * weeks + WeekdayOf(n);
  }

  /** Some day among the first seven of a month falls on a given weekday. */
  lemma WeekdayInMonth(y: int, m: int, w: int) returns (d: Date)
    requires 1 <= m <= 12 && 0 <= w < 7
    ensures d.year == y && d.month == m && ValidDate(d) && WeekdayOf(DayNumber(d)) == w
  {
    var first := DayNumber(Date(y, m, 1));
    var ahead := w - WeekdayOf(first);
    var shift := if ahead < 0 then ahead + 7 else ahead;
    WeekdayShift(first, shift, w);
    d := Date(y, m, 1 + shift);
    assert DayNumber(d) == first + shift;
  }

  ghost predicate MatchInYear(s: Schedule, y: int, t: int) {
    YearOfMinute(t) == y && Matches(s, t)
  }

  /** Unless the day of month decides alone and names no yearly date, every year holds a match. */
  lemma YearlyMatch(s: Schedule, y: int) returns (t: int)
    requires WellFormed(s)
    requires !DomOnly(s) || YearlyDate(s)
    ensures MatchInYear(s, y, t)
  {
    var h :| 0 <= h <= 23 && h in s.hour.values;
    var mi :| 0 <= mi <= 59 && mi in s.minute.values;
    var date: Date;
    if !DomOnly(s) {
      var m :| 1 <= m <= 12 && m in s.month.values;
      var w :| 0 <= w <= 6 && w in s.dow.values;
      date := WeekdayInMonth(y, m, w);
    } else {
      var m, d :| m in s.month.values && d in s.dom.values && ValidCommonDate(m, d);
      date := Date(y, m, d);
    }
    MatchesOn(s, date, h, mi);
    t := MinuteAt(DayNumber(date), h, mi);
    ClockRoundTrip(DayNumber(date), h, mi);
    DateRoundTrip(date);
  }

  /** The multiple of four among the next four years; it is leap unless a common century. */
  function NextFourth(y: int): (c: int)
    ensures y < c <= y + 4 && c % 4 == 0
    ensures !IsLeap(c) ==> CommonCentury(c)
  {
    y + 4 - y % 4
  }

  lemma LeapDayMatch(s: Schedule, y: int, h: int, m: int)
    requires DomOnly(s) && ListsLeapDay(s) && IsLeap(y)
    requires 0 <= h < 24 && 0 <= m < 60 && h in s.hour.values && m in s.minute.values
    ensures Matches(s, LeapDayMinute(y, h, m))
    ensures YearOfMinute(LeapDayMinute(y, h, m)) == y
    ensures DateOf(DayOfMinute(LeapDayMinute(y, h, m))) == Date(y, 2, 29)
  {
    var d := Date(y, 2, 29);
    MatchesOn(s, d, h, m);
    ClockRoundTrip(DayNumber(d), h, m);
    DateRoundTrip(d);
  }

  /** A match of a schedule without a yearly date falls on 29 February, at a listed time of day. */
  lemma OnlyLeapDays(s: Schedule, u: int)
    requires DomOnly(s) && !YearlyDate(s) && Matches(s, u)
    ensures var z := YearOfMinute(u);
            ListsLeapDay(s) && IsLeap(z) && u == LeapDayMinute(z, HourOf(u), MinuteOf(u))
            && DateOf(DayOfMinute(u)) == Date(z, 2, 29)
  {
    var d := DateOf(DayOfMinute(u));
    assert d.month in s.month.values && d.day in s.dom.values;
    assert !ValidCommonDate(d.month, d.day);
    assert d.month == 2 && d.day == 29 && IsLeap(d.year);
    MinuteFromClock(u);
  }

  lemma FoundInWindow(s: Schedule, after: Time, t: int)
    requires Matches(s, t) && StartMinute(after) <= t <= FiveYearsLater(StartMinute(after))
    ensures NextMinute(s, after).Some? && NextMinute(s, after).value <= t
  {
    NextIsLeastMatch(s, after);
  }

  /** The years four before and after a common century are leap. */
  lemma CenturyNeighbours(c: int)
    requires CommonCentury(c)
    ensures IsLeap(c - 4) && IsLeap(c + 4)
  {
    assert (c + 4) % 100 == 4 && (c - 4) % 100 == 96;
    assert c % 4 == 0;
  }

  /** From 1 March of the year before a common century, the window reaches 29 February of the leap year after it. */
  lemma WindowReachesLeapDay(start: int, c: int, h: int, m: int)
    requires CommonCentury(c) && YearOfMinute(start) == c - 1
    requires start >= FirstOfMarch(c - 1)
    requires 0 <= h < 24 && 0 <= m < 60
    ensures LeapDayMinute(c + 4, h, m) <= FiveYearsLater(start)
  {
    var d := DateOf(DayOfMinute(start));
    MarchClock(c - 1);
    EarlierDay(FirstOfMarch(c - 1), start);
    if d.month < 3 {
      DatesOrdered(d, Date(c - 1, 3, 1));
    }
    var e := d.(year := c + 4);
    CenturyNeighbours(c);
    DatesOrdered(Date(c + 4, 2, 29), e);
    LaterDayLaterMinute(DayNumber(Date(c + 4, 2, 29)), DayNumber(e), h, m, HourOf(start), MinuteOf(start));
  }

  lemma LeapDayThisYear(s: Schedule, after: Time, h: int, m: int)
    requires DomOnly(s) && ListsLeapDay(s) && IsLeap(YearOfMinute(StartMinute(after)))
    requires 0 <= h < 24 && 0 <= m < 60 && h in s.hour.values && m in s.minute.values
    requires LeapDayMinute(YearOfMinute(StartMinute(after)), h, m) >= StartMinute(after)
    ensures NextMinute(s, after).Some?
  {
    var start := StartMinute(after);
    var y := YearOfMinute(start);
    LeapDayMatch(s, y, h, m);
    DeadlineDate(start);
    EarlierYear(LeapDayMinute(y, h, m), FiveYearsLater(start));
    FoundInWindow(s, after, LeapDayMinute(y, h, m));
  }

  lemma LeapDayPastCentury(s: Schedule, after: Time, c: int)
    requires WellFormed(s) && DomOnly(s) && ListsLeapDay(s) && CommonCentury(c)
    requires YearOfMinute(StartMinute(after)) < c && StartMinute(after) >= FirstOfMarch(c - 1)
    ensures NextMinute(s, after).Some?
  {
    var start := StartMinute(after);
    var h :| 0 <= h <= 23 && h in s.hour.values;
    var m :| 0 <= m <= 59 && m in s.minute.values;
    YearAfterMarch(start, c);
    WindowReachesLeapDay(start, c, h, m);
    CenturyNeighbours(c);
    LeapDayMatch(s, c + 4, h, m);
    EarlierYear(start, LeapDayMinute(c + 4, h, m));
    FoundInWindow(s, after, LeapDayMinute(c + 4, h, m));
  }

  lemma LeapDayInBetween(s: Schedule, after: Time, c: int)
    requires WellFormed(s) && DomOnly(s) && ListsLeapDay(s) && IsLeap(c)
    requires YearOfMinute(StartMinute(after)) < c <= YearOfMinute(StartMinute(after)) + 4
    ensures NextMinute(s, after).Some?
  {
    var h :| 0 <= h <= 23 && h in s.hour.values;
    var m :| 0 <= m <= 59 && m in s.minute.values;
    LeapDayMatch(s, c, h, m);
    InWindow(StartMinute(after), LeapDayMinute(c, h, m));
    FoundInWindow(s, after, LeapDayMinute(c, h, m));
  }

  lemma YearBeforeLeapDay(s: Schedule, start: int, y: int, h: int, m: int)
    requires DomOnly(s) && ListsLeapDay(s) && IsLeap(y)
    requires 0 <= h < 24 && 0 <= m < 60 && h in s.hour.values && m in s.minute.values
    requires start <= LeapDayMinute(y, h, m)
    ensures YearOfMinute(start) <= y
  {
    LeapDayMatch(s, y, h, m);
    if y < YearOfMinute(start) {
      EarlierYear(LeapDayMinute(y, h, m), start);
    }
  }

  lemma LeapDayOutsideGap(s: Schedule, after: Time)
    requires WellFormed(s) && DomOnly(s) && ListsLeapDay(s)
    requires !InLeapGap(s, StartMinute(after))
    ensures NextMinute(s, after).Some?
  {
    var start := StartMinute(after);
    var c := NextFourth(YearOfMinute(start));
    if IsLeap(c) {
      LeapDayInBetween(s, after, c);
    } else {
      assert !GapAt(s, c, start);
      if LeapDayPassed(s, c - 4, start) {
        LeapDayPastCentury(s, after, c);
      } else {
        var h, m :| 0 <= h < 24 && 0 <= m < 60 && h in s.hour.values && m in s.minute.values
                    && LeapDayMinute(c - 4, h, m) >= start;
        CenturyNeighbours(c);
        YearBeforeLeapDay(s, start, c - 4, h, m);
        LeapDayThisYear(s, after, h, m);
      }
    }
  }

  lemma YearAfterMarch(start: int, c: int)
    requires CommonCentury(c) && YearOfMinute(start) < c
    requires start >= FirstOfMarch(c - 1)
    ensures YearOfMinute(start) == c - 1
  {
    MarchClock(c - 1);
    if YearOfMinute(start) < c - 1 {
      EarlierYear(start, FirstOfMarch(c - 1));
    }
  }

  /** No year strictly between the two is leap. */
  lemma GapYears(c: int, z: int)
    requires CommonCentury(c) && IsLeap(z) && z > c - 4
    ensures z >= c + 4
  {
    assert c % 4 == 0 && z % 4 == 0;
    assert z != c;
  }

  /** Inside the gap no 29 February lies in the window. */
  lemma NoLeapDayInGap(s: Schedule, start: int, c: int, u: int)
    requires WellFormed(s) && DomOnly(s) && !YearlyDate(s) && GapAt(s, c, start)
    requires Matches(s, u) && start <= u
    ensures FiveYearsLater(start) < u
  {
    OnlyLeapDays(s, u);
    var z := YearOfMinute(u);
    var h :| 0 <= h <= 23 && h in s.hour.values;
    var m :| 0 <= m <= 59 && m in s.minute.values;
    CenturyNeighbours(c);
    LeapDayMatch(s, c - 4, h, m);
    if z < c - 4 {
      EarlierYear(u, LeapDayMinute(c - 4, h, m));
    }
    assert z != c - 4;
    GapYears(c, z);
    DeadlineDate(start);
    MarchClock(c - 1);
    if YearOfMinute(start) >= c {
      EarlierYear(FirstOfMarch(c - 1), start);
    } else if YearOfMinute(start) < c - 1 || z > c + 4 {
      EarlierYear(FiveYearsLater(start), u);
    } else {
      DeadlineBeforeLeapDay(start, c, u);
    }
  }

  lemma DeadlineBeforeLeapDay(start: int, c: int, u: int)
    requires CommonCentury(c) && YearOfMinute(start) == c - 1
    requires start < FirstOfMarch(c - 1)
    requires DateOf(DayOfMinute(u)) == Date(c + 4, 2, 29)
    ensures FiveYearsLater(start) < u
  {
    var d := DateOf(DayOfMinute(start));
    var march := Date(c - 1, 3, 1);
    MarchClock(c - 1);
    EarlierDay(start, FirstOfMarch(c - 1));
    assert d != march by {
      MinuteFromClock(start);
    }
    if d.month > 3 {
      DatesOrdered(march, d);
    }
    assert d.month <= 2;
    assert d.day <= 28 || d.month == 1;
    DeadlineDate(start);
    var e := d.(year := c + 4);
    assert DayNumber(e) < DayNumber(Date(c + 4, 2, 29)) by {
      if d.month == 1 {
        assert DaysBeforeMonth(IsLeap(c + 4), 2) == 31;
      }
    }
    MinuteFromClock(u);
    LaterDayLaterMinute(DayNumber(e), DayNumber(Date(c + 4, 2, 29)), HourOf(start), MinuteOf(start), HourOf(u),
                        MinuteOf(u));
  }

  /** When Next succeeds, for every well-formed schedule and every instant: exactly when some date is
      yearly or the weekday can decide, or else 29 February is listed and the start lies outside the
      eight-year gap around a common century. */
  lemma NextSucceedsExactlyWhen(s: Schedule, after: Time)
    requires WellFormed(s)
    ensures NextMinute(s, after).Some? <==>
            (!DomOnly(s) || YearlyDate(s) || (ListsLeapDay(s) && !InLeapGap(s, StartMinute(after))))
  {
    var start := StartMinute(after);
    if !DomOnly(s) || YearlyDate(s) {
      var t := YearlyMatch(s, YearOfMinute(start) + 1);
      InWindow(start, t);
      FoundInWindow(s, after, t);
    } else if ListsLeapDay(s) && !InLeapGap(s, start) {
      LeapDayOutsideGap(s, after);
    } else if NextMinute(s, after).Some? {
      var u := NextMinute(s, after).value;
      FirstMatchIsLeast(s, start, FiveYearsLater(start));
      OnlyLeapDays(s, u);
      var c :| GapAt(s, c, start);
      NoLeapDayInGap(s, start, c, u);
    }
  }

  /** A schedule accepted once is accepted at every instant outside the leap-day gap. */
  lemma AcceptedScheduleKeepsFiring(s: Schedule, a: Time, b: Time)
    requires WellFormed(s) && NextMinute(s, a).Some?
    ensures NextMinute(s, b).None? <==> DomOnly(s) && !YearlyDate(s) && InLeapGap(s, StartMinute(b))
  {
    NextSucceedsExactlyWhen(s, a);
    NextSucceedsExactlyWhen(s, b);
  }

  /** The answer comes by the end of the next calendar year, or it is a 29 February. */
  lemma NextComesSoon(s: Schedule, after: Time)
    requires WellFormed(s) && NextMinute(s, after).Some?
    ensures var m := NextMinute(s, after).value;
            || YearOfMinute(m) <= YearOfMinute(StartMinute(after)) + 1
            || (DateOf(DayOfMinute(m)).month == 2 && DateOf(DayOfMinute(m)).day == 29)
  {
    var start := StartMinute(after);
    var m := NextMinute(s, after).value;
    NextIsLeastMatch(s, after);
    if !DomOnly(s) || YearlyDate(s) {
      var t := YearlyMatch(s, YearOfMinute(start) + 1);
      InWindow(start, t);
      FoundInWindow(s, after, t);
      if YearOfMinute(t) < YearOfMinute(m) {
        EarlierYear(t, m);
      }
    } else {
      OnlyLeapDays(s, m);
    }
  }

  /** The answer stays the same until it is reached, although from 29 February to 1 March the deadline can
      move backwards. */
  lemma NextStable(s: Schedule, a: Time, b: Time)
    requires WellFormed(s) && NextMinute(s, a).Some?
    requires a <= b < NextMinute(s, a).value * MINUTE
    ensures NextMinute(s, b) == NextMinute(s, a)
  {
    var m := NextMinute(s, a).value;
    var p, q := StartMinute(a), StartMinute(b);
    StartsOrdered(a, b, m);
    FirstMatchIsLeast(s, p, FiveYearsLater(p));
    NextComesSoon(s, a);
    StillInWindow(p, q, m);
    FirstMatchUnique(s, q, FiveYearsLater(q), m);
  }

  lemma StartsOrdered(a: Time, b: Time, m: int)
    requires a <= b < m * MINUTE
    ensures StartMinute(a) <= StartMinute(b) <= m
  {
  }

  lemma FiveYearsAfterLeap(y: int)
    requires IsLeap(y)
    ensures !IsLeap(y + 5)
  {
    assert (y + 5) % 4 == 1;
  }

  /** No 29 February lies in the year of a deadline that is five years after a leap year. */
  lemma NotInDeadlineYear(y: int, m: int)
    requires IsLeap(y) && YearOfMinute(m) <= y + 5
    requires YearOfMinute(m) <= y + 1 || (DateOf(DayOfMinute(m)).month == 2 && DateOf(DayOfMinute(m)).day == 29)
    ensures YearOfMinute(m) < y + 5
  {
    FiveYearsAfterLeap(y);
  }

  lemma WindowEndsInYear(p: int, m: int)
    requires m <= FiveYearsLater(p)
    ensures YearOfMinute(m) <= YearOfMinute(p) + 5
  {
    DeadlineDate(p);
    if YearOfMinute(m) > YearOfMinute(p) + 5 {
      EarlierYear(FiveYearsLater(p), m);
    }
  }

  lemma StillInLeapWindow(p: int, q: int, m: int)
    requires m <= FiveYearsLater(p) && IsLeap(YearOfMinute(p)) && YearOfMinute(q) == YearOfMinute(p)
    requires YearOfMinute(m) <= YearOfMinute(p) + 1
             || (DateOf(DayOfMinute(m)).month == 2 && DateOf(DayOfMinute(m)).day == 29)
    ensures m <= FiveYearsLater(q)
  {
    WindowEndsInYear(p, m);
    NotInDeadlineYear(YearOfMinute(p), m);
    DeadlineDate(q);
    EarlierYear(m, FiveYearsLater(q));
  }

  /** A minute in the window of p stays in the window of a later start q, if it comes as soon as answers do. */
  lemma StillInWindow(p: int, q: int, m: int)
    requires p <= q <= m <= FiveYearsLater(p)
    requires YearOfMinute(m) <= YearOfMinute(p) + 1
             || (DateOf(DayOfMinute(m)).month == 2 && DateOf(DayOfMinute(m)).day == 29)
    ensures m <= FiveYearsLater(q)
  {
    var d := DateOf(DayOfMinute(p));
    if d.month == 2 && d.day == 29 && DateOf(DayOfMinute(q)) == Date(d.year, 3, 1) {
      StillInLeapWindow(p, q, m);
    } else {
      DeadlineMonotone(p, q);
    }
  }

  /** Midnight on 29 February, by the day of month alone. */
  ghost predicate LeapMidnight(s: Schedule) {
    && s.minute == Field({0}, false) && s.hour == Field({0}, false) && s.dom == Field({29}, false)
    && s.month == Field({2}, false) && s.dow.all && WellFormed(s)
  }

  /** Four years before a common century, the next run of such a schedule is the 29 February of that year. */
  lemma LastLeapMidnight(s: Schedule, c: int, a: Time)
    requires LeapMidnight(s) && CommonCentury(c) && DateOf(DayOfMinute(StartMinute(a))) == Date(c - 4, 1, 1)
    ensures NextMinute(s, a) == Some(LeapDayMinute(c - 4, 0, 0))
  {
    assert 0 in s.minute.values && 0 in s.hour.values && 29 in s.dom.values && 2 in s.month.values;
    CenturyNeighbours(c);
    LeapDayMatch(s, c - 4, 0, 0);
    DatesOrdered(Date(c - 4, 1, 1), Date(c - 4, 2, 29));
    EarlierDay(StartMinute(a), LeapDayMinute(c - 4, 0, 0));
    LeapDayThisYear(s, a, 0, 0);
    NextIsLeastMatch(s, a);
    var u := NextMinute(s, a).value;
    OnlyLeapDays(s, u);
    FirstMatchIsLeast(s, StartMinute(a), FiveYearsLater(StartMinute(a)));
    if YearOfMinute(u) < c - 4 {
      EarlierYear(u, StartMinute(a));
    } else if YearOfMinute(u) > c - 4 {
      EarlierYear(LeapDayMinute(c - 4, 0, 0), u);
    }
  }

  /** From that run until 1 March three years later, it has no next run. */
  lemma LeapMidnightGoesSilent(s: Schedule, c: int, b: Time)
    requires LeapMidnight(s) && CommonCentury(c)
    requires LeapDayMinute(c - 4, 0, 0) < StartMinute(b) < FirstOfMarch(c - 1)
    ensures NextMinute(s, b).None?
  {
    assert forall h, m :: h in s.hour.values && m in s.minute.values ==> h == 0 && m == 0;
    assert GapAt(s, c, StartMinute(b));
    NoYearlyLeapMidnight(s);
    NextSucceedsExactlyWhen(s, b);
  }

  lemma NoYearlyLeapMidnight(s: Schedule)
    requires LeapMidnight(s)
    ensures DomOnly(s) && !YearlyDate(s)
  {
  }
}
