/** A parsed schedule: which minutes match, and the minute-by-minute search for the next one. */
module CronSchedule {
  import opened Prelude
  import opened Calendar

  /** `all` records that the field was the literal "*". */
  datatype Field = Field(values: set<int>, all: bool)

  datatype Schedule = Schedule(minute: Field, hour: Field, dom: Field, month: Field, dow: Field)

  /** The day rule: day of month and day of week are alternatives only when neither is a literal "*". */
  predicate DayMatches(s: Schedule, day: int, weekday: int) {
    if s.dom.all && s.dow.all then true
    else if s.dom.all then weekday in s.dow.values
    else if s.dow.all then day in s.dom.values
    else day in s.dom.values || weekday in s.dow.values
  }

  /** Whether minute t (counted from the Unix epoch) matches, read off the calendar. */
  ghost predicate Matches(s: Schedule, t: int) {
    && MinuteOf(t) in s.minute.values
    && HourOf(t) in s.hour.values
    && DateOf(DayOfMinute(t)).month in s.month.values
    && DayMatches(s, DateOf(DayOfMinute(t)).day, WeekdayOf(DayOfMinute(t)))
  }

  /** Whether the schedule lists the time of day and the month of minute t. */
  ghost predicate TimeListed(s: Schedule, t: int) {
    MinuteOf(t) in s.minute.values && HourOf(t) in s.hour.values && DateOf(DayOfMinute(t)).month in s.month.values
  }

  /** What matching means. At a listed time every day matches if both day fields are stars; if one is, the other
      decides alone; if neither is, it is enough that the day of the month or the day of the week is listed. */
  lemma MatchesMeans(s: Schedule, t: int)
    ensures var day, weekday := DateOf(DayOfMinute(t)).day, WeekdayOf(DayOfMinute(t));
            && (s.dom.all && s.dow.all ==> (Matches(s, t) <==> TimeListed(s, t)))
            && (s.dom.all && !s.dow.all ==> (Matches(s, t) <==> TimeListed(s, t) && weekday in s.dow.values))
            && (!s.dom.all && s.dow.all ==> (Matches(s, t) <==> TimeListed(s, t) && day in s.dom.values))
            && (!s.dom.all && !s.dow.all
                ==> (Matches(s, t) <==> TimeListed(s, t) && (day in s.dom.values || weekday in s.dow.values)))
  {
  }

  /** Schedule.matches, on the computed clock reading. */
  predicate MatchesClock(s: Schedule, t: int): (b: bool)
    ensures b == Matches(s, t)
    ensures s.dom.all && s.dow.all ==> b == TimeListed(s, t)
    ensures s.dom.all && !s.dow.all ==> b == (TimeListed(s, t) && WeekdayOf(DayOfMinute(t)) in s.dow.values)
    ensures !s.dom.all && s.dow.all ==> b == (TimeListed(s, t) && DateOf(DayOfMinute(t)).day in s.dom.values)
    ensures !s.dom.all && !s.dow.all
            ==> b == (TimeListed(s, t) && (DateOf(DayOfMinute(t)).day in s.dom.values
                                           || WeekdayOf(DayOfMinute(t)) in s.dow.values))
  {
    CivilDateIsDate(DayOfMinute(t));
    var date := CivilDate(DayOfMinute(t));
    if MinuteOf(t) !in s.minute.values || HourOf(t) !in s.hour.values || date.month !in s.month.values then false
    else DayMatches(s, date.day, WeekdayOf(DayOfMinute(t)))
  }

  /** The least matching minute in [from, deadline]. */
  ghost function FirstMatch(s: Schedule, from: int, deadline: int): Option<int>
    decreases deadline - from
  {
    if from > deadline then None
    else if Matches(s, from) then Some(from)
    else FirstMatch(s, from + 1, deadline)
  }

  /** The first whole minute strictly after an instant. */
  function StartMinute(after: Time): (m: int)
    ensures (m - 1) * MINUTE <= after < m * MINUTE
  {
    after / MINUTE + 1
  }

  /** The minute found by Schedule.Next, or None when five years hold no match. */
  ghost function NextMinute(s: Schedule, after: Time): Option<int> {
    FirstMatch(s, StartMinute(after), FiveYearsLater(StartMinute(after)))
  }

  /** The loop of Schedule.Next: steps a candidate one minute at a time up to the deadline. */
  method Search(s: Schedule, start: int, deadline: int) returns (r: Option<int>)
    ensures r == FirstMatch(s, start, deadline)
  {
    var candidate := start;
    while candidate <= deadline
      invariant FirstMatch(s, start, deadline) == FirstMatch(s, candidate, deadline)
    {
      if MatchesClock(s, candidate) {
        return Some(candidate);
      }
      candidate := candidate + 1;
    }
    return None;
  }

  /** Schedule.Next: on success the first matching minute after the argument; failure means that the
      whole window, its deadline included, holds no match. */
  method Next(s: Schedule, after: Time) returns (r: Option<Time>)
    ensures r == match NextMinute(s, after) case None => None case Some(m) => Some(m * MINUTE)
  {
    var start := StartMinute(after);
    var found := Search(s, start, AddFiveYears(start));
    r := match found case None => None case Some(m) => Some(m * MINUTE);
  }

  /** It is a match, nothing before it is, and there is none only when nothing in the interval matches. */
  lemma {:induction false} FirstMatchIsLeast(s: Schedule, from: int, deadline: int)
    ensures var r := FirstMatch(s, from, deadline);
            && (r.Some? ==> from <= r.value <= deadline && Matches(s, r.value)
                            && forall u :: from <= u < r.value ==> !Matches(s, u))
            && (r.None? ==> forall u :: from <= u <= deadline ==> !Matches(s, u))
    decreases deadline - from
  {
    if from <= deadline && !Matches(s, from) {
      FirstMatchIsLeast(s, from + 1, deadline);
    }
  }

  lemma {:induction false} FirstMatchUnique(s: Schedule, from: int, deadline: int, m: int)
    requires from <= m <= deadline && Matches(s, m)
    requires forall u :: from <= u < m ==> !Matches(s, u)
    ensures FirstMatch(s, from, deadline) == Some(m)
    decreases m - from
  {
    if from < m {
      FirstMatchUnique(s, from + 1, deadline, m);
    }
  }

  /** Success is minute-aligned, strictly later than the argument, a match, and no aligned minute in between
      matches; failure happens exactly when no minute of the closed window matches. */
  lemma NextIsLeastMatch(s: Schedule, after: Time)
    ensures var r := NextMinute(s, after);
            && (r.Some? ==> after < r.value * MINUTE && Matches(s, r.value)
                            && forall u :: after < u * MINUTE && u < r.value ==> !Matches(s, u))
            && (r.None?
                <==> forall u :: StartMinute(after) <= u <= FiveYearsLater(StartMinute(after)) ==> !Matches(s, u))
  {
    var r := NextMinute(s, after);
    var start := StartMinute(after);
    FirstMatchIsLeast(s, start, FiveYearsLater(start));
    if r.Some? {
      forall u | after < u * MINUTE && u < r.value ensures !Matches(s, u) {
        assert start <= u;
      }
    }
  }

  /** The same on the fields: the answer is at a listed time, and so is a day of it that the day fields list; and no
      listed time in between falls on a listed day, where either day field will do when neither is a star. */
  lemma NextSkipsNoListedDay(s: Schedule, after: Time, u: int)
    requires NextMinute(s, after).Some?
    requires after < u * MINUTE && u <= NextMinute(s, after).value && TimeListed(s, u)
    ensures TimeListed(s, NextMinute(s, after).value)
    ensures var day, weekday := DateOf(DayOfMinute(u)).day, WeekdayOf(DayOfMinute(u));
            u == NextMinute(s, after).value
            <==> || (s.dom.all && s.dow.all)
                 || (!s.dow.all && weekday in s.dow.values)
                 || (!s.dom.all && day in s.dom.values)
  {
    NextIsLeastMatch(s, after);
    MatchesMeans(s, u);
    MatchesMeans(s, NextMinute(s, after).value);
  }

  /** When both searches succeed, a later argument never yields an earlier answer. */
  lemma NextMonotone(s: Schedule, a: Time, b: Time)
    requires a <= b
    requires NextMinute(s, a).Some? && NextMinute(s, b).Some?
    ensures NextMinute(s, a).value <= NextMinute(s, b).value
  {
    var p, q := StartMinute(a), StartMinute(b);
    assert p <= q;
    FirstMatchIsLeast(s, p, FiveYearsLater(p));
    FirstMatchIsLeast(s, q, FiveYearsLater(q));
  }

  /** Shifting two dates of one year by five years keeps their order, but for 29 February and 1 March. */
  lemma DeadlineDaysOrderedWithinYear(d: Date, e: Date)
    requires ValidDate(d) && ValidDate(e) && d.year == e.year && d.month <= e.month
    requires DayNumber(d) < DayNumber(e)
    requires !(d.month == 2 && d.day == 29 && e.month == 3 && e.day == 1)
    ensures DayNumber(Date(d.year + 5, d.month, d.day)) < DayNumber(Date(e.year + 5, e.month, e.day))
  {
    var a, b := IsLeap(d.year), IsLeap(d.year + 5);
    LeapShift(a, b, d.month);
    LeapShift(a, b, e.month);
    if d.month <= 2 < e.month {
      MonthsOrdered(a, d.month + 1, 3);
      MonthsOrdered(a, 3, e.month);
      assert DaysBeforeMonth(a, d.month + 1) == DaysBeforeMonth(a, d.month) + DaysInMonth(a, d.month);
    }
  }

  lemma DeadlineDaysOrdered(d: Date, e: Date)
    requires ValidDate(d) && ValidDate(e)
    requires DayNumber(d) < DayNumber(e)
    requires !(d.month == 2 && d.day == 29 && e == Date(d.year, 3, 1))
    ensures DayNumber(Date(d.year + 5, d.month, d.day)) < DayNumber(Date(e.year + 5, e.month, e.day))
  {
    if e.year < d.year || (e.year == d.year && e.month < d.month) {
      DatesOrdered(e, d);
    } else if d.year < e.year {
      DeadlineWithinYear(d);
      DeadlineWithinYear(e);
      YearsOrdered(d.year + 6, e.year + 5);
    } else {
      DeadlineDaysOrderedWithinYear(d, e);
    }
  }

  /** Leap years push every month after February one day later. */
  lemma {:induction false} LeapShift(a: bool, b: bool, m: int)
    requires 1 <= m <= 13
    ensures DaysBeforeMonth(a, m) - DaysBeforeMonth(b, m) == if m <= 2 || a == b then 0 else if a then 1 else -1
  {
    if m > 1 {
      LeapShift(a, b, m - 1);
    }
  }

  lemma DeadlineWithinYear(d: Date)
    requires ValidDate(d)
    ensures DaysBeforeYear(d.year + 5) <= DayNumber(Date(d.year + 5, d.month, d.day)) < DaysBeforeYear(d.year + 6)
  {
    var e := Date(d.year + 5, d.month, d.day);
    if ValidDate(e) {
      DayWithinYear(e);
    } else {
      assert e.month == 2 && e.day == 29 && !IsLeap(e.year);
      var f := Date(e.year, 3, 1);
      DayWithinYear(f);
      assert DayNumber(f) == DayNumber(e) by {
        MonthTotals(false);
        assert DaysBeforeMonth(false, 2) == 31;
      }
    }
  }

  /** Moving the start forward moves the deadline forward, except from 29 February to the following day,
      whose deadlines share the date 1 March. */
  lemma DeadlineMonotone(p: int, q: int)
    requires p <= q
    requires var d := DateOf(DayOfMinute(p));
             !(d.month == 2 && d.day == 29 && DateOf(DayOfMinute(q)) == Date(d.year, 3, 1))
    ensures FiveYearsLater(p) <= FiveYearsLater(q)
  {
    var n, k := DayOfMinute(p), DayOfMinute(q);
    MinuteFromClock(p);
    MinuteFromClock(q);
    if n < k {
      var d, e := DateOf(n), DateOf(k);
      DeadlineDaysOrdered(d, e);
      LaterDayLaterMinute(DayNumber(Date(d.year + 5, d.month, d.day)), DayNumber(Date(e.year + 5, e.month, e.day)),
                          HourOf(p), MinuteOf(p), HourOf(q), MinuteOf(q));
    }
  }
}
