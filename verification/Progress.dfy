/** Progress of cron jobs: when, and exactly when, the run that is stored next lies after all recorded runs. */
module Progress {
  import opened Prelude
  import opened Keys
  import opened Tables
  import opened Transactions
  import opened Protocol
  import opened History
  import opened CronRuns
  import CronSyntax
  import CronSchedule

  /** Answers are whole minutes after the instant asked about that a schedule admits, and the first such. */
  ghost predicate FindsFirst(ev: Evaluator, admits: (string, int) -> bool) {
    forall schedule, t :: ev.next(schedule, t).Some? ==> IsFirstAfter(schedule, t, ev.next(schedule, t).value, admits)
  }

  ghost predicate IsFirstAfter(schedule: string, t: Time, answer: Time, admits: (string, int) -> bool) {
    && answer > t && answer == answer / MINUTE * MINUTE && admits(schedule, answer / MINUTE)
    && forall u :: t < u * MINUTE < answer ==> !admits(schedule, u)
  }

  /** No recorded run of c lies after t. */
  ghost predicate RunsUpTo(db: Database, c: Uuid, t: Time) {
    forall r :: r in db.runs && r.cron == c ==> r.minute * MINUTE <= t
  }

  /** Every recorded run is a minute that its cron job's schedule admits. */
  ghost predicate RunsAdmitted(db: Database, admits: (string, int) -> bool) {
    forall r :: r in db.runs ==> r.cron in db.crons && admits(db.crons[r.cron].schedule, r.minute)
  }

  /** The stored next run lies after every recorded run. */
  ghost predicate NextAfterRuns(db: Database, c: Uuid)
    requires c in db.crons
  {
    forall r :: r in db.runs && r.cron == c ==> r.minute * MINUTE < db.crons[c].nextRunAt
  }

  // Recorded runs are admitted by their schedules, whatever the clocks do.

  lemma StepKeepsRunAdmitted(db: Database, e: Event, r: RunKey, t: Time, ev: Evaluator, admits: (string, int) -> bool)
    requires RowsMatch(db, e) && CronAnswers(db, e, ev) && FindsFirst(ev, admits)
    requires r.cron in db.crons && EvaluatedAt(db, r.cron, t, ev)
    requires r in db.runs ==> admits(db.crons[r.cron].schedule, r.minute)
    requires r in Apply(db, e).runs
    ensures r.cron in Apply(db, e).crons && admits(Apply(db, e).crons[r.cron].schedule, r.minute)
  {
    if !CronEvent(e) {
      CronsUntouched(db, e);
    } else if e.EFire? && Transact(db, e).Some? {
      if Fires(e.fires, r.cron) {
        var i :| 0 <= i < |e.fires| && e.fires[i].cron == r.cron;
        FireThisCron(db, e.dbNow, e.scheduler, e.fires, i);
        assert FireAnswers(db, e.now, e.fires[i], ev);
        assert IsFirstAfter(db.crons[r.cron].schedule, t, db.crons[r.cron].nextRunAt, admits);
      } else {
        FireOtherCron(db, e.dbNow, e.scheduler, e.fires, r.cron);
      }
    }
  }

  lemma {:induction false} RunsAlwaysAdmitted(states: seq<Database>, events: seq<Event>, m: nat, ev: Evaluator,
                                              admits: (string, int) -> bool)
    requires AnsweredRun(states, events, ev) && FindsFirst(ev, admits) && m < |states|
    ensures RunsAdmitted(states[m], admits)
  {
    if m > 0 {
      RunsAlwaysAdmitted(states, events, m - 1, ev, admits);
      StepOf(states, events, m - 1);
      forall r | r in states[m].runs
        ensures r.cron in states[m].crons && admits(states[m].crons[r.cron].schedule, r.minute)
      {
        RunOfKnownCron(states[m - 1], events[m - 1], r);
        AlwaysEvaluated(states, events, m - 1, r.cron, ev);
        StepKeepsRunAdmitted(states[m - 1], events[m - 1], r, LastEvaluation(states, events, m - 1, r.cron).value, ev,
                             admits);
      }
    }
  }

  /** A run that is recorded after a step belongs to a cron job known before it. */
  lemma RunOfKnownCron(db: Database, e: Event, r: RunKey)
    requires RowsMatch(db, e) && r in Apply(db, e).runs
    requires r in db.runs ==> r.cron in db.crons
    ensures r.cron in db.crons
  {
    if !CronEvent(e) {
      CronsUntouched(db, e);
    } else if e.EFire? && Transact(db, e).Some? {
      if Fires(e.fires, r.cron) {
        var i :| 0 <= i < |e.fires| && e.fires[i].cron == r.cron;
        FireThisCron(db, e.dbNow, e.scheduler, e.fires, i);
      } else {
        FireOtherCron(db, e.dbNow, e.scheduler, e.fires, r.cron);
      }
    }
  }

  // Exactly when the next run lies after the recorded ones.

  /** After an evaluation at t: if and only if no recorded run lies after t. */
  lemma NextAfterRunsExactly(db: Database, c: Uuid, t: Time, ev: Evaluator, admits: (string, int) -> bool)
    requires FindsFirst(ev, admits) && RunsAdmitted(db, admits) && c in db.crons && EvaluatedAt(db, c, t, ev)
    ensures NextAfterRuns(db, c) <==> RunsUpTo(db, c, t)
  {
    assert IsFirstAfter(db.crons[c].schedule, t, db.crons[c].nextRunAt, admits);
    forall r | r in db.runs && r.cron == c && r.minute * MINUTE > t ensures r.minute * MINUTE >= db.crons[c].nextRunAt {
      assert admits(db.crons[c].schedule, r.minute);
    }
  }

  /** After enabling: if and only if no recorded run of the job lies after the instant of enabling. */
  lemma EnablingExactly(db: Database, c: Uuid, now: Time, next: Option<Time>, ev: Evaluator,
                        admits: (string, int) -> bool)
    requires FindsFirst(ev, admits) && RunsAdmitted(db, admits) && c in db.crons
    requires next == ev.next(db.crons[c].schedule, now) && next.Some?
    ensures var d := Apply(db, ESetCron(now, c, true, next));
            c in d.crons && (NextAfterRuns(d, c) <==> RunsUpTo(db, c, now))
  {
    NextAfterRunsExactly(Apply(db, ESetCron(now, c, true, next)), c, now, ev, admits);
  }

  /** Whether a step enables cron job c at an instant before one of its recorded runs. */
  ghost predicate EarlyEnable(db: Database, e: Event, c: Uuid) {
    e.ESetCron? && Evaluates(db, e, c) && !RunsUpTo(db, c, e.now)
  }

  /** A fire is due, so its run is not in the future, and the clock has passed the last evaluation. */
  lemma FireKeepsRunsUpTo(db: Database, e: Event, c: Uuid, t: Time, ev: Evaluator, admits: (string, int) -> bool)
    requires e.EFire? && RowsMatch(db, e) && CronAnswers(db, e, ev) && Transact(db, e).Some? && FindsFirst(ev, admits)
    requires c in db.crons && EvaluatedAt(db, c, t, ev) && RunsUpTo(db, c, t)
    ensures RunsUpTo(Apply(db, e), c, if Fires(e.fires, c) then e.now else t)
  {
    if Fires(e.fires, c) {
      var i :| 0 <= i < |e.fires| && e.fires[i].cron == c;
      FireThisCron(db, e.dbNow, e.scheduler, e.fires, i);
      assert e.fires[i] in e.fires && FireAnswers(db, e.now, e.fires[i], ev);
      assert e.fires[i].minute * MINUTE <= db.crons[c].nextRunAt <= e.now;
      assert IsFirstAfter(db.crons[c].schedule, t, db.crons[c].nextRunAt, admits);
    } else {
      FireOtherCron(db, e.dbNow, e.scheduler, e.fires, c);
    }
  }

  lemma StepKeepsRunsUpTo(db: Database, e: Event, c: Uuid, t: Time, ev: Evaluator, admits: (string, int) -> bool)
    requires RowsMatch(db, e) && CronAnswers(db, e, ev) && FindsFirst(ev, admits)
    requires c in db.crons && EvaluatedAt(db, c, t, ev) && RunsUpTo(db, c, t)
    requires !EarlyEnable(db, e, c)
    ensures RunsUpTo(Apply(db, e), c, if Evaluates(db, e, c) then e.now else t)
  {
    if !CronEvent(e) {
      CronsUntouched(db, e);
    } else if e.EFire? && Transact(db, e).Some? {
      FireKeepsRunsUpTo(db, e, c, t, ev, admits);
    }
  }

  lemma {:induction false} RunsPrecedeEvaluation(states: seq<Database>, events: seq<Event>, m: nat, c: Uuid,
                                                 ev: Evaluator, admits: (string, int) -> bool)
    requires AnsweredRun(states, events, ev) && FindsFirst(ev, admits) && m < |states| && c in states[m].crons
    requires forall i :: 0 <= i < m ==> !EarlyEnable(states[i], events[i], c)
    ensures LastEvaluation(states, events, m, c).Some?
    ensures RunsUpTo(states[m], c, LastEvaluation(states, events, m, c).value)
  {
    if m > 0 {
      StepOf(states, events, m - 1);
      AlwaysEvaluated(states, events, m, c, ev);
      if c in states[m - 1].crons {
        RunsPrecedeEvaluation(states, events, m - 1, c, ev, admits);
        AlwaysEvaluated(states, events, m - 1, c, ev);
        StepKeepsRunsUpTo(states[m - 1], events[m - 1], c, LastEvaluation(states, events, m - 1, c).value, ev, admits);
      } else {
        RunsKnown(states, events, m - 1);
        NewCronIsEvaluated(states[m - 1], events[m - 1], c, ev);
      }
    }
  }

  lemma EarlyEnableShows(states: seq<Database>, events: seq<Event>, i: nat, c: Uuid, ev: Evaluator,
                         admits: (string, int) -> bool)
    requires AnsweredRun(states, events, ev) && FindsFirst(ev, admits) && i < |events|
    requires EarlyEnable(states[i], events[i], c)
    ensures c in states[i + 1].crons && !NextAfterRuns(states[i + 1], c)
  {
    StepOf(states, events, i);
    RunsAlwaysAdmitted(states, events, i, ev, admits);
    assert CronAnswers(states[i], events[i], ev);
    EnablingExactly(states[i], c, events[i].now, events[i].next, ev, admits);
  }

  /** For a whole run: the next run of a cron job lies after its recorded runs in every state so far if and only if
      no enabling so far was dated before a recorded run of the job. Schedulers may fire on any clocks. */
  lemma ProgressExactlyWhen(states: seq<Database>, events: seq<Event>, m: nat, c: Uuid, ev: Evaluator,
                            admits: (string, int) -> bool)
    requires AnsweredRun(states, events, ev) && FindsFirst(ev, admits) && m < |states|
    ensures (forall x :: 0 <= x <= m && c in states[x].crons ==> NextAfterRuns(states[x], c))
            <==> (forall i :: 0 <= i < m ==> !EarlyEnable(states[i], events[i], c))
  {
    if forall i :: 0 <= i < m ==> !EarlyEnable(states[i], events[i], c) {
      forall x | 0 <= x <= m && c in states[x].crons ensures NextAfterRuns(states[x], c) {
        RunsPrecedeEvaluation(states, events, x, c, ev, admits);
        RunsAlwaysAdmitted(states, events, x, ev, admits);
        AlwaysEvaluated(states, events, x, c, ev);
        NextAfterRunsExactly(states[x], c, LastEvaluation(states, events, x, c).value, ev, admits);
      }
    } else {
      var i :| 0 <= i < m && EarlyEnable(states[i], events[i], c);
      EarlyEnableShows(states, events, i, c, ev, admits);
    }
  }

  // The cron evaluator.

  /** Whether a minute matches a schedule's text. */
  ghost predicate MinuteMatches(schedule: string, minute: int) {
    CronSyntax.ScheduleOf(schedule).Some? && CronSchedule.Matches(CronSyntax.ScheduleOf(schedule).value, minute)
  }

  ghost const MATCHING: (string, int) -> bool := MinuteMatches

  lemma CronFindsFirst()
    ensures FindsFirst(CRON, MATCHING)
  {
    forall schedule, t | CRON.next(schedule, t).Some?
      ensures IsFirstAfter(schedule, t, CRON.next(schedule, t).value, MATCHING)
    {
      AnswerIsNextMatch(schedule, t);
    }
  }

  /** Progress: a fire's minute matches the schedule and is the first match after the job's previous evaluation, on any
      clocks. It lies strictly after every recorded run exactly when no recorded run lies after that evaluation; and
      so it does, and the conflict branch is not taken, if no enabling so far was dated before a recorded run. */
  lemma CronProgress(states: seq<Database>, events: seq<Event>, i: nat, f: Fire)
    requires AnsweredRun(states, events, CRON) && i < |events|
    requires events[i].EFire? && f in events[i].fires
    ensures f.cron in states[i].crons && LastEvaluation(states, events, i, f.cron).Some?
    ensures var t := LastEvaluation(states, events, i, f.cron).value;
            && t < f.minute * MINUTE && MinuteMatches(states[i].crons[f.cron].schedule, f.minute)
            && (forall u :: t < u * MINUTE && u < f.minute ==> !MinuteMatches(states[i].crons[f.cron].schedule, u))
            && ((forall r :: r in states[i].runs && r.cron == f.cron ==> r.minute < f.minute)
                <==> RunsUpTo(states[i], f.cron, t))
    ensures (forall x :: 0 <= x < i ==> !EarlyEnable(states[x], events[x], f.cron))
            ==> RunsUpTo(states[i], f.cron, LastEvaluation(states, events, i, f.cron).value)
                && RunKey(f.cron, f.minute) !in states[i].runs
  {
    StepOf(states, events, i);
    var x :| 0 <= x < |events[i].fires| && events[i].fires[x] == f;
    assert CronAnswers(states[i], events[i], CRON) && FireAnswers(states[i], events[i].now, f, CRON);
    AlwaysEvaluated(states, events, i, f.cron, CRON);
    CronFindsFirst();
    var t := LastEvaluation(states, events, i, f.cron).value;
    FireIsFirst(states[i], events[i].now, f, t);
    RunsAlwaysAdmitted(states, events, i, CRON, MATCHING);
    NextAfterRunsExactly(states[i], f.cron, t, CRON, MATCHING);
    if forall x :: 0 <= x < i ==> !EarlyEnable(states[x], events[x], f.cron) {
      RunsPrecedeEvaluation(states, events, i, f.cron, CRON, MATCHING);
    }
  }

  lemma FireIsFirst(db: Database, now: Time, f: Fire, t: Time)
    requires f.cron in db.crons && EvaluatedAt(db, f.cron, t, CRON) && FireAnswers(db, now, f, CRON)
    ensures f.minute * MINUTE == db.crons[f.cron].nextRunAt && t < f.minute * MINUTE
    ensures MinuteMatches(db.crons[f.cron].schedule, f.minute)
    ensures forall u :: t < u * MINUTE && u < f.minute ==> !MinuteMatches(db.crons[f.cron].schedule, u)
  {
    AnswerIsNextMatch(db.crons[f.cron].schedule, t);
  }
}
