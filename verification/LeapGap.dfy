/** Firing transactions that fail: a schedule of 29 February only, in the eight years without one, and what such a
    cron job does to the ticks of the schedulers. */
module LeapGap {
  import opened Prelude
  import opened Keys
  import opened Calendar
  import opened Tables
  import opened Transactions
  import opened Protocol
  import opened History
  import opened CronRuns
  import opened Progress
  import opened Leases
  import opened Queries
  import opened StoreModel
  import opened Scheduler
  import CronSyntax
  import CronSchedule
  import CronTexts
  import CronWindow

  // When a firing transaction fails.

  /** Each upsert of the transaction is handed a row that it can return, and no two the same. */
  ghost predicate UpsertsReturn(db: Database, fires: seq<Fire>) {
    && (forall i :: 0 <= i < |fires| ==> Returns(db, fires[i]))
    && (forall i, j :: 0 <= i < j < |fires| ==> fires[i].job != fires[j].job)
  }

  lemma OtherReturns(db: Database, d: Database, now: Time, scheduler: string, first: Fire, f: Fire)
    requires FireOne(db, now, scheduler, first) == Some(d) && first.key != f.key
    ensures Returns(d, f) <==> Returns(db, f) && f.job != first.job
  {
    assert HasKey(d.jobs, Some(f.key)) <==> HasKey(db.jobs, Some(f.key)) by {
      if id :| id in db.jobs && db.jobs[id].key == Some(f.key) {
        assert d.jobs[id].key == Some(f.key);
      }
    }
  }

  lemma RestReturn(db: Database, d: Database, now: Time, scheduler: string, fires: seq<Fire>)
    requires fires != [] && FireOne(db, now, scheduler, fires[0]) == Some(d) && DistinctKeys(fires)
    ensures UpsertsReturn(d, fires[1..]) <==> UpsertsReturn(db, fires)
  {
    var rest := fires[1..];
    forall i | 0 <= i < |rest| ensures Returns(d, rest[i]) <==> Returns(db, rest[i]) && rest[i].job != fires[0].job {
      OtherReturns(db, d, now, scheduler, fires[0], rest[i]);
    }
    if UpsertsReturn(d, rest) {
      forall i | 0 <= i < |fires| ensures Returns(db, fires[i]) && (i > 0 ==> fires[0].job != fires[i].job) {
        assert i > 0 ==> fires[i] == rest[i - 1];
      }
      forall i, j | 0 <= i < j < |fires| ensures fires[i].job != fires[j].job {
        assert fires[j] == rest[j - 1] && (i > 0 ==> fires[i] == rest[i - 1]);
      }
    }
    if UpsertsReturn(db, fires) {
      forall i | 0 <= i < |rest| ensures Returns(d, rest[i]) {
        assert rest[i] == fires[i + 1];
      }
    }
  }

  /** A firing transaction fails if and only if one of its cron jobs has no next run or an upsert cannot return. */
  lemma {:induction false} FiringFailsExactlyWhen(db: Database, now: Time, scheduler: string, fires: seq<Fire>)
    requires DistinctKeys(fires) && forall i :: 0 <= i < |fires| ==> fires[i].cron in db.crons
    ensures FireAll(db, now, scheduler, fires).None?
            <==> !UpsertsReturn(db, fires) || exists i :: 0 <= i < |fires| && fires[i].next.None?
    decreases |fires|
  {
    if fires != [] && FireOne(db, now, scheduler, fires[0]).Some? {
      var d := FireOne(db, now, scheduler, fires[0]).value;
      FiringFailsExactlyWhen(d, now, scheduler, fires[1..]);
      RestReturn(db, d, now, scheduler, fires);
      if i :| 0 <= i < |fires| && fires[i].next.None? {
        assert fires[1..][i - 1].next.None?;
      }
    }
  }

  /** Whether a schedule names nothing but 29 February and the instant lies in the eight years without one. */
  ghost predicate InLeapGap(schedule: string, now: Time) {
    var s := CronSyntax.ScheduleOf(schedule);
    s.Some? && CronWindow.DomOnly(s.value) && !CronWindow.YearlyDate(s.value)
    && CronWindow.InLeapGap(s.value, CronSchedule.StartMinute(now))
  }

  /** A stored cron job has no next run at an instant exactly when it is in the leap-day gap. */
  lemma StoredScheduleFailsOnlyInLeapGap(states: seq<Database>, events: seq<Event>, m: nat, c: Uuid, now: Time)
    requires AnsweredRun(states, events, CRON) && m < |states| && c in states[m].crons
    ensures CronSyntax.ScheduleOf(states[m].crons[c].schedule).Some?
    ensures CronSyntax.NextRun(states[m].crons[c].schedule, now).None? <==> InLeapGap(states[m].crons[c].schedule, now)
  {
    AlwaysEvaluated(states, events, m, c, CRON);
    var schedule := states[m].crons[c].schedule;
    CronSyntax.ParsedIsWellFormed(schedule);
    CronWindow.AcceptedScheduleKeepsFiring(CronSyntax.ScheduleOf(schedule).value,
                                           LastEvaluation(states, events, m, c).value, now);
  }

  /** A firing transaction in a reachable state fails, undoing all its fires, if and only if one of its cron jobs is in
      the leap-day gap at the evaluating clock, whatever the clocks did before, or the identifier that it drew for a
      new job is taken. */
  lemma FiringFailsOnlyInLeapGap(states: seq<Database>, events: seq<Event>, m: nat, e: Event)
    requires AnsweredRun(states, events, CRON) && m < |states| && e.EFire?
    requires RowsMatch(states[m], e) && CronAnswers(states[m], e, CRON)
    ensures forall i :: 0 <= i < |e.fires| ==> e.fires[i].cron in states[m].crons
    ensures FireAll(states[m], e.dbNow, e.scheduler, e.fires).None?
            <==> || !UpsertsReturn(states[m], e.fires)
                 || exists i :: 0 <= i < |e.fires| && InLeapGap(states[m].crons[e.fires[i].cron].schedule, e.now)
  {
    forall i | 0 <= i < |e.fires|
      ensures e.fires[i].cron in states[m].crons
      ensures e.fires[i].next.None? <==> InLeapGap(states[m].crons[e.fires[i].cron].schedule, e.now)
    {
      assert e.fires[i] in e.fires && FireAnswers(states[m], e.now, e.fires[i], CRON);
      StoredScheduleFailsOnlyInLeapGap(states, events, m, e.fires[i].cron, e.now);
    }
    FiresHaveDistinctKeys(states[m], e);
    FiringFailsExactlyWhen(states[m], e.dbNow, e.scheduler, e.fires);
  }

  // One such cron job stops every tick.

  /** The other enabled cron jobs that may be picked before c. */
  ghost function Ahead(db: Database, c: Uuid): set<Uuid>
    requires c in db.crons
  {
    set d | d in db.crons && d != c && db.crons[d].enabled && db.crons[d].nextRunAt <= db.crons[c].nextRunAt
  }

  lemma FirstBatchPicks(db: Database, c: Uuid, now: Time, limit: nat, rows: seq<Uuid>)
    requires c in db.crons && db.crons[c].enabled && db.crons[c].nextRunAt <= now && |Ahead(db, c)| < limit
    requires OrderedLimit(DueCrons(db, now), limit, rows)
    ensures c in rows
  {
    var due := DueCrons(db, now);
    var picked := set id | id in rows;
    DistinctSize(rows);
    forall id | id in rows ensures id in due && (c !in rows ==> id in Ahead(db, c)) {
      var i :| 0 <= i < |rows| && rows[i] == id;
      assert c !in rows ==> AtMost(due[rows[i]], due[c]);
    }
    if c !in rows {
      assert picked <= Ahead(db, c);
      SubsetSize(picked, Ahead(db, c));
      assert picked <= due.Keys - {c};
      SubsetSize(picked, due.Keys - {c});
    }
  }

  lemma FiredHasNext(db: Database, e: Event, c: Uuid, ev: Evaluator)
    requires e.EFire? && RowsMatch(db, e) && CronAnswers(db, e, ev) && Transact(db, e).Some? && c in CronsOf(e.fires)
    ensures c in db.crons && ev.next(db.crons[c].schedule, e.now).Some?
  {
    var i :| 0 <= i < |e.fires| && CronsOf(e.fires)[i] == c;
    assert FireAnswers(db, e.now, e.fires[i], ev);
    FireThisCron(db, e.dbNow, e.scheduler, e.fires, i);
  }

  /** While a due cron job of the first batch has no next run, no firing transaction succeeds. */
  lemma FiringIsPoisoned(db: Database, d: Database, c: Uuid, now: Time, dbNow: Time, scheduler: string, batch: int,
                         r: FireResult)
    requires c in db.crons && db.crons[c].enabled && db.crons[c].nextRunAt <= now && |Ahead(db, c)| < BatchSize(batch)
    requires CRON.next(db.crons[c].schedule, now).None?
    requires FiringResult(db, d, now, dbNow, scheduler, batch, r)
    ensures r.FireFailed? && d == db
  {
    if r.Fired? {
      FirstBatchPicks(db, c, now, BatchSize(batch), CronsOf(r.fires));
      FiredHasNext(db, EFire(now, dbNow, scheduler, r.fires), c, CRON);
    }
  }

  /** Cron job c is due at an instant at which its schedule has no next run. */
  ghost predicate Stuck(db: Database, c: Uuid, now: Time, ev: Evaluator) {
    c in db.crons && db.crons[c].nextRunAt <= now && ev.next(db.crons[c].schedule, now).None?
  }

  predicate Disables(e: Event, c: Uuid) {
    e.ESetCron? && e.id == c && !e.enabled
  }

  lemma FireKeepsStuck(db: Database, e: Event, c: Uuid, ev: Evaluator, admits: (string, int) -> bool)
    requires e.EFire? && RowsMatch(db, e) && CronAnswers(db, e, ev) && FindsFirst(ev, admits)
    requires Stuck(db, c, e.now, ev) && Transact(db, e).Some?
    ensures var d := Apply(db, e); c in d.crons && d.crons[c] == db.crons[c] && Ahead(d, c) <= Ahead(db, c)
  {
    if i :| 0 <= i < |e.fires| && e.fires[i].cron == c {
      assert FireAnswers(db, e.now, e.fires[i], ev);
      FireThisCron(db, e.dbNow, e.scheduler, e.fires, i);
      assert false;
    }
    FireOtherCron(db, e.dbNow, e.scheduler, e.fires, c);
    forall o | o in Ahead(Apply(db, e), c) ensures o in Ahead(db, c) {
      FireOtherOrKnown(db, e, o);
      if i :| 0 <= i < |e.fires| && e.fires[i].cron == o {
        FireThisCron(db, e.dbNow, e.scheduler, e.fires, i);
        assert FireAnswers(db, e.now, e.fires[i], ev);
        assert IsFirstAfter(db.crons[o].schedule, e.now, e.fires[i].next.value, admits);
      } else {
        FireOtherCron(db, e.dbNow, e.scheduler, e.fires, o);
      }
    }
  }

  /** No step but disabling the stuck cron job changes its row, and none puts another cron job ahead of it. */
  lemma StepKeepsStuck(db: Database, e: Event, c: Uuid, ev: Evaluator, admits: (string, int) -> bool)
    requires RowsMatch(db, e) && CronAnswers(db, e, ev) && FindsFirst(ev, admits)
    requires c in db.crons && (CronEvent(e) ==> Stuck(db, c, e.now, ev)) && !Disables(e, c)
    ensures var d := Apply(db, e); c in d.crons && d.crons[c] == db.crons[c] && Ahead(d, c) <= Ahead(db, c)
  {
    if !CronEvent(e) {
      CronsUntouched(db, e);
    } else if e.EFire? {
      if Transact(db, e).Some? {
        FireKeepsStuck(db, e, c, ev, admits);
      }
    } else if Transact(db, e).Some? && e.next.Some? {
      var schedule := if e.ECreateCron? then e.cron.schedule else db.crons[e.id].schedule;
      assert IsFirstAfter(schedule, e.now, e.next.value, admits);
    }
  }

  lemma {:induction false} StaysStuck(states: seq<Database>, events: seq<Event>, m: nat, n: nat, c: Uuid, ev: Evaluator,
                                      admits: (string, int) -> bool)
    requires AnsweredRun(states, events, ev) && FindsFirst(ev, admits) && m <= n < |states| && c in states[m].crons
    requires forall x :: m <= x < n && CronEvent(events[x]) ==> Stuck(states[m], c, events[x].now, ev)
    requires forall x :: m <= x < n ==> !Disables(events[x], c)
    ensures c in states[n].crons && states[n].crons[c] == states[m].crons[c]
    ensures Ahead(states[n], c) <= Ahead(states[m], c)
  {
    if m < n {
      StaysStuck(states, events, m, n - 1, c, ev, admits);
      StepOf(states, events, n - 1);
      StepKeepsStuck(states[n - 1], events[n - 1], c, ev, admits);
    }
  }

  /** Whether cron job c is due at an instant in its leap-day gap. */
  ghost predicate DueInLeapGap(db: Database, c: Uuid, now: Time) {
    c in db.crons && db.crons[c].nextRunAt <= now && InLeapGap(db.crons[c].schedule, now)
  }

  /** The poisoned tick: once an enabled cron job is among the first batch and the clocks of the cron transactions are
      in its leap-day gap, its row stays as it is until it is disabled, and every tick fails, changing nothing and
      recovering no lease. */
  lemma LeapGapStopsTicks(states: seq<Database>, events: seq<Event>, m: nat, n: nat, c: Uuid, end: Database,
                          t: TickClocks, schedulerId: string, batch: int, others: (nat, Database) -> seq<Event>,
                          r: TickResult, s: TickStates)
    requires AnsweredRun(states, events, CRON) && m <= n < |states| && c in states[m].crons
    requires states[m].crons[c].enabled && |Ahead(states[m], c)| < BatchSize(batch)
    requires forall x :: m <= x < n && CronEvent(events[x]) ==> DueInLeapGap(states[m], c, events[x].now)
    requires forall x :: m <= x < n ==> !Disables(events[x], c)
    requires Meanwhile(others) && DueInLeapGap(states[m], c, t.now)
    requires TickOutcome(states[n], end, t, schedulerId, batch, others, r, s)
    ensures c in states[n].crons && states[n].crons[c] == states[m].crons[c]
    ensures r.TickFailed? && end == states[n]
  {
    forall x | m <= x < n && CronEvent(events[x]) ensures Stuck(states[m], c, events[x].now, CRON) {
      StoredScheduleFailsOnlyInLeapGap(states, events, m, c, events[x].now);
    }
    CronFindsFirst();
    StaysStuck(states, events, m, n, c, CRON, MATCHING);
    SubsetSize(Ahead(states[n], c), Ahead(states[m], c));
    StoredScheduleFailsOnlyInLeapGap(states, events, m, c, t.now);
    TickIsPoisoned(states[n], end, c, t, schedulerId, batch, others, r, s);
  }

  lemma TickIsPoisoned(db: Database, end: Database, c: Uuid, t: TickClocks, schedulerId: string, batch: int,
                       others: (nat, Database) -> seq<Event>, r: TickResult, s: TickStates)
    requires Stuck(db, c, t.now, CRON) && db.crons[c].enabled && |Ahead(db, c)| < BatchSize(batch)
    requires Meanwhile(others) && TickOutcome(db, end, t, schedulerId, batch, others, r, s)
    ensures r.TickFailed? && end == db
  {
    if r.Ticked? {
      var scheduler := SchedulerName(schedulerId);
      FiringIsPoisoned(db, s.fired, c, t.now, t.fireNow, scheduler, batch,
                       FireResult.Fired(r.fires, r.inserted));
    }
  }

  lemma NewCronAlone(id: Uuid, p: CronParams, created: Time, next: Time, db: Database)
    requires ValidCron(p) && db == Apply(EMPTY, ECreateCron(created, id, p, Some(next)))
    ensures id in db.crons && db.crons[id].enabled && db.crons[id].nextRunAt == next
    ensures db.crons[id].schedule == p.schedule && Ahead(db, id) == {}
  {
  }

  lemma NewCronStopsTicks(id: Uuid, p: CronParams, created: Time, next: Time, db: Database, end: Database,
                          t: TickClocks, schedulerId: string, batch: int,
                          others: (nat, Database) -> seq<Event>, r: TickResult, s: TickStates)
    requires ValidCron(p) && db == Apply(EMPTY, ECreateCron(created, id, p, Some(next)))
    requires next <= t.now && CRON.next(p.schedule, t.now).None?
    requires Meanwhile(others) && TickOutcome(db, end, t, schedulerId, batch, others, r, s)
    ensures r.TickFailed? && end == db
  {
    NewCronAlone(id, p, created, next, db);
    TickIsPoisoned(db, end, id, t, schedulerId, batch, others, r, s);
  }

  /** For instance: on a store with the one cron job "0 0 29 2 *", created on 1 January four years before a common
      century, every tick fails from 29 February of that year until 1 March three years later. */
  lemma LeapDayCronStopsTicks(century: int, created: Time, id: Uuid, p: CronParams, db: Database, end: Database,
                              t: TickClocks, schedulerId: string, batch: int,
                              others: (nat, Database) -> seq<Event>, r: TickResult, s: TickStates)
    requires CronWindow.CommonCentury(century)
    requires DateOf(DayOfMinute(CronSchedule.StartMinute(created))) == Date(century - 4, 1, 1)
    requires CronWindow.LeapDayMinute(century - 4, 0, 0) * MINUTE <= t.now
    requires CronSchedule.StartMinute(t.now) < CronWindow.FirstOfMarch(century - 1)
    requires ValidCron(p) && p.schedule == "0 0 29 2 *"
    requires db == Apply(EMPTY, ECreateCron(created, id, p, CronSyntax.NextRun(p.schedule, created)))
    requires Meanwhile(others) && TickOutcome(db, end, t, schedulerId, batch, others, r, s)
    ensures r.TickFailed? && end == db
  {
    CronTexts.LeapDayTextGoesSilent(century, created, t.now);
    NewCronStopsTicks(id, p, created, CronWindow.LeapDayMinute(century - 4, 0, 0) * MINUTE, db, end, t, schedulerId,
                      batch, others, r, s);
  }
}
