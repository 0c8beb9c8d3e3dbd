/** Cron jobs over whole runs: at most one run per minute, and steady progress along the schedule. */
module CronRuns {
  import opened Prelude
  import opened Keys
  import opened Tables
  import opened Transactions
  import opened Protocol
  import opened Steps
  import opened History
  import CronSyntax
  import CronSchedule

  /** What firing asks outside the tables: the next run of a schedule after an instant, and the key of a run. */
  datatype Evaluator = Evaluator(next: (string, Time) -> Option<Time>, key: (Uuid, int) -> string)

  /** The cron package's evaluator and the store's keys. */
  ghost const CRON: Evaluator := Evaluator(CronSyntax.NextRun, CronKey)

  /** Cron minutes, keys and next runs are the ones that an evaluator gives. */
  ghost predicate CronAnswers(db: Database, e: Event, ev: Evaluator) {
    match e
    case ECreateCron(now, _, cron, answer) => answer == ev.next(cron.schedule, now)
    case ESetCron(now, id, _, answer) => id in db.crons ==> answer == ev.next(db.crons[id].schedule, now)
    case EFire(now, _, _, fires) => forall i :: 0 <= i < |fires| ==> FireAnswers(db, now, fires[i], ev)
    case _ => true
  }

  ghost predicate FireAnswers(db: Database, now: Time, f: Fire, ev: Evaluator) {
    f.cron in db.crons ==>
      && f.minute == db.crons[f.cron].nextRunAt / MINUTE
      && f.key == ev.key(f.cron, f.minute)
      && f.next == ev.next(db.crons[f.cron].schedule, now)
  }

  ghost predicate AnsweredRun(states: seq<Database>, events: seq<Event>, ev: Evaluator) {
    Run(states, events) && forall i :: 0 <= i < |events| ==> CronAnswers(states[i], events[i], ev)
  }

  // At most once, for any clocks.

  ghost predicate RunCarriesKey(db: Database, r: RunKey, ev: Evaluator)
    requires r in db.runs
  {
    db.runs[r].job in db.jobs && db.jobs[db.runs[r].job].key == Some(ev.key(r.cron, r.minute))
  }

  ghost predicate RunsCarryKeys(db: Database, ev: Evaluator) {
    forall r {:trigger RunCarriesKey(db, r, ev)} :: r in db.runs ==> RunCarriesKey(db, r, ev)
  }

  lemma {:induction false} FireCarriesKeys(db: Database, now: Time, scheduler: string, fires: seq<Fire>, ev: Evaluator)
    requires RunsCarryKeys(db, ev) && FireAll(db, now, scheduler, fires).Some?
    requires forall i :: 0 <= i < |fires| ==> fires[i].key == ev.key(fires[i].cron, fires[i].minute)
    ensures RunsCarryKeys(FireAll(db, now, scheduler, fires).value, ev)
    decreases |fires|
  {
    if fires != [] {
      var f := fires[0];
      var d := FireOne(db, now, scheduler, f).value;
      forall r | r in d.runs ensures RunCarriesKey(d, r, ev) {
        if r in db.runs {
          assert RunCarriesKey(db, r, ev);
        }
      }
      FireCarriesKeys(d, now, scheduler, fires[1..], ev);
    }
  }

  lemma StepCarriesKeys(db: Database, e: Event, ev: Evaluator)
    requires RowsMatch(db, e) && CronAnswers(db, e, ev) && RunsCarryKeys(db, ev)
    ensures RunsCarryKeys(Apply(db, e), ev)
  {
    if e.EFire? {
      if Transact(db, e).Some? {
        forall i | 0 <= i < |e.fires| ensures e.fires[i].key == ev.key(e.fires[i].cron, e.fires[i].minute) {
          assert e.fires[i] in e.fires && FireAnswers(db, e.now, e.fires[i], ev);
        }
        FireCarriesKeys(db, e.dbNow, e.scheduler, e.fires, ev);
      }
    } else {
      var d := Apply(db, e);
      RunsUntouched(db, e);
      forall r | r in d.runs ensures RunCarriesKey(d, r, ev) {
        assert RunCarriesKey(db, r, ev);
        StepMovesRow(db, e, db.runs[r].job);
        MoveKeepsKey(e, db.runs[r].job, db.jobs[db.runs[r].job], d.jobs[db.runs[r].job]);
      }
    }
  }

  lemma RunsUntouched(db: Database, e: Event)
    requires RowsMatch(db, e) && !e.EFire?
    ensures Apply(db, e).runs == db.runs
  {
    if e.ERecover? {
      RecoverRows(db, e.now, e.reason, e.rows);
    }
  }

  lemma {:induction false} RunsAlwaysCarryKeys(states: seq<Database>, events: seq<Event>, m: nat, ev: Evaluator)
    requires AnsweredRun(states, events, ev) && m < |states|
    ensures RunsCarryKeys(states[m], ev)
  {
    if m > 0 {
      RunsAlwaysCarryKeys(states, events, m - 1, ev);
      StepOf(states, events, m - 1);
      StepCarriesKeys(states[m - 1], events[m - 1], ev);
    }
  }

  /** At most once, whatever the schedulers' clocks do: a cron job's run at a minute is carried by the job that has
      that pair's key, and two runs never share a job. */
  lemma CronRunsAtMostOnce(states: seq<Database>, events: seq<Event>, m: nat, r: RunKey, q: RunKey)
    requires AnsweredRun(states, events, CRON) && m < |states|
    requires r in states[m].runs && q in states[m].runs
    ensures states[m].runs[r].job in states[m].jobs
    ensures states[m].jobs[states[m].runs[r].job].key == Some(CronKey(r.cron, r.minute))
    ensures states[m].runs[r].job == states[m].runs[q].job <==> r == q
  {
    RunsAlwaysCarryKeys(states, events, m, CRON);
    assert RunCarriesKey(states[m], r, CRON) && RunCarriesKey(states[m], q, CRON);
    CronKeyInjective(r.cron, r.minute, q.cron, q.minute);
  }

  // Progress.

  predicate CronEvent(e: Event) {
    e.ECreateCron? || e.ESetCron? || e.EFire?
  }

  predicate Fires(fires: seq<Fire>, c: Uuid) {
    exists i :: 0 <= i < |fires| && fires[i].cron == c
  }

  /** Whether a step evaluates the schedule of cron job c and stores the answer. */
  predicate Evaluates(db: Database, e: Event, c: Uuid) {
    && RowsMatch(db, e) && Transact(db, e).Some?
    && ((e.ECreateCron? && e.id == c) || (e.ESetCron? && e.id == c && e.enabled) || (e.EFire? && Fires(e.fires, c)))
  }

  /** The instant of the last evaluation of c before state m. */
  ghost function LastEvaluation(states: seq<Database>, events: seq<Event>, m: nat, c: Uuid): Option<Time>
    requires Run(states, events) && m < |states|
  {
    if m == 0 then None
    else if Evaluates(states[m - 1], events[m - 1], c) then Some(events[m - 1].now)
    else LastEvaluation(states, events, m - 1, c)
  }

  /** The stored next run is the evaluator's answer for instant t. */
  ghost predicate EvaluatedAt(db: Database, c: Uuid, t: Time, ev: Evaluator)
    requires c in db.crons
  {
    ev.next(db.crons[c].schedule, t) == Some(db.crons[c].nextRunAt)
  }

  lemma {:induction false} FireOtherCron(db: Database, now: Time, scheduler: string, fires: seq<Fire>, c: Uuid)
    requires FireAll(db, now, scheduler, fires).Some? && !Fires(fires, c)
    ensures var d := FireAll(db, now, scheduler, fires).value;
            && (c in d.crons <==> c in db.crons) && (c in db.crons ==> d.crons[c] == db.crons[c])
            && (forall r: RunKey :: r.cron == c ==> (r in d.runs <==> r in db.runs))
    decreases |fires|
  {
    if fires != [] {
      assert fires[0].cron != c;
      assert forall i :: 0 <= i < |fires[1..]| ==> fires[1..][i] == fires[i + 1];
      FireOtherCron(FireOne(db, now, scheduler, fires[0]).value, now, scheduler, fires[1..], c);
    }
  }

  lemma FireFirstCron(db: Database, now: Time, scheduler: string, fires: seq<Fire>)
    requires fires != [] && FireAll(db, now, scheduler, fires).Some? && !Fires(fires[1..], fires[0].cron)
    ensures Fired(db, FireAll(db, now, scheduler, fires).value, fires[0])
  {
    var d := FireOne(db, now, scheduler, fires[0]).value;
    FireOtherCron(d, now, scheduler, fires[1..], fires[0].cron);
  }

  /** What firing does to one of the fired cron jobs: it stores the next run and at most adds this minute's run. */
  ghost predicate Fired(db: Database, d: Database, f: Fire) {
    && f.cron in db.crons && f.cron in d.crons && f.next.Some?
    && d.crons[f.cron] == db.crons[f.cron].(lastRunAt := Some(f.minute * MINUTE), nextRunAt := f.next.value)
    && (forall r: RunKey :: r.cron == f.cron ==> (r in d.runs <==> r in db.runs || r == RunKey(f.cron, f.minute)))
  }

  lemma FireLeavesLater(db: Database, d: Database, now: Time, scheduler: string, first: Fire, end: Database, f: Fire)
    requires FireOne(db, now, scheduler, first) == Some(d) && first.cron != f.cron && Fired(d, end, f)
    ensures Fired(db, end, f)
  {
  }

  lemma {:induction false} FireThisCron(db: Database, now: Time, scheduler: string, fires: seq<Fire>, i: nat)
    requires FireAll(db, now, scheduler, fires).Some? && i < |fires|
    requires forall x, y :: 0 <= x < y < |fires| ==> fires[x].cron != fires[y].cron
    ensures Fired(db, FireAll(db, now, scheduler, fires).value, fires[i])
    decreases |fires|
  {
    var d := FireOne(db, now, scheduler, fires[0]).value;
    assert forall y :: 0 <= y < |fires[1..]| ==> fires[1..][y] == fires[y + 1];
    if i == 0 {
      FireFirstCron(db, now, scheduler, fires);
    } else {
      FireThisCron(d, now, scheduler, fires[1..], i - 1);
      FireLeavesLater(db, d, now, scheduler, fires[0], FireAll(db, now, scheduler, fires).value, fires[i]);
    }
  }

  lemma FireEvaluates(db: Database, e: Event, c: Uuid, t: Time, ev: Evaluator)
    requires e.EFire? && RowsMatch(db, e) && CronAnswers(db, e, ev) && Transact(db, e).Some?
    requires c in db.crons && EvaluatedAt(db, c, t, ev)
    ensures c in Apply(db, e).crons
    ensures EvaluatedAt(Apply(db, e), c, if Fires(e.fires, c) then e.now else t, ev)
  {
    if Fires(e.fires, c) {
      var i :| 0 <= i < |e.fires| && e.fires[i].cron == c;
      FireThisCron(db, e.dbNow, e.scheduler, e.fires, i);
      assert FireAnswers(db, e.now, e.fires[i], ev);
    } else {
      FireOtherCron(db, e.dbNow, e.scheduler, e.fires, c);
    }
  }

  lemma CronsUntouched(db: Database, e: Event)
    requires RowsMatch(db, e) && !CronEvent(e)
    ensures Apply(db, e).crons == db.crons && Apply(db, e).runs == db.runs
  {
    if e.ERecover? {
      RecoverRows(db, e.now, e.reason, e.rows);
    }
  }

  /** One step either re-evaluates a known cron job at its own time, or keeps the last evaluation. */
  lemma StepKeepsEvaluation(db: Database, e: Event, c: Uuid, t: Time, ev: Evaluator)
    requires RowsMatch(db, e) && CronAnswers(db, e, ev) && c in db.crons && EvaluatedAt(db, c, t, ev)
    ensures c in Apply(db, e).crons
    ensures EvaluatedAt(Apply(db, e), c, if Evaluates(db, e, c) then e.now else t, ev)
  {
    if !CronEvent(e) {
      CronsUntouched(db, e);
    } else if e.EFire? && Transact(db, e).Some? {
      FireEvaluates(db, e, c, t, ev);
    }
  }

  lemma NewCronIsEvaluated(db: Database, e: Event, c: Uuid, ev: Evaluator)
    requires RowsMatch(db, e) && CronAnswers(db, e, ev) && c !in db.crons && c in Apply(db, e).crons
    ensures e.ECreateCron? && Evaluates(db, e, c) && EvaluatedAt(Apply(db, e), c, e.now, ev)
    ensures Apply(db, e).runs == db.runs
  {
    if !CronEvent(e) {
      CronsUntouched(db, e);
    } else if e.EFire? {
      FireOtherOrKnown(db, e, c);
    }
  }

  lemma FireOtherOrKnown(db: Database, e: Event, c: Uuid)
    requires e.EFire? && RowsMatch(db, e)
    ensures c in Apply(db, e).crons <==> c in db.crons
  {
    if Transact(db, e).Some? {
      if Fires(e.fires, c) {
        var i :| 0 <= i < |e.fires| && e.fires[i].cron == c;
        FireThisCron(db, e.dbNow, e.scheduler, e.fires, i);
      } else {
        FireOtherCron(db, e.dbNow, e.scheduler, e.fires, c);
      }
    }
  }

  // What firing writes, on the fields.

  ghost predicate DistinctKeys(fires: seq<Fire>) {
    forall i, j :: 0 <= i < j < |fires| ==> fires[i].key != fires[j].key
  }

  lemma FiresHaveDistinctKeys(db: Database, e: Event)
    requires e.EFire? && RowsMatch(db, e) && CronAnswers(db, e, CRON)
    ensures DistinctKeys(e.fires)
  {
    forall i, j | 0 <= i < j < |e.fires| ensures e.fires[i].key != e.fires[j].key {
      assert e.fires[i] in e.fires && FireAnswers(db, e.now, e.fires[i], CRON);
      assert e.fires[j] in e.fires && FireAnswers(db, e.now, e.fires[j], CRON);
      CronKeyInjective(e.fires[i].cron, e.fires[i].minute, e.fires[j].cron, e.fires[j].minute);
    }
  }

  /** The cron job moves on; the job that has the key stays as it is, or a new one is queued with the cron job's
      parameters, due at once; and the run is recorded unless it was. */
  ghost predicate FireWritten(db: Database, d: Database, now: Time, scheduler: string, f: Fire) {
    && f.cron in db.crons && f.cron in d.crons && f.next.Some?
    && d.crons[f.cron]
       == db.crons[f.cron].(lastRunAt := Some(f.minute * MINUTE), nextRunAt := f.next.value)
    && f.job in d.jobs
    && (if exists id :: id in db.jobs && db.jobs[id].key == Some(f.key)
        then f.job in db.jobs && db.jobs[f.job].key == Some(f.key) && d.jobs[f.job] == db.jobs[f.job]
        else && f.job !in db.jobs
             && d.jobs[f.job] == Job(queue := db.crons[f.cron].queue, status := Queued,
                                     priority := db.crons[f.cron].priority,
                                     maxAttempts := db.crons[f.cron].maxAttempts, attemptCount := 0,
                                     key := Some(f.key), lockedBy := None, lockedUntil := None, leaseToken := None,
                                     availableAt := now, deadLetteredAt := None, createdAt := now, updatedAt := now,
                                     completedAt := None, lastError := None))
    && RunKey(f.cron, f.minute) in d.runs
    && d.runs[RunKey(f.cron, f.minute)] == (if RunKey(f.cron, f.minute) in db.runs
                                            then db.runs[RunKey(f.cron, f.minute)]
                                            else CronRun(job := f.job, scheduler := scheduler))
  }

  lemma {:induction false} FireKeepsRuns(db: Database, now: Time, scheduler: string, fires: seq<Fire>, r: RunKey)
    requires FireAll(db, now, scheduler, fires).Some? && r in db.runs
    ensures var d := FireAll(db, now, scheduler, fires).value; r in d.runs && d.runs[r] == db.runs[r]
    decreases |fires|
  {
    if fires != [] {
      FireKeepsRuns(FireOne(db, now, scheduler, fires[0]).value, now, scheduler, fires[1..], r);
    }
  }

  lemma {:induction false} NewJobsAreFired(db: Database, now: Time, scheduler: string, fires: seq<Fire>, id: Uuid)
    requires FireAll(db, now, scheduler, fires).Some?
    requires id in FireAll(db, now, scheduler, fires).value.jobs && id !in db.jobs
    ensures exists i :: 0 <= i < |fires| && fires[i].job == id
    decreases |fires|
  {
    if fires != [] && fires[0].job != id {
      NewJobsAreFired(FireOne(db, now, scheduler, fires[0]).value, now, scheduler, fires[1..], id);
      var i :| 0 <= i < |fires[1..]| && fires[1..][i].job == id;
      assert fires[i + 1].job == id;
    }
  }

  lemma {:induction false} NewRunsAreFired(db: Database, now: Time, scheduler: string, fires: seq<Fire>, r: RunKey)
    requires FireAll(db, now, scheduler, fires).Some?
    requires r in FireAll(db, now, scheduler, fires).value.runs && r !in db.runs
    ensures exists i :: 0 <= i < |fires| && fires[i].cron == r.cron && fires[i].minute == r.minute
    decreases |fires|
  {
    if fires != [] && RunKey(fires[0].cron, fires[0].minute) != r {
      NewRunsAreFired(FireOne(db, now, scheduler, fires[0]).value, now, scheduler, fires[1..], r);
      var i :| 0 <= i < |fires[1..]| && fires[1..][i].cron == r.cron && fires[1..][i].minute == r.minute;
      assert fires[i + 1] == fires[1..][i];
    }
  }

  /** Nothing else changes: every new job and run is that of a fire, and other cron jobs stay as they are. */
  lemma FireWritesOnly(db: Database, now: Time, scheduler: string, fires: seq<Fire>, d: Database)
    requires FireAll(db, now, scheduler, fires) == Some(d)
    ensures d.attempts == db.attempts && d.workers == db.workers
    ensures forall id :: id in db.jobs ==> id in d.jobs && d.jobs[id] == db.jobs[id]
    ensures forall id :: id in d.jobs && id !in db.jobs ==> exists i :: 0 <= i < |fires| && fires[i].job == id
    ensures forall c :: c in db.crons && !Fires(fires, c) ==> c in d.crons && d.crons[c] == db.crons[c]
    ensures forall r :: r in db.runs ==> r in d.runs && d.runs[r] == db.runs[r]
    ensures forall r :: r in d.runs && r !in db.runs
              ==> exists i :: 0 <= i < |fires| && fires[i].cron == r.cron && fires[i].minute == r.minute
  {
    FireAddsJobs(db, now, scheduler, fires);
    forall id | id in d.jobs && id !in db.jobs ensures exists i :: 0 <= i < |fires| && fires[i].job == id {
      NewJobsAreFired(db, now, scheduler, fires, id);
    }
    forall c | c in db.crons && !Fires(fires, c) ensures c in d.crons && d.crons[c] == db.crons[c] {
      FireOtherCron(db, now, scheduler, fires, c);
    }
    forall r | r in db.runs ensures r in d.runs && d.runs[r] == db.runs[r] {
      FireKeepsRuns(db, now, scheduler, fires, r);
    }
    forall r | r in d.runs && r !in db.runs
      ensures exists i :: 0 <= i < |fires| && fires[i].cron == r.cron && fires[i].minute == r.minute
    {
      NewRunsAreFired(db, now, scheduler, fires, r);
    }
  }

  lemma FirstFireWritten(db: Database, d: Database, now: Time, scheduler: string, fires: seq<Fire>)
    requires fires != [] && FireOne(db, now, scheduler, fires[0]) == Some(d)
    requires FireAll(d, now, scheduler, fires[1..]).Some? && !Fires(fires[1..], fires[0].cron)
    ensures FireWritten(db, FireAll(d, now, scheduler, fires[1..]).value, now, scheduler, fires[0])
  {
    FireAddsJobs(d, now, scheduler, fires[1..]);
    FireOtherCron(d, now, scheduler, fires[1..], fires[0].cron);
    FireKeepsRuns(d, now, scheduler, fires[1..], RunKey(fires[0].cron, fires[0].minute));
  }

  lemma LaterFireWritten(db: Database, d: Database, end: Database, now: Time, scheduler: string, first: Fire, f: Fire)
    requires FireOne(db, now, scheduler, first) == Some(d) && first.cron != f.cron && first.key != f.key
    requires FireWritten(d, end, now, scheduler, f)
    ensures FireWritten(db, end, now, scheduler, f)
  {
    assert (exists id :: id in d.jobs && d.jobs[id].key == Some(f.key))
      <==> (exists id :: id in db.jobs && db.jobs[id].key == Some(f.key)) by {
      if id :| id in db.jobs && db.jobs[id].key == Some(f.key) {
        assert d.jobs[id].key == Some(f.key);
      }
    }
  }

  /** A committed firing transaction has written each of its fires. */
  lemma {:induction false} FiresWritten(db: Database, now: Time, scheduler: string, fires: seq<Fire>, i: nat)
    requires FireAll(db, now, scheduler, fires).Some? && i < |fires| && DistinctKeys(fires)
    requires forall x, y :: 0 <= x < y < |fires| ==> fires[x].cron != fires[y].cron
    ensures FireWritten(db, FireAll(db, now, scheduler, fires).value, now, scheduler, fires[i])
    decreases |fires|
  {
    var d := FireOne(db, now, scheduler, fires[0]).value;
    assert forall y :: 0 <= y < |fires[1..]| ==> fires[1..][y] == fires[y + 1];
    if i == 0 {
      FirstFireWritten(db, d, now, scheduler, fires);
    } else {
      FiresWritten(d, now, scheduler, fires[1..], i - 1);
      LaterFireWritten(db, d, FireAll(db, now, scheduler, fires).value, now, scheduler, fires[0], fires[i]);
    }
  }

  // Names.

  ghost predicate NamesUnique(db: Database) {
    forall c, d :: c in db.crons && d in db.crons && db.crons[c].name == db.crons[d].name ==> c == d
  }

  lemma {:induction false} FireKeepsNames(db: Database, now: Time, scheduler: string, fires: seq<Fire>)
    requires FireAll(db, now, scheduler, fires).Some?
    ensures var d := FireAll(db, now, scheduler, fires).value;
            d.crons.Keys == db.crons.Keys && forall c :: c in db.crons ==> d.crons[c].name == db.crons[c].name
    decreases |fires|
  {
    if fires != [] {
      FireKeepsNames(FireOne(db, now, scheduler, fires[0]).value, now, scheduler, fires[1..]);
    }
  }

  lemma StepKeepsNamesUnique(db: Database, e: Event)
    requires RowsMatch(db, e) && NamesUnique(db)
    ensures NamesUnique(Apply(db, e))
  {
    if !CronEvent(e) {
      CronsUntouched(db, e);
    } else if e.EFire? && Transact(db, e).Some? {
      FireKeepsNames(db, e.dbNow, e.scheduler, e.fires);
    }
  }

  /** In every reachable state a cron job's name belongs to it alone, so a lookup by name has one answer. */
  lemma {:induction false} CronNamesUnique(states: seq<Database>, events: seq<Event>, m: nat)
    requires Run(states, events) && m < |states|
    ensures NamesUnique(states[m])
  {
    if m > 0 {
      CronNamesUnique(states, events, m - 1);
      StepOf(states, events, m - 1);
      StepKeepsNamesUnique(states[m - 1], events[m - 1]);
    }
  }

  // Runs belong to known cron jobs.

  lemma StepKeepsRunsKnown(db: Database, e: Event)
    requires RowsMatch(db, e) && forall r :: r in db.runs ==> r.cron in db.crons
    ensures forall r :: r in Apply(db, e).runs ==> r.cron in Apply(db, e).crons
  {
    if !CronEvent(e) {
      CronsUntouched(db, e);
    } else if e.EFire? && Transact(db, e).Some? {
      forall r | r in Apply(db, e).runs ensures r.cron in Apply(db, e).crons {
        FireOtherOrKnown(db, e, r.cron);
        if Fires(e.fires, r.cron) {
          var i :| 0 <= i < |e.fires| && e.fires[i].cron == r.cron;
          FireThisCron(db, e.dbNow, e.scheduler, e.fires, i);
        } else {
          FireOtherCron(db, e.dbNow, e.scheduler, e.fires, r.cron);
        }
      }
    }
  }

  lemma {:induction false} RunsKnown(states: seq<Database>, events: seq<Event>, m: nat)
    requires Run(states, events) && m < |states|
    ensures forall r :: r in states[m].runs ==> r.cron in states[m].crons
  {
    if m > 0 {
      RunsKnown(states, events, m - 1);
      StepOf(states, events, m - 1);
      StepKeepsRunsKnown(states[m - 1], events[m - 1]);
    }
  }

  /** Every stored next run is the evaluator's answer for the last evaluation instant, whatever the clocks do. */
  lemma {:induction false} AlwaysEvaluated(states: seq<Database>, events: seq<Event>, m: nat, c: Uuid, ev: Evaluator)
    requires AnsweredRun(states, events, ev) && m < |states| && c in states[m].crons
    ensures LastEvaluation(states, events, m, c).Some?
    ensures EvaluatedAt(states[m], c, LastEvaluation(states, events, m, c).value, ev)
  {
    if m > 0 {
      StepOf(states, events, m - 1);
      if c in states[m - 1].crons {
        AlwaysEvaluated(states, events, m - 1, c, ev);
        StepKeepsEvaluation(states[m - 1], events[m - 1], c, LastEvaluation(states, events, m - 1, c).value, ev);
      } else {
        NewCronIsEvaluated(states[m - 1], events[m - 1], c, ev);
      }
    }
  }

  /** An answer of the evaluator is a whole minute, later than the instant asked about, and matches the schedule. */
  lemma AnswerIsNextMatch(schedule: string, t: Time)
    requires CronSyntax.NextRun(schedule, t).Some?
    ensures var r := CronSyntax.NextRun(schedule, t).value;
            && CronSyntax.ScheduleOf(schedule).Some?
            && r > t && r == r / MINUTE * MINUTE
            && CronSchedule.Matches(CronSyntax.ScheduleOf(schedule).value, r / MINUTE)
            && forall u :: t < u * MINUTE < r ==> !CronSchedule.Matches(CronSyntax.ScheduleOf(schedule).value, u)
  {
    CronSchedule.NextIsLeastMatch(CronSyntax.ScheduleOf(schedule).value, t);
    var m := CronSchedule.NextMinute(CronSyntax.ScheduleOf(schedule).value, t).value;
    assert m * MINUTE / MINUTE == m;
  }
}
