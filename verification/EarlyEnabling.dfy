/** A reachable run in which enabling a cron job early makes it fire into a recorded minute again. */
module EarlyEnabling {
  import opened Prelude
  import opened Keys
  import opened Tables
  import opened Transactions
  import opened Protocol
  import opened CronRuns
  import opened Progress
  import CronTexts

  const EVERY_MINUTE: CronParams := CronParams("every minute", "", "demo.echo", "* * * * *", 0, 1, 0, true)

  function TheCron(next: Time, last: Option<Time>): Cron {
    Cron("every minute", "default", "* * * * *", true, 0, 1, next, last)
  }

  function TheJob(key: string): Job {
    NewJob("default", 0, 1, Some(key), MINUTE, MINUTE)
  }

  function TheFire(c: Uuid, job: Uuid, key: string): Fire {
    Fire(c, 1, key, job, Some(2 * MINUTE))
  }

  function Creation(c: Uuid): Event {
    ECreateCron(0, c, EVERY_MINUTE, Some(MINUTE))
  }

  function Firing(c: Uuid, job: Uuid, key: string): Event {
    EFire(MINUTE, MINUTE, "scheduler", [TheFire(c, job, key)])
  }

  function Enabling(c: Uuid): Event {
    ESetCron(0, c, true, Some(MINUTE))
  }

  function Created(c: Uuid): Database {
    EMPTY.(crons := map[c := TheCron(MINUTE, None)])
  }

  /** After a fire of the first minute, with some next run stored. */
  function FiredOnce(c: Uuid, job: Uuid, key: string, next: Time): Database {
    Database(map[job := TheJob(key)], map[], map[], map[c := TheCron(next, Some(MINUTE))],
             map[RunKey(c, 1) := CronRun(job, "scheduler")])
  }

  lemma CreationStep(c: Uuid)
    ensures Apply(EMPTY, Creation(c)) == Created(c)
  {
  }

  lemma FiresAlone(db: Database, f: Fire)
    ensures FireAll(db, MINUTE, "scheduler", [f]) == FireOne(db, MINUTE, "scheduler", f)
  {
    assert [f][1..] == [];
  }

  lemma FirstFireStep(c: Uuid, job: Uuid, key: string)
    ensures RowsMatch(Created(c), Firing(c, job, key))
    ensures Apply(Created(c), Firing(c, job, key)) == FiredOnce(c, job, key, 2 * MINUTE)
  {
    FiresAlone(Created(c), TheFire(c, job, key));
  }

  lemma EnablingStep(c: Uuid, job: Uuid, key: string)
    ensures Apply(FiredOnce(c, job, key, 2 * MINUTE), Enabling(c)) == FiredOnce(c, job, key, MINUTE)
    ensures EarlyEnable(FiredOnce(c, job, key, 2 * MINUTE), Enabling(c), c)
  {
    assert RunKey(c, 1) in FiredOnce(c, job, key, 2 * MINUTE).runs;
  }

  lemma SecondFireStep(c: Uuid, job: Uuid, key: string)
    ensures var db := FiredOnce(c, job, key, MINUTE);
            && RowsMatch(db, Firing(c, job, key)) && Transact(db, Firing(c, job, key)).Some?
            && Apply(db, Firing(c, job, key)) == FiredOnce(c, job, key, 2 * MINUTE)
  {
    var db := FiredOnce(c, job, key, MINUTE);
    assert job in db.jobs && db.jobs[job].key == Some(key);
    FiresAlone(db, TheFire(c, job, key));
  }

  /** What the evaluator says of the first minutes. */
  ghost predicate MinuteByMinute(ev: Evaluator) {
    ev.next("* * * * *", 0) == Some(MINUTE) && ev.next("* * * * *", MINUTE) == Some(2 * MINUTE)
  }

  lemma StepsAnswered(c: Uuid, job: Uuid, key: string, ev: Evaluator)
    requires MinuteByMinute(ev) && key == ev.key(c, 1)
    ensures CronAnswers(EMPTY, Creation(c), ev)
    ensures CronAnswers(Created(c), Firing(c, job, key), ev)
    ensures CronAnswers(FiredOnce(c, job, key, 2 * MINUTE), Enabling(c), ev)
    ensures CronAnswers(FiredOnce(c, job, key, MINUTE), Firing(c, job, key), ev)
  {
  }

  lemma EarlyRun(c: Uuid, job: Uuid, key: string, ev: Evaluator) returns (states: seq<Database>, events: seq<Event>)
    requires MinuteByMinute(ev) && key == ev.key(c, 1)
    ensures AnsweredRun(states, events, ev)
    ensures events == [Creation(c), Firing(c, job, key), Enabling(c), Firing(c, job, key)]
    ensures states[2] == FiredOnce(c, job, key, 2 * MINUTE) && states[3] == FiredOnce(c, job, key, MINUTE)
  {
    states := [EMPTY, Created(c), FiredOnce(c, job, key, 2 * MINUTE), FiredOnce(c, job, key, MINUTE),
               FiredOnce(c, job, key, 2 * MINUTE)];
    events := [Creation(c), Firing(c, job, key), Enabling(c), Firing(c, job, key)];
    CreationStep(c);
    FirstFireStep(c, job, key);
    EnablingStep(c, job, key);
    SecondFireStep(c, job, key);
    StepsAnswered(c, job, key, ev);
    forall i | 0 <= i < |events| ensures StepAt(states, events, i) && CronAnswers(states[i], events[i], ev) {
      assert i == 0 || i == 1 || i == 2 || i == 3;
    }
  }

  /** The second of two equal fires of cron job c in minute 1 takes effect, although its run is recorded. */
  ghost predicate FiresAgain(states: seq<Database>, events: seq<Event>, c: Uuid, job: Uuid)
    requires |states| == 5 && |events| == 4
  {
    && EarlyEnable(states[2], events[2], c)
    && events[1].EFire? && events[3] == events[1] && |events[3].fires| == 1
    && RowsMatch(states[3], events[3]) && Transact(states[3], events[3]).Some?
    && var f := events[3].fires[0];
       f.cron == c && f.minute == 1 && f.job == job && RunKey(f.cron, f.minute) in states[3].runs
  }

  lemma EarlyRunFiresAgain(c: Uuid, job: Uuid, ev: Evaluator) returns (states: seq<Database>, events: seq<Event>)
    requires MinuteByMinute(ev)
    ensures AnsweredRun(states, events, ev) && |events| == 4
    ensures FiresAgain(states, events, c, job)
  {
    var key := ev.key(c, 1);
    states, events := EarlyRun(c, job, key, ev);
    EnablingStep(c, job, key);
    SecondFireStep(c, job, key);
  }

  lemma CronIsMinuteByMinute()
    ensures MinuteByMinute(CRON)
  {
    CronTexts.EveryMinute(0);
    CronTexts.EveryMinute(MINUTE);
  }

  /** The counterexample to progress: a cron job of the schedule "* * * * *" is created at time 0, fired in minute 1,
      enabled again at time 0, and fired once more in minute 1, with the job of the first fire. */
  lemma EarlyEnableRepeats(c: Uuid, job: Uuid) returns (states: seq<Database>, events: seq<Event>)
    ensures AnsweredRun(states, events, CRON) && |events| == 4
    ensures FiresAgain(states, events, c, job)
  {
    CronIsMinuteByMinute();
    states, events := EarlyRunFiresAgain(c, job, CRON);
  }
}
