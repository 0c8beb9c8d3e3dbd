/** What a firing transaction writes, as rows to add to the tables, and when that depends on what others commit. */
module FireWriting {
  import opened Prelude
  import opened Keys
  import opened Tables
  import opened Transactions

  // What firing writes, apart from the tables it is added to.

  datatype Writes = Writes(jobs: map<Uuid, Job>, runs: map<RunKey, CronRun>, crons: map<Uuid, Cron>)

  const NOTHING: Writes := Writes(map[], map[], map[])

  function Plus(db: Database, w: Writes): Database {
    db.(jobs := db.jobs + w.jobs, runs := db.runs + w.runs, crons := db.crons + w.crons)
  }

  function Then(v: Writes, w: Writes): Writes {
    Writes(v.jobs + w.jobs, v.runs + w.runs, v.crons + w.crons)
  }

  lemma MergeAssociates<K, V>(a: map<K, V>, b: map<K, V>, c: map<K, V>)
    ensures (a + b) + c == a + (b + c)
  {
  }

  lemma MergeSmall<K, V>(a: map<K, V>, k: K, v: V)
    ensures a + map[] == a && map[] + a == a && a + map[k := v] == a[k := v]
  {
  }

  lemma PlusThen(db: Database, v: Writes, w: Writes)
    ensures Plus(Plus(db, v), w) == Plus(db, Then(v, w))
  {
    MergeAssociates(db.jobs, v.jobs, w.jobs);
    MergeAssociates(db.runs, v.runs, w.runs);
    MergeAssociates(db.crons, v.crons, w.crons);
  }

  predicate Fireable(db: Database, f: Fire) {
    f.cron in db.crons && Returns(db, f) && f.next.Some?
  }

  /** The rows that one fire writes: the job unless its key is known, the run unless it is recorded, the cron job. */
  function OneWrite(db: Database, now: Time, scheduler: string, f: Fire): Writes
    requires Fireable(db, f)
  {
    var c := db.crons[f.cron];
    Writes(
      if HasKey(db.jobs, Some(f.key)) then map[]
      else map[f.job := NewJob(c.queue, c.priority, c.maxAttempts, Some(f.key), now, now)],
      if RunKey(f.cron, f.minute) in db.runs then map[] else map[RunKey(f.cron, f.minute) := CronRun(f.job, scheduler)],
      map[f.cron := c.(lastRunAt := Some(f.minute * MINUTE), nextRunAt := f.next.value)])
  }

  lemma OneWriteIsFireOne(db: Database, now: Time, scheduler: string, f: Fire)
    ensures FireOne(db, now, scheduler, f).Some? <==> Fireable(db, f)
    ensures Fireable(db, f) ==> FireOne(db, now, scheduler, f) == Some(Plus(db, OneWrite(db, now, scheduler, f)))
  {
    if Fireable(db, f) {
      var c, run := db.crons[f.cron], RunKey(f.cron, f.minute);
      MergeSmall(db.jobs, f.job, NewJob(c.queue, c.priority, c.maxAttempts, Some(f.key), now, now));
      MergeSmall(db.runs, run, CronRun(f.job, scheduler));
      MergeSmall(db.crons, f.cron, c.(lastRunAt := Some(f.minute * MINUTE), nextRunAt := f.next.value));
    }
  }

  lemma FireLast(db: Database, now: Time, scheduler: string, fires: seq<Fire>)
    requires fires != []
    ensures var n := |fires| - 1;
            FireAll(db, now, scheduler, fires)
            == match FireAll(db, now, scheduler, fires[..n])
               case None => None
               case Some(d) => FireOne(d, now, scheduler, fires[n])
  {
    var n := |fires| - 1;
    assert fires == fires[..n] + [fires[n]];
    FireAppend(db, now, scheduler, fires[..n], fires[n]);
  }

  /** The writes of a sequence of fires, each on top of those before. */
  function FireWrites(db: Database, now: Time, scheduler: string, fires: seq<Fire>): Writes
    requires FireAll(db, now, scheduler, fires).Some?
    decreases |fires|
  {
    if fires == [] then NOTHING
    else
      var n := |fires| - 1;
      FireLast(db, now, scheduler, fires);
      var d := FireAll(db, now, scheduler, fires[..n]).value;
      OneWriteIsFireOne(d, now, scheduler, fires[n]);
      Then(FireWrites(db, now, scheduler, fires[..n]), OneWrite(d, now, scheduler, fires[n]))
  }

  lemma {:induction false} FireAllIsWrites(db: Database, now: Time, scheduler: string, fires: seq<Fire>)
    requires FireAll(db, now, scheduler, fires).Some?
    ensures FireAll(db, now, scheduler, fires) == Some(Plus(db, FireWrites(db, now, scheduler, fires)))
    decreases |fires|
  {
    if fires == [] {
      assert db.jobs + map[] == db.jobs && db.runs + map[] == db.runs && db.crons + map[] == db.crons;
    } else {
      var n := |fires| - 1;
      FireLast(db, now, scheduler, fires);
      FireAllIsWrites(db, now, scheduler, fires[..n]);
      var d := FireAll(db, now, scheduler, fires[..n]).value;
      OneWriteIsFireOne(d, now, scheduler, fires[n]);
      PlusThen(db, FireWrites(db, now, scheduler, fires[..n]), OneWrite(d, now, scheduler, fires[n]));
    }
  }

  lemma FireWritesAppend(db: Database, now: Time, scheduler: string, fires: seq<Fire>, f: Fire, d: Database)
    requires FireAll(db, now, scheduler, fires) == Some(d) && Fireable(d, f)
    ensures FireAll(db, now, scheduler, fires + [f]).Some?
    ensures FireWrites(db, now, scheduler, fires + [f])
         == Then(FireWrites(db, now, scheduler, fires), OneWrite(d, now, scheduler, f))
  {
    assert (fires + [f])[..|fires|] == fires;
    FireLast(db, now, scheduler, fires + [f]);
    OneWriteIsFireOne(d, now, scheduler, f);
  }

  // Firing does not notice changes that leave its cron rows, its runs and its keys alone.

  predicate CarriesKey(db: Database, id: Uuid, key: string) {
    id in db.jobs && db.jobs[id].key == Some(key)
  }

  ghost predicate AgreeOn(db: Database, d: Database, f: Fire) {
    && f.cron in db.crons && f.cron in d.crons && db.crons[f.cron] == d.crons[f.cron]
    && (RunKey(f.cron, f.minute) in db.runs <==> RunKey(f.cron, f.minute) in d.runs)
    && (forall id :: CarriesKey(db, id, f.key) <==> CarriesKey(d, id, f.key))
    && (f.job in db.jobs <==> f.job in d.jobs)
  }

  lemma SameOneWrite(db: Database, d: Database, now: Time, scheduler: string, f: Fire)
    requires AgreeOn(db, d, f) && Fireable(db, f)
    ensures Fireable(d, f) && OneWrite(d, now, scheduler, f) == OneWrite(db, now, scheduler, f)
  {
    if HasKey(db.jobs, Some(f.key)) {
      assert CarriesKey(db, f.job, f.key);
      assert CarriesKey(d, f.job, f.key);
    }
    if HasKey(d.jobs, Some(f.key)) {
      var id :| id in d.jobs && d.jobs[id].key == Some(f.key);
      assert CarriesKey(d, id, f.key);
      assert CarriesKey(db, id, f.key);
    }
  }

  lemma StillAgree(db: Database, d: Database, w: Writes, f: Fire)
    requires AgreeOn(db, d, f)
    ensures AgreeOn(Plus(db, w), Plus(d, w), f)
  {
    forall id ensures CarriesKey(Plus(db, w), id, f.key) <==> CarriesKey(Plus(d, w), id, f.key) {
      assert CarriesKey(db, id, f.key) <==> CarriesKey(d, id, f.key);
    }
  }

  lemma {:induction false} FiringIsStable(db: Database, d: Database, now: Time, scheduler: string, fires: seq<Fire>)
    requires FireAll(db, now, scheduler, fires).Some?
    requires forall i :: 0 <= i < |fires| ==> AgreeOn(db, d, fires[i])
    ensures FireAll(d, now, scheduler, fires).Some?
    ensures FireWrites(d, now, scheduler, fires) == FireWrites(db, now, scheduler, fires)
    decreases |fires|
  {
    if fires != [] {
      var n := |fires| - 1;
      var pre, f := fires[..n], fires[n];
      FireLast(db, now, scheduler, fires);
      FireLast(d, now, scheduler, fires);
      FiringIsStable(db, d, now, scheduler, pre);
      FireAllIsWrites(db, now, scheduler, pre);
      FireAllIsWrites(d, now, scheduler, pre);
      var w := FireWrites(db, now, scheduler, pre);
      OneWriteIsFireOne(Plus(db, w), now, scheduler, f);
      StillAgree(db, d, w, f);
      SameOneWrite(Plus(db, w), Plus(d, w), now, scheduler, f);
      OneWriteIsFireOne(Plus(d, w), now, scheduler, f);
    }
  }
}
