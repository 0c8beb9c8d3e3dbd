/** Cron transactions at the level of row locks. Firing picks cron rows with SKIP LOCKED, upserts one job per row,
    records the run and moves the row on; enabling locks one cron row. They interleave with each other and with the
    lock-level machine of the job transactions, and every interleaving is a run of the atomic machine. */
module Firings {
  import opened Prelude
  import opened Keys
  import opened Tables
  import opened Transactions
  import opened Protocol
  import opened Steps
  import opened CronRuns
  import opened FireWriting
  import opened Locks
  import Leases

  /** The evaluator's answer for an instant, taken while the cron row is locked; disabling does not use it. */
  datatype Answer = Answer(now: Time, next: Option<Time>)

  /** An open cron transaction: the cron rows it has locked, as it read them, and what it has done so far. */
  datatype CronTxn =
    | Firing(now: Time, dbNow: Time, scheduler: string, batch: int, rows: map<Uuid, Cron>, fires: seq<Fire>,
             writes: Writes)
    | Setting(id: Uuid, enabled: bool, rows: map<Uuid, Cron>, answer: Option<Answer>)

  /** The lock-level machine of the job transactions together with the open cron transactions. */
  datatype Full = Full(low: Low, crons: map<TxId, CronTxn>)

  const BEGINNING: Full := Full(START, map[])

  datatype Act =
    | JobStep(step: Step)
    | BeginFiring(tx: TxId, now: Time, dbNow: Time, scheduler: string, batch: int)
    | BeginSetting(tx: TxId, id: Uuid, enabled: bool)
    | LockCron(tx: TxId, id: Uuid)
    | FireNext(tx: TxId, fire: Fire)
    | Evaluate(tx: TxId, now: Time, next: Option<Time>)
    | CommitCron(tx: TxId)
    | AbortCron(tx: TxId)

  predicate RowFree(m: Full, id: Uuid) {
    forall t | t in m.crons :: id !in m.crons[t].rows
  }

  /** Whether a transaction has inserted, but not committed, a job with this identifier or this key. Another insert of
      either has to wait for it. */
  predicate Pending(x: CronTxn, id: Uuid, key: Option<string>) {
    x.Firing? && (id in x.writes.jobs || (key.Some? && exists i | i in x.writes.jobs :: x.writes.jobs[i].key == key))
  }

  /** Submissions wait for uncommitted jobs with their key; firing and enabling are transactions of their own. */
  ghost predicate MayRun(m: Full, s: Step, ev: Evaluator) {
    s.Single? ==>
      match s.event
      case EInsert(_, id, p) => forall t | t in m.crons :: !Pending(m.crons[t], id, KeyOf(p))
      case ECreateCron(now, _, cron, next) => next == ev.next(cron.schedule, now)
      case ERegister(_, _, _) => true
      case _ => false
  }

  /** What the evaluator says of a locked row. */
  ghost predicate FireReads(x: CronTxn, f: Fire, ev: Evaluator)
    requires x.Firing?
  {
    && f.cron in x.rows
    && f.minute == x.rows[f.cron].nextRunAt / MINUTE
    && f.key == ev.key(f.cron, f.minute)
    && f.next == ev.next(x.rows[f.cron].schedule, x.now)
  }

  predicate WantsCron(x: CronTxn, id: Uuid, c: Cron) {
    match x
    case Firing(now, _, _, batch, rows, fires, _) =>
      fires == [] && |rows| < Leases.BatchSize(batch) && c.enabled && c.nextRunAt <= now
    case Setting(cron, _, rows, _) => id == cron && rows == map[]
  }

  predicate ReadyCron(x: CronTxn) {
    match x
    case Firing(_, _, _, _, rows, fires, _) => forall id | id in rows :: exists f | f in fires :: f.cron == id
    case Setting(_, enabled, _, answer) => answer.Some? && (enabled ==> answer.value.next.Some?)
  }

  ghost predicate Can(m: Full, a: Act, ev: Evaluator) {
    match a
    case JobStep(s) => Enabled(m.low, s) && MayRun(m, s, ev)
    case BeginFiring(t, _, _, _, _) => t !in m.crons
    case BeginSetting(t, _, _) => t !in m.crons
    case LockCron(t, id) =>
      t in m.crons && id in m.low.db.crons && RowFree(m, id) && WantsCron(m.crons[t], id, m.low.db.crons[id])
    case FireNext(t, f) =>
      && t in m.crons && m.crons[t].Firing? && FireReads(m.crons[t], f, ev)
      && (forall g | g in m.crons[t].fires :: g.cron != f.cron)
      && Fireable(Plus(m.low.db, m.crons[t].writes), f)
      && (forall u | u in m.crons && u != t :: !Pending(m.crons[u], f.job, Some(f.key)))
    case Evaluate(t, now, next) =>
      && t in m.crons && m.crons[t].Setting? && m.crons[t].answer.None? && m.crons[t].id in m.crons[t].rows
      && next == ev.next(m.crons[t].rows[m.crons[t].id].schedule, now)
    case CommitCron(t) =>
      t in m.crons && ReadyCron(m.crons[t]) && (m.crons[t].Setting? ==> m.crons[t].id in m.crons[t].rows)
    case AbortCron(t) => t in m.crons
  }

  /** The tables after a cron transaction's writes. */
  function CronCommitted(db: Database, x: CronTxn): Database
    requires ReadyCron(x) && (x.Setting? ==> x.id in x.rows)
  {
    match x
    case Firing(_, _, _, _, _, _, writes) => Plus(db, writes)
    case Setting(id, enabled, rows, answer) =>
      db.(crons := db.crons[id := rows[id].(
            enabled := enabled, nextRunAt := if enabled then answer.value.next.value else rows[id].nextRunAt)])
  }

  /** A firing after one more fire, on top of its own writes. */
  function WithFire(db: Database, x: CronTxn, f: Fire): CronTxn
    requires x.Firing? && Fireable(Plus(db, x.writes), f)
  {
    x.(fires := x.fires + [f], writes := Then(x.writes, OneWrite(Plus(db, x.writes), x.dbNow, x.scheduler, f)))
  }

  ghost function Take(m: Full, a: Act, ev: Evaluator): Full
    requires Can(m, a, ev)
  {
    match a
    case JobStep(s) => m.(low := TakeStep(m.low, s))
    case BeginFiring(t, now, dbNow, scheduler, batch) =>
      m.(crons := m.crons[t := Firing(now, dbNow, scheduler, batch, map[], [], NOTHING)])
    case BeginSetting(t, id, enabled) => m.(crons := m.crons[t := Setting(id, enabled, map[], None)])
    case LockCron(t, id) => m.(crons := m.crons[t := m.crons[t].(rows := m.crons[t].rows[id := m.low.db.crons[id]])])
    case FireNext(t, f) => m.(crons := m.crons[t := WithFire(m.low.db, m.crons[t], f)])
    case Evaluate(t, now, next) => m.(crons := m.crons[t := m.crons[t].(answer := Some(Answer(now, next)))])
    case CommitCron(t) => Full(m.low.(db := CronCommitted(m.low.db, m.crons[t])), m.crons - {t})
    case AbortCron(t) => m.(crons := m.crons - {t})
  }

  // What the locks guarantee.

  /** A fire's job is the known job with its key, or one that the transaction has inserted under it. */
  predicate JobFound(db: Database, x: CronTxn, f: Fire)
    requires x.Firing?
  {
    CarriesKey(db, f.job, f.key) || (f.job in x.writes.jobs && x.writes.jobs[f.job].key == Some(f.key))
  }

  /** No uncommitted job is visible outside: neither its identifier nor its key. */
  ghost predicate NotThere(db: Database, jobs: map<Uuid, Job>) {
    forall id :: id in jobs ==> id !in db.jobs && jobs[id].key.Some? && !HasKey(db.jobs, jobs[id].key)
  }

  ghost predicate FiresOk(db: Database, x: CronTxn, ev: Evaluator)
    requires x.Firing?
  {
    forall f {:trigger FireReads(x, f, ev)} {:trigger JobFound(db, x, f)} :: f in x.fires
        ==> FireReads(x, f, ev) && JobFound(db, x, f)
  }

  ghost predicate FiringOk(db: Database, x: CronTxn, ev: Evaluator)
    requires x.Firing?
  {
    && (forall id :: id in x.rows ==> x.rows[id].enabled && x.rows[id].nextRunAt <= x.now)
    && (forall i, j :: 0 <= i < j < |x.fires| ==> x.fires[i].cron != x.fires[j].cron)
    && FiresOk(db, x, ev)
    && NotThere(db, x.writes.jobs)
    && FireAll(db, x.dbNow, x.scheduler, x.fires).Some? && FireWrites(db, x.dbNow, x.scheduler, x.fires) == x.writes
  }

  ghost predicate SettingOk(x: CronTxn, ev: Evaluator)
    requires x.Setting?
  {
    && (forall id :: id in x.rows ==> id == x.id)
    && (x.answer.Some? ==> x.id in x.rows && x.answer.value.next == ev.next(x.rows[x.id].schedule, x.answer.value.now))
  }

  ghost predicate CronOk(db: Database, x: CronTxn, ev: Evaluator) {
    && (forall id :: id in x.rows ==> id in db.crons && db.crons[id] == x.rows[id])
    && if x.Firing? then FiringOk(db, x, ev) else SettingOk(x, ev)
  }

  /** Two transactions lock different cron rows, and insert jobs with different identifiers and keys. */
  ghost predicate Apart(x: CronTxn, y: CronTxn) {
    && (forall id :: id in x.rows ==> id !in y.rows)
    && (x.Firing? ==> forall id :: id in x.writes.jobs ==> !Pending(y, id, x.writes.jobs[id].key))
  }

  ghost predicate FullInv(m: Full, ev: Evaluator) {
    && LowInv(m.low)
    && (forall t {:trigger CronOk(m.low.db, m.crons[t], ev)} :: t in m.crons ==> CronOk(m.low.db, m.crons[t], ev))
    && (forall t, u {:trigger Apart(m.crons[t], m.crons[u])} :: t in m.crons && u in m.crons && t != u
          ==> Apart(m.crons[t], m.crons[u]))
  }

  // Stability: other commits leave an open cron transaction as it is.

  /** A change of the tables that an open transaction does not notice. */
  ghost predicate Unnoticed(db: Database, d: Database, x: CronTxn) {
    && (forall id :: id in x.rows && id in db.crons ==> id in d.crons && d.crons[id] == db.crons[id])
    && (forall r: RunKey :: r.cron in x.rows ==> (r in d.runs <==> r in db.runs))
    && (forall id :: id in db.jobs ==> id in d.jobs && d.jobs[id].key == db.jobs[id].key)
    && (forall id :: id in d.jobs && id !in db.jobs
          ==> !Pending(x, id, d.jobs[id].key) && !HasKey(db.jobs, d.jobs[id].key))
  }

  lemma FireUnnoticed(db: Database, d: Database, x: CronTxn, f: Fire)
    requires x.Firing? && Unnoticed(db, d, x) && JobFound(db, x, f) && f.cron in x.rows && f.cron in db.crons
    ensures AgreeOn(db, d, f) && JobFound(d, x, f)
  {
    assert CarriesKey(db, f.job, f.key) ==> HasKey(db.jobs, Some(f.key));
    forall id ensures CarriesKey(db, id, f.key) <==> CarriesKey(d, id, f.key) {
      assert id in d.jobs && id !in db.jobs ==> !Pending(x, id, d.jobs[id].key) && !HasKey(db.jobs, d.jobs[id].key);
    }
    assert f.job in d.jobs && f.job !in db.jobs ==> !Pending(x, f.job, d.jobs[f.job].key);
  }

  lemma StillNotThere(db: Database, d: Database, x: CronTxn, id: Uuid)
    requires x.Firing? && Unnoticed(db, d, x) && id in x.writes.jobs
    requires id !in db.jobs && x.writes.jobs[id].key.Some? && !HasKey(db.jobs, x.writes.jobs[id].key)
    ensures id !in d.jobs && !HasKey(d.jobs, x.writes.jobs[id].key)
  {
    assert id in d.jobs ==> !Pending(x, id, d.jobs[id].key);
    forall i | i in d.jobs ensures d.jobs[i].key != x.writes.jobs[id].key {
      assert i in db.jobs ==> d.jobs[i].key == db.jobs[i].key;
      assert i !in db.jobs ==> !Pending(x, i, d.jobs[i].key);
    }
  }

  lemma FiringStable(db: Database, d: Database, x: CronTxn, ev: Evaluator)
    requires x.Firing? && CronOk(db, x, ev) && Unnoticed(db, d, x)
    ensures CronOk(d, x, ev)
  {
    forall f | f in x.fires ensures FireReads(x, f, ev) && JobFound(d, x, f) && AgreeOn(db, d, f) {
      assert FireReads(x, f, ev) && JobFound(db, x, f);
      FireUnnoticed(db, d, x, f);
    }
    forall id | id in x.writes.jobs ensures id !in d.jobs && !HasKey(d.jobs, x.writes.jobs[id].key) {
      StillNotThere(db, d, x, id);
    }
    FiringIsStable(db, d, x.dbNow, x.scheduler, x.fires);
  }

  lemma CronStable(db: Database, d: Database, x: CronTxn, ev: Evaluator)
    requires CronOk(db, x, ev) && Unnoticed(db, d, x)
    ensures CronOk(d, x, ev)
  {
    if x.Firing? {
      FiringStable(db, d, x, ev);
    }
  }

  /** The transactions of the job machine change no cron row, no run and no key, and insert only by submissions. */
  lemma JobEventUnnoticed(db: Database, e: Event, x: CronTxn)
    requires RowsMatch(db, e) && !CronEvent(e)
    requires e.EInsert? ==> !Pending(x, e.id, KeyOf(e.params))
    ensures Unnoticed(db, Apply(db, e), x)
  {
    var d := Apply(db, e);
    CronsUntouched(db, e);
    forall id | id in db.jobs ensures id in d.jobs && d.jobs[id].key == db.jobs[id].key {
      StepMovesRow(db, e, id);
      MoveKeepsKey(e, id, db.jobs[id], d.jobs[id]);
    }
    forall id | id in d.jobs && id !in db.jobs
      ensures !Pending(x, id, d.jobs[id].key) && !HasKey(db.jobs, d.jobs[id].key)
    {
      NewRowsAreQueued(db, e, id);
    }
  }

  lemma NewCronUnnoticed(db: Database, e: Event, x: CronTxn)
    requires e.ECreateCron?
    ensures Unnoticed(db, Apply(db, e), x)
  {
  }

  lemma JobStepKeepsFullInv(m: Full, s: Step, ev: Evaluator)
    requires FullInv(m, ev) && Can(m, JobStep(s), ev)
    ensures FullInv(Take(m, JobStep(s), ev), ev)
  {
    StepRefines(m.low, s);
    var n := Take(m, JobStep(s), ev);
    forall t | t in n.crons ensures CronOk(n.low.db, n.crons[t], ev) {
      var x := m.crons[t];
      assert CronOk(m.low.db, x, ev);
      if s.Commit? {
        JobEventUnnoticed(m.low.db, EventOf(m.low.txns[s.tx]), x);
        CronStable(m.low.db, n.low.db, x, ev);
      } else if s.Single? {
        if s.event.ECreateCron? {
          NewCronUnnoticed(m.low.db, s.event, x);
        } else {
          JobEventUnnoticed(m.low.db, s.event, x);
        }
        CronStable(m.low.db, n.low.db, x, ev);
      }
    }
    forall t, u | t in n.crons && u in n.crons && t != u ensures Apart(n.crons[t], n.crons[u]) {
      assert Apart(m.crons[t], m.crons[u]);
    }
  }

  // Steps of one cron transaction.

  lemma CronReplaced(m: Full, t: TxId, x: CronTxn, ev: Evaluator)
    requires FullInv(m, ev) && CronOk(m.low.db, x, ev)
    requires forall u :: u in m.crons && u != t ==> Apart(x, m.crons[u]) && Apart(m.crons[u], x)
    ensures FullInv(m.(crons := m.crons[t := x]), ev)
  {
    var n := m.(crons := m.crons[t := x]);
    forall u | u in n.crons ensures CronOk(n.low.db, n.crons[u], ev) {
      assert u != t ==> CronOk(m.low.db, m.crons[u], ev);
    }
    forall u, v | u in n.crons && v in n.crons && u != v ensures Apart(n.crons[u], n.crons[v]) {
      assert u != t && v != t ==> Apart(m.crons[u], m.crons[v]);
    }
  }

  lemma LockCronKeepsFullInv(m: Full, t: TxId, id: Uuid, ev: Evaluator)
    requires FullInv(m, ev) && Can(m, LockCron(t, id), ev)
    ensures FullInv(Take(m, LockCron(t, id), ev), ev)
  {
    var x := m.crons[t];
    var y := x.(rows := x.rows[id := m.low.db.crons[id]]);
    assert CronOk(m.low.db, x, ev);
    assert CronOk(m.low.db, y, ev);
    forall u | u in m.crons && u != t ensures Apart(y, m.crons[u]) && Apart(m.crons[u], y) {
      assert Apart(x, m.crons[u]) && Apart(m.crons[u], x);
      assert id !in m.crons[u].rows;
      SamePending(x, y, m.crons[u]);
    }
    CronReplaced(m, t, y, ev);
  }

  lemma SamePending(x: CronTxn, y: CronTxn, z: CronTxn)
    requires x.Firing? == y.Firing? && (x.Firing? ==> x.writes == y.writes)
    ensures x.Firing? ==> forall id, key :: Pending(x, id, key) <==> Pending(y, id, key)
  {
  }

  lemma EvaluateKeepsFullInv(m: Full, t: TxId, now: Time, next: Option<Time>, ev: Evaluator)
    requires FullInv(m, ev) && Can(m, Evaluate(t, now, next), ev)
    ensures FullInv(Take(m, Evaluate(t, now, next), ev), ev)
  {
    var x := m.crons[t];
    assert CronOk(m.low.db, x, ev);
    forall u | u in m.crons && u != t
      ensures Apart(x.(answer := Some(Answer(now, next))), m.crons[u])
      ensures Apart(m.crons[u], x.(answer := Some(Answer(now, next))))
    {
      assert Apart(x, m.crons[u]) && Apart(m.crons[u], x);
    }
    CronReplaced(m, t, x.(answer := Some(Answer(now, next))), ev);
  }

  lemma HiddenKey(db: Database, w: Writes, key: string)
    requires NotThere(db, w.jobs) && HasKey(db.jobs, Some(key))
    ensures HasKey(Plus(db, w).jobs, Some(key))
  {
    var id :| id in db.jobs && db.jobs[id].key == Some(key);
    assert id in Plus(db, w).jobs && Plus(db, w).jobs[id].key == Some(key);
  }

  /** The job that a fire upserts on top of uncommitted writes: found among them or committed, or newly inserted. */
  lemma UpsertedJob(db: Database, now: Time, scheduler: string, w: Writes, f: Fire)
    requires NotThere(db, w.jobs) && Fireable(Plus(db, w), f)
    ensures var more := OneWrite(Plus(db, w), now, scheduler, f).jobs;
            if HasKey(Plus(db, w).jobs, Some(f.key)) then
              more == map[] && (CarriesKey(db, f.job, f.key) || (f.job in w.jobs && w.jobs[f.job].key == Some(f.key)))
            else
              && f.job in more && more[f.job].key == Some(f.key) && (forall id :: id in more ==> id == f.job)
              && f.job !in db.jobs && f.job !in w.jobs && !HasKey(db.jobs, Some(f.key))
  {
    if HasKey(db.jobs, Some(f.key)) {
      HiddenKey(db, w, f.key);
    }
  }

  lemma StillFound(db: Database, x: CronTxn, y: CronTxn, g: Fire)
    requires x.Firing? && y.Firing? && JobFound(db, x, g)
    requires forall id :: id in x.writes.jobs ==> id in y.writes.jobs && y.writes.jobs[id] == x.writes.jobs[id]
    ensures JobFound(db, y, g)
  {
  }

  /** One more fire adds at most its own job to the uncommitted ones, which stay hidden. */
  lemma OneMoreJob(db: Database, x: CronTxn, f: Fire)
    requires x.Firing? && NotThere(db, x.writes.jobs) && Fireable(Plus(db, x.writes), f)
    ensures var y := WithFire(db, x, f);
            && NotThere(db, y.writes.jobs) && JobFound(db, y, f)
            && (forall id :: id in y.writes.jobs && id !in x.writes.jobs
                  ==> id == f.job && y.writes.jobs[id].key == Some(f.key))
            && (forall id :: id in x.writes.jobs ==> id in y.writes.jobs && y.writes.jobs[id] == x.writes.jobs[id])
  {
    UpsertedJob(db, x.dbNow, x.scheduler, x.writes, f);
    var more := OneWrite(Plus(db, x.writes), x.dbNow, x.scheduler, f).jobs;
    assert WithFire(db, x, f).writes.jobs == x.writes.jobs + more;
  }

  lemma OneMoreWrite(db: Database, x: CronTxn, f: Fire)
    requires x.Firing? && Fireable(Plus(db, x.writes), f)
    requires FireAll(db, x.dbNow, x.scheduler, x.fires).Some?
    requires FireWrites(db, x.dbNow, x.scheduler, x.fires) == x.writes
    ensures var y := WithFire(db, x, f);
            FireAll(db, y.dbNow, y.scheduler, y.fires).Some?
                && FireWrites(db, y.dbNow, y.scheduler, y.fires) == y.writes
  {
    FireAllIsWrites(db, x.dbNow, x.scheduler, x.fires);
    FireWritesAppend(db, x.dbNow, x.scheduler, x.fires, f, Plus(db, x.writes));
  }

  lemma OneMoreRead(db: Database, x: CronTxn, f: Fire, y: CronTxn, ev: Evaluator)
    requires x.Firing? && y.Firing? && y == x.(fires := x.fires + [f], writes := y.writes) && FireReads(x, f, ev)
    requires JobFound(db, y, f)
    requires forall id :: id in x.writes.jobs ==> id in y.writes.jobs && y.writes.jobs[id] == x.writes.jobs[id]
    requires FiresOk(db, x, ev)
    ensures FiresOk(db, y, ev)
  {
    forall g | g in y.fires ensures FireReads(y, g, ev) && JobFound(db, y, g) {
      if g in x.fires {
        assert FireReads(x, g, ev);
        StillFound(db, x, y, g);
      }
    }
  }

  lemma OneMoreCron(x: CronTxn, f: Fire, fires: seq<Fire>)
    requires x.Firing? && fires == x.fires + [f] && forall g | g in x.fires :: g.cron != f.cron
    requires forall i, j :: 0 <= i < j < |x.fires| ==> x.fires[i].cron != x.fires[j].cron
    ensures forall i, j :: 0 <= i < j < |fires| ==> fires[i].cron != fires[j].cron
  {
  }

  /** The invariant of a firing after one more fire. */
  lemma OneMoreFire(db: Database, x: CronTxn, f: Fire, y: CronTxn, ev: Evaluator)
    requires x.Firing? && CronOk(db, x, ev) && FireReads(x, f, ev) && Fireable(Plus(db, x.writes), f)
    requires forall g | g in x.fires :: g.cron != f.cron
    requires y == WithFire(db, x, f)
    ensures CronOk(db, y, ev) && y.Firing? && y.rows == x.rows
    ensures forall id :: id in y.writes.jobs && id !in x.writes.jobs
              ==> id == f.job && y.writes.jobs[id].key == Some(f.key)
    ensures forall id :: id in x.writes.jobs ==> id in y.writes.jobs && y.writes.jobs[id] == x.writes.jobs[id]
  {
    OneMoreWrite(db, x, f);
    OneMoreJob(db, x, f);
    OneMoreRead(db, x, f, y, ev);
    OneMoreCron(x, f, y.fires);
  }

  lemma UncommittedHaveKeys(db: Database, x: CronTxn, ev: Evaluator)
    requires CronOk(db, x, ev)
    ensures x.Firing? ==> forall id :: id in x.writes.jobs ==> x.writes.jobs[id].key.Some?
  {
  }

  lemma OthersStayApart(m: Full, t: TxId, f: Fire, y: CronTxn, ev: Evaluator)
    requires FullInv(m, ev) && t in m.crons && m.crons[t].Firing? && y.Firing? && y.rows == m.crons[t].rows
    requires forall u | u in m.crons && u != t :: !Pending(m.crons[u], f.job, Some(f.key))
    requires forall id :: id in y.writes.jobs && id !in m.crons[t].writes.jobs
               ==> id == f.job && y.writes.jobs[id].key == Some(f.key)
    requires forall id :: id in m.crons[t].writes.jobs
               ==> id in y.writes.jobs && y.writes.jobs[id] == m.crons[t].writes.jobs[id]
    ensures forall u :: u in m.crons && u != t ==> Apart(y, m.crons[u]) && Apart(m.crons[u], y)
  {
    forall u | u in m.crons && u != t ensures Apart(y, m.crons[u]) && Apart(m.crons[u], y) {
      UncommittedHaveKeys(m.low.db, m.crons[u], ev);
      StillApart(m.crons[t], y, m.crons[u], f);
    }
  }

  lemma FireNextKeepsFullInv(m: Full, t: TxId, f: Fire, y: CronTxn, ev: Evaluator)
    requires FullInv(m, ev) && Can(m, FireNext(t, f), ev) && y == WithFire(m.low.db, m.crons[t], f)
    ensures FullInv(m.(crons := m.crons[t := y]), ev)
  {
    assert CronOk(m.low.db, m.crons[t], ev);
    OneMoreFire(m.low.db, m.crons[t], f, y, ev);
    OthersStayApart(m, t, f, y, ev);
    CronReplaced(m, t, y, ev);
  }

  lemma StillApart(x: CronTxn, y: CronTxn, z: CronTxn, f: Fire)
    requires x.Firing? && y.Firing? && y.rows == x.rows && Apart(x, z) && Apart(z, x) && !Pending(z, f.job, Some(f.key))
    requires forall id :: id in y.writes.jobs && id !in x.writes.jobs
               ==> id == f.job && y.writes.jobs[id].key == Some(f.key)
    requires forall id :: id in x.writes.jobs ==> id in y.writes.jobs && y.writes.jobs[id] == x.writes.jobs[id]
    requires z.Firing? ==> forall id :: id in z.writes.jobs ==> z.writes.jobs[id].key.Some?
    ensures Apart(y, z) && Apart(z, y)
  {
  }

  lemma BeginCronKeepsFullInv(m: Full, a: Act, ev: Evaluator)
    requires FullInv(m, ev) && Can(m, a, ev) && (a.BeginFiring? || a.BeginSetting?)
    ensures FullInv(Take(m, a, ev), ev)
  {
    var x := Take(m, a, ev).crons[a.tx];
    forall u | u in m.crons && u != a.tx ensures Apart(x, m.crons[u]) && Apart(m.crons[u], x) {
      assert CronOk(m.low.db, m.crons[u], ev);
    }
    CronReplaced(m, a.tx, x, ev);
  }

  lemma AbortCronKeepsFullInv(m: Full, t: TxId, ev: Evaluator)
    requires FullInv(m, ev) && Can(m, AbortCron(t), ev)
    ensures FullInv(Take(m, AbortCron(t), ev), ev)
  {
    var n := Take(m, AbortCron(t), ev);
    forall u | u in n.crons ensures CronOk(n.low.db, n.crons[u], ev) {
      assert CronOk(m.low.db, m.crons[u], ev);
    }
    forall u, v | u in n.crons && v in n.crons && u != v ensures Apart(n.crons[u], n.crons[v]) {
      assert Apart(m.crons[u], m.crons[v]);
    }
  }

  // Commit.

  /** The atomic step that a cron commit amounts to. */
  function CronEventOf(x: CronTxn): Event
    requires x.Setting? ==> x.answer.Some?
  {
    match x
    case Firing(now, dbNow, scheduler, _, _, fires, _) => EFire(now, dbNow, scheduler, fires)
    case Setting(id, enabled, _, answer) => ESetCron(answer.value.now, id, enabled, answer.value.next)
  }

  lemma FiringCommitIsAtomic(db: Database, x: CronTxn, ev: Evaluator)
    requires x.Firing? && CronOk(db, x, ev) && ReadyCron(x)
    ensures var e := CronEventOf(x);
            RowsMatch(db, e) && Transact(db, e) == Some(CronCommitted(db, x)) && CronAnswers(db, e, ev)
  {
    FireAllIsWrites(db, x.dbNow, x.scheduler, x.fires);
    forall f | f in x.fires
      ensures f.cron in db.crons && db.crons[f.cron].enabled && db.crons[f.cron].nextRunAt <= x.now
      ensures FireAnswers(db, x.now, f, ev)
    {
      assert FireReads(x, f, ev);
    }
  }

  lemma SettingCommitIsAtomic(db: Database, x: CronTxn, ev: Evaluator)
    requires x.Setting? && CronOk(db, x, ev) && ReadyCron(x) && x.id in x.rows
    ensures var e := CronEventOf(x);
            RowsMatch(db, e) && Transact(db, e) == Some(CronCommitted(db, x)) && CronAnswers(db, e, ev)
  {
  }

  /** A cron commit is one atomic step, taken at the moment of the commit, with the evaluator's answers. */
  lemma CronCommitIsAtomic(db: Database, x: CronTxn, ev: Evaluator)
    requires CronOk(db, x, ev) && ReadyCron(x) && (x.Setting? ==> x.id in x.rows)
    ensures var e := CronEventOf(x);
            RowsMatch(db, e) && Transact(db, e) == Some(CronCommitted(db, x)) && CronAnswers(db, e, ev)
  {
    if x.Firing? {
      FiringCommitIsAtomic(db, x, ev);
    } else {
      SettingCommitIsAtomic(db, x, ev);
    }
  }

  lemma WritesUnnoticed(db: Database, w: Writes, rows: map<Uuid, Cron>, y: CronTxn)
    requires NotThere(db, w.jobs) && forall id :: id in w.jobs ==> !Pending(y, id, w.jobs[id].key)
    requires (forall id :: id in w.crons ==> id in rows) && (forall r :: r in w.runs ==> r.cron in rows)
    requires forall id :: id in rows ==> id !in y.rows
    ensures Unnoticed(db, Plus(db, w), y)
  {
  }

  lemma RowUnnoticed(db: Database, id: Uuid, c: Cron, y: CronTxn)
    requires id !in y.rows
    ensures Unnoticed(db, db.(crons := db.crons[id := c]), y)
  {
  }

  /** What a cron commit changes is not noticed by the other open cron transactions. */
  lemma CronCommitUnnoticed(db: Database, x: CronTxn, y: CronTxn, ev: Evaluator)
    requires CronOk(db, x, ev) && ReadyCron(x) && (x.Setting? ==> x.id in x.rows) && Apart(x, y)
    requires x.Firing? ==> (forall id :: id in x.writes.crons ==> id in x.rows)
                           && (forall r :: r in x.writes.runs ==> r.cron in x.rows)
    ensures Unnoticed(db, CronCommitted(db, x), y)
  {
    if x.Firing? {
      WritesUnnoticed(db, x.writes, x.rows, y);
    } else {
      RowUnnoticed(db, x.id, CronCommitted(db, x).crons[x.id], y);
    }
  }

  /** A firing writes rows and runs of the cron jobs that it has locked only. */
  lemma {:induction false} WritesOwnRows(db: Database, now: Time, scheduler: string, fires: seq<Fire>,
                                         rows: map<Uuid, Cron>)
    requires FireAll(db, now, scheduler, fires).Some? && forall f :: f in fires ==> f.cron in rows
    ensures var w := FireWrites(db, now, scheduler, fires);
            (forall id :: id in w.crons ==> id in rows) && (forall r :: r in w.runs ==> r.cron in rows)
    decreases |fires|
  {
    if fires != [] {
      var n := |fires| - 1;
      FireLast(db, now, scheduler, fires);
      OneWriteIsFireOne(FireAll(db, now, scheduler, fires[..n]).value, now, scheduler, fires[n]);
      WritesOwnRows(db, now, scheduler, fires[..n], rows);
    }
  }

  lemma CommitLeavesOther(m: Full, x: CronTxn, y: CronTxn, ev: Evaluator)
    requires CronOk(m.low.db, x, ev) && ReadyCron(x) && (x.Setting? ==> x.id in x.rows) && Apart(x, y)
    requires CronOk(m.low.db, y, ev)
    ensures CronOk(CronCommitted(m.low.db, x), y, ev)
  {
    if x.Firing? {
      forall f | f in x.fires ensures f.cron in x.rows {
        assert FireReads(x, f, ev);
      }
      WritesOwnRows(m.low.db, x.dbNow, x.scheduler, x.fires, x.rows);
    }
    CronCommitUnnoticed(m.low.db, x, y, ev);
    CronStable(m.low.db, CronCommitted(m.low.db, x), y, ev);
  }

  lemma CommitCronKeepsFullInv(m: Full, t: TxId, ev: Evaluator)
    requires FullInv(m, ev) && Can(m, CommitCron(t), ev)
    ensures FullInv(Take(m, CommitCron(t), ev), ev)
    ensures Next(m.low.db, CronEventOf(m.crons[t]), Take(m, CommitCron(t), ev).low.db)
    ensures CronAnswers(m.low.db, CronEventOf(m.crons[t]), ev)
  {
    var x := m.crons[t];
    var n := Take(m, CommitCron(t), ev);
    assert CronOk(m.low.db, x, ev);
    CronCommitIsAtomic(m.low.db, x, ev);
    SingleKeepsLowInv(m.low, CronEventOf(x));
    forall u | u in n.crons ensures CronOk(n.low.db, n.crons[u], ev) {
      assert CronOk(m.low.db, m.crons[u], ev) && Apart(x, m.crons[u]);
      CommitLeavesOther(m, x, m.crons[u], ev);
    }
    forall u, v | u in n.crons && v in n.crons && u != v ensures Apart(n.crons[u], n.crons[v]) {
      assert Apart(m.crons[u], m.crons[v]);
    }
  }

  /** The atomic steps that one act takes. */
  function ActEffect(m: Full, a: Act): seq<Event>
    requires a.JobStep? ==> Enabled(m.low, a.step)
    requires a.CommitCron? ==> a.tx in m.crons && ReadyCron(m.crons[a.tx])
  {
    match a
    case JobStep(s) => Effect(m.low, s)
    case CommitCron(t) => [CronEventOf(m.crons[t])]
    case _ => []
  }

  /** Every act keeps the lock discipline; what takes effect is one atomic step with the evaluator's answers. */
  lemma ActRefines(m: Full, a: Act, ev: Evaluator)
    requires FullInv(m, ev) && Can(m, a, ev)
    ensures FullInv(Take(m, a, ev), ev)
    ensures ActEffect(m, a) == [] ==> Take(m, a, ev).low.db == m.low.db
    ensures ActEffect(m, a) != [] ==>
              && |ActEffect(m, a)| == 1 && CronAnswers(m.low.db, ActEffect(m, a)[0], ev)
              && Next(m.low.db, ActEffect(m, a)[0], Take(m, a, ev).low.db)
  {
    match a
    case JobStep(s) =>
      JobStepKeepsFullInv(m, s, ev);
      StepRefines(m.low, s);
    case BeginFiring(_, _, _, _, _) => BeginCronKeepsFullInv(m, a, ev);
    case BeginSetting(_, _, _) => BeginCronKeepsFullInv(m, a, ev);
    case LockCron(t, id) => LockCronKeepsFullInv(m, t, id, ev);
    case FireNext(t, f) => FireNextKeepsFullInv(m, t, f, WithFire(m.low.db, m.crons[t], f), ev);
    case Evaluate(t, now, next) => EvaluateKeepsFullInv(m, t, now, next, ev);
    case CommitCron(t) => CommitCronKeepsFullInv(m, t, ev);
    case AbortCron(t) => AbortCronKeepsFullInv(m, t, ev);
  }
}
