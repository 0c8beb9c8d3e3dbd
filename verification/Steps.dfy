/** What one step can do to one job row, one attempt row, and the set of jobs. */
module Steps {
  import opened Prelude
  import opened Keys
  import opened Tables
  import opened Transactions
  import opened Protocol

  predicate LeasedUnder(j: Job, token: Uuid) {
    j.status == Running && j.leaseToken == Some(token)
  }

  /** The ways in which an event can change the row of job id from j to j'. */
  predicate RowMove(e: Event, id: Uuid, j: Job, j': Job) {
    || j' == j
    || (e.EClaim? && e.pick == id && Claimable(j, e.queue, e.now)
        && j' == ClaimedJob(j, e.now, e.worker, e.lease, e.token))
    || (e.EComplete? && e.id == id && LeasedUnder(j, e.token) && j' == CompletedJob(j, e.now))
    || (e.EFail? && e.id == id && LeasedUnder(j, e.token) && j' == FailedJob(j, e.now, e.message, e.policy))
    || (e.ERecover? && id in e.rows && Expired(j, e.now) && j' == RecoveredJob(j, e.now, e.reason))
    || (e.EHeartbeat? && id in e.held && HeldBy(j, e.worker) && e.lease > 0 && j' == ExtendedJob(j, e.now, e.lease))
    || (e.ERetry? && e.id == id && Retriable(j) && j' == RequeuedJob(j, e.now))
    || (e.ECancel? && e.id == id && Waiting(j) && j' == CancelledJob(j, e.now))
  }

  /** A recovery pass rewrites exactly its rows, each from its own old value. */
  lemma {:induction false} RecoverRows(db: Database, now: Time, reason: string, rows: seq<Uuid>)
    requires Distinct(rows) && forall id | id in rows :: id in db.jobs
    ensures var d := Recover(db, now, reason, rows);
            && d.jobs == (map id | id in db.jobs :: if id in rows then RecoveredJob(db.jobs[id], now, reason)
                                                    else db.jobs[id])
            && d.attempts.Keys == db.attempts.Keys
            && d == db.(jobs := d.jobs, attempts := d.attempts)
    decreases |rows|
  {
    if rows != [] {
      var d := RecoverOne(db, now, reason, rows[0]);
      RecoverRows(d, now, reason, rows[1..]);
      assert rows == [rows[0]] + rows[1..];
      assert rows[0] !in rows[1..];
    }
  }

  /** Closing attempts leaves closed attempts as they are. */
  lemma {:induction false} RecoverKeepsClosed(db: Database, now: Time, reason: string, rows: seq<Uuid>, k: AttemptKey)
    requires forall id | id in rows :: id in db.jobs
    requires k in db.attempts && db.attempts[k].status != AttemptRunning
    ensures k in Recover(db, now, reason, rows).attempts
    ensures Recover(db, now, reason, rows).attempts[k] == db.attempts[k]
    decreases |rows|
  {
    if rows != [] {
      RecoverKeepsClosed(RecoverOne(db, now, reason, rows[0]), now, reason, rows[1..], k);
    }
  }

  /** Attempts of a job that is not among the rows are untouched. */
  lemma {:induction false} RecoverOtherAttempts(db: Database, now: Time, reason: string, rows: seq<Uuid>, k: AttemptKey)
    requires forall id | id in rows :: id in db.jobs
    requires k in db.attempts && k.job !in rows
    ensures k in Recover(db, now, reason, rows).attempts
    ensures Recover(db, now, reason, rows).attempts[k] == db.attempts[k]
    decreases |rows|
  {
    if rows != [] {
      RecoverOtherAttempts(RecoverOne(db, now, reason, rows[0]), now, reason, rows[1..], k);
    }
  }

  /** A recovery pass closes exactly the open attempts of its rows. */
  lemma {:induction false} RecoverClosesAttempts(db: Database, now: Time, reason: string, rows: seq<Uuid>,
                                                 k: AttemptKey)
    requires Distinct(rows) && (forall id | id in rows :: id in db.jobs) && k in db.attempts
    ensures k in Recover(db, now, reason, rows).attempts
    ensures Recover(db, now, reason, rows).attempts[k]
         == if k.job in rows && db.jobs[k.job].leaseToken.Some?
             && OpenAttempt(k, db.attempts[k], k.job, db.jobs[k.job].leaseToken.value)
            then Closed(db.attempts[k], Failure(reason), now) else db.attempts[k]
    decreases |rows|
  {
    if rows != [] {
      var d := RecoverOne(db, now, reason, rows[0]);
      assert rows == [rows[0]] + rows[1..] && rows[0] !in rows[1..];
      if k.job == rows[0] {
        RecoverOtherAttempts(d, now, reason, rows[1..], k);
      } else {
        RecoverClosesAttempts(d, now, reason, rows[1..], k);
      }
    }
  }

  /** Firing cron jobs only adds fresh queued rows to the jobs. */
  lemma {:induction false} FireAddsJobs(db: Database, now: Time, scheduler: string, fires: seq<Fire>)
    requires FireAll(db, now, scheduler, fires).Some?
    ensures var d := FireAll(db, now, scheduler, fires).value;
            && d.attempts == db.attempts && d.workers == db.workers
            && (forall id :: id in db.jobs ==> id in d.jobs && d.jobs[id] == db.jobs[id])
            && (forall id :: id in d.jobs && id !in db.jobs
                  ==> d.jobs[id].status == Queued && d.jobs[id].attemptCount == 0)
    decreases |fires|
  {
    if fires != [] {
      FireAddsJobs(FireOne(db, now, scheduler, fires[0]).value, now, scheduler, fires[1..]);
    }
  }

  lemma LeaseEventMovesRow(db: Database, e: Event, id: Uuid)
    requires RowsMatch(db, e) && id in db.jobs && (e.EClaim? || e.EComplete? || e.EFail?)
    ensures id in Apply(db, e).jobs && RowMove(e, id, db.jobs[id], Apply(db, e).jobs[id])
  {
  }

  lemma OtherEventMovesRow(db: Database, e: Event, id: Uuid)
    requires RowsMatch(db, e) && id in db.jobs
    requires e.EInsert? || e.EHeartbeat? || e.ERetry? || e.ECancel? || e.ERegister? || e.ECreateCron? || e.ESetCron?
    ensures id in Apply(db, e).jobs && RowMove(e, id, db.jobs[id], Apply(db, e).jobs[id])
  {
  }

  /** No step deletes a job, and every change of a row is one of the listed moves. */
  lemma StepMovesRow(db: Database, e: Event, id: Uuid)
    requires RowsMatch(db, e) && id in db.jobs
    ensures id in Apply(db, e).jobs && RowMove(e, id, db.jobs[id], Apply(db, e).jobs[id])
  {
    if e.EClaim? || e.EComplete? || e.EFail? {
      LeaseEventMovesRow(db, e, id);
    } else if e.ERecover? {
      RecoverRows(db, e.now, e.reason, e.rows);
    } else if e.EFire? {
      if FireAll(db, e.dbNow, e.scheduler, e.fires).Some? {
        FireAddsJobs(db, e.dbNow, e.scheduler, e.fires);
      }
    } else {
      OtherEventMovesRow(db, e, id);
    }
  }

  /** Rows appear queued, with no attempt made. */
  lemma NewRowsAreQueued(db: Database, e: Event, id: Uuid)
    requires RowsMatch(db, e) && id !in db.jobs && id in Apply(db, e).jobs
    ensures Apply(db, e).jobs[id].status == Queued && Apply(db, e).jobs[id].attemptCount == 0
    ensures e.EInsert? || e.EFire?
  {
    match e
    case ERecover(now, reason, rows) => RecoverRows(db, now, reason, rows);
    case EFire(_, dbNow, scheduler, fires) => FireAddsJobs(db, dbNow, scheduler, fires);
    case _ =>
  }

  /** A closed attempt is never touched again. */
  lemma StepKeepsClosed(db: Database, e: Event, k: AttemptKey)
    requires RowsMatch(db, e) && k in db.attempts && db.attempts[k].status != AttemptRunning
    ensures k in Apply(db, e).attempts && Apply(db, e).attempts[k] == db.attempts[k]
  {
    match e
    case ERecover(now, reason, rows) => RecoverKeepsClosed(db, now, reason, rows, k);
    case EFire(_, dbNow, scheduler, fires) =>
      if FireAll(db, dbNow, scheduler, fires).Some? {
        FireAddsJobs(db, dbNow, scheduler, fires);
      }
    case _ =>
  }

  /** Moves keep the submission key, and never take attempts back. */
  lemma MoveKeepsKey(e: Event, id: Uuid, j: Job, j': Job)
    requires RowMove(e, id, j, j')
    ensures j'.key == j.key && j'.queue == j.queue && j'.createdAt == j.createdAt && j'.attemptCount >= j.attemptCount
  {
  }
}
