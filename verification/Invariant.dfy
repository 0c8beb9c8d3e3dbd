/** What holds of the tables in every reachable state. */
module Invariant {
  import opened Prelude
  import opened Keys
  import opened Tables
  import opened Transactions
  import opened Protocol
  import opened Backoff

  predicate Terminal(s: JobStatus) {
    s == Succeeded || s == DeadLetter || s == Cancelled
  }

  /** A job row by itself: the lease columns go together, the timestamps follow the status, and the status
      says how much of the attempt budget is left. */
  predicate RowOk(j: Job) {
    && j.status != Failed
    && (j.status == Running <==> j.lockedBy.Some?)
    && (j.status == Running <==> j.lockedUntil.Some?)
    && (j.status == Running <==> j.leaseToken.Some?)
    && (Terminal(j.status) <==> j.completedAt.Some?)
    && (j.status == DeadLetter <==> j.deadLetteredAt.Some?)
    && 0 <= j.attemptCount <= j.maxAttempts && 1 <= j.maxAttempts
    && (Waiting(j) || j.status == Cancelled ==> j.attemptCount < j.maxAttempts)
    && (j.status == DeadLetter ==> j.attemptCount == j.maxAttempts)
    && (j.status == Running || j.status == Succeeded ==> 1 <= j.attemptCount)
  }

  /** The last attempt is open exactly while the job runs, and succeeded exactly when the job did. */
  predicate LastAttemptOk(j: Job, a: Attempt) {
    && (a.status == AttemptRunning <==> j.status == Running)
    && (a.status == AttemptSucceeded <==> j.status == Succeeded)
    && (j.status == Running ==> j.leaseToken == Some(a.token) && j.lockedBy == Some(a.worker))
  }

  /** A job's attempts are numbered 1..attempt_count, all but the last have failed, and no two share a token. */
  ghost predicate AttemptsOk(id: Uuid, j: Job, attempts: map<AttemptKey, Attempt>) {
    && (forall n :: AttemptKey(id, n) in attempts <==> 1 <= n <= j.attemptCount)
    && (forall n :: 1 <= n < j.attemptCount ==> attempts[AttemptKey(id, n)].status == AttemptFailed)
    && (1 <= j.attemptCount ==> LastAttemptOk(j, attempts[AttemptKey(id, j.attemptCount)]))
    && (forall m, n :: 1 <= m < n <= j.attemptCount
          ==> attempts[AttemptKey(id, m)].token != attempts[AttemptKey(id, n)].token)
  }

  ghost predicate KeysUnique(jobs: map<Uuid, Job>) {
    forall i, j :: i in jobs && j in jobs && jobs[i].key.Some? && jobs[i].key == jobs[j].key ==> i == j
  }

  ghost predicate JobOk(db: Database, id: Uuid)
    requires id in db.jobs
  {
    RowOk(db.jobs[id]) && AttemptsOk(id, db.jobs[id], db.attempts)
  }

  /** An attempt belongs to a job and is finished exactly when it is not open. */
  predicate AttemptOk(db: Database, k: AttemptKey)
    requires k in db.attempts
  {
    k.job in db.jobs && (db.attempts[k].finishedAt.Some? <==> db.attempts[k].status != AttemptRunning)
  }

  ghost predicate Inv(db: Database) {
    && (forall id {:trigger JobOk(db, id)} :: id in db.jobs ==> JobOk(db, id))
    && (forall k {:trigger AttemptOk(db, k)} :: k in db.attempts ==> AttemptOk(db, k))
    && KeysUnique(db.jobs)
    && (forall c :: c in db.crons ==> db.crons[c].maxAttempts >= 1)
  }

  /** While a lease is held, exactly the last attempt is open under its token, so the second row-count check
      of completing and failing cannot reject. */
  lemma LeaseHasOneOpenAttempt(db: Database, id: Uuid, token: Uuid)
    requires Inv(db) && HoldsLease(db, id, token)
    ensures OpenAttempts(db.attempts, id, token) == {AttemptKey(id, db.jobs[id].attemptCount)}
    ensures |OpenAttempts(db.attempts, id, token)| == 1
  {
    var last := AttemptKey(id, db.jobs[id].attemptCount);
    assert JobOk(db, id);
    forall k | k in OpenAttempts(db.attempts, id, token) ensures k == last {
      assert k == AttemptKey(id, k.number);
    }
  }

  /** Completing and failing succeed exactly for the token that the running job holds. */
  lemma AcceptedExactlyForHolder(db: Database, now: Time, id: Uuid, token: Uuid, message: string, policy: RetryPolicy)
    requires Inv(db)
    ensures Complete(db, now, id, token).Some? <==> HoldsLease(db, id, token)
    ensures Fail(db, now, id, token, message, policy).Some? <==> HoldsLease(db, id, token)
  {
    if HoldsLease(db, id, token) {
      LeaseHasOneOpenAttempt(db, id, token);
    }
  }

  /** A claim is rejected exactly when the job already has an attempt under the token: numbers never collide. */
  lemma RejectedExactlyForUsedToken(db: Database, now: Time, worker: string, lease: int, token: Uuid, id: Uuid)
    requires Inv(db) && id in db.jobs
    ensures Claim(db, now, worker, lease, token, id).None?
            <==> exists n :: AttemptKey(id, n) in db.attempts && db.attempts[AttemptKey(id, n)].token == token
  {
    assert JobOk(db, id);
    if k :| k in db.attempts && k.job == id && db.attempts[k].token == token {
      assert AttemptKey(id, k.number) == k;
    }
  }

  lemma CloseLast(db: Database, id: Uuid, token: Uuid, verdict: Verdict, now: Time)
    requires Inv(db) && HoldsLease(db, id, token)
    ensures var last := AttemptKey(id, db.jobs[id].attemptCount);
            last in db.attempts
            && CloseAttempts(db.attempts, id, token, verdict, now)
               == db.attempts[last := Closed(db.attempts[last], verdict, now)]
  {
    LeaseHasOneOpenAttempt(db, id, token);
    var last := AttemptKey(id, db.jobs[id].attemptCount);
    assert last in OpenAttempts(db.attempts, id, token);
    forall k | k in db.attempts ensures OpenAttempt(k, db.attempts[k], id, token) <==> k == last {
      if OpenAttempt(k, db.attempts[k], id, token) {
        assert k in OpenAttempts(db.attempts, id, token);
      }
    }
  }

  /** Rewriting one job row, keeping its key and every other job's attempts. */
  lemma OneJobChanged(db: Database, id: Uuid, j: Job, attempts: map<AttemptKey, Attempt>)
    requires Inv(db) && id in db.jobs
    requires RowOk(j) && AttemptsOk(id, j, attempts) && j.key == db.jobs[id].key
    requires forall k: AttemptKey :: k.job != id
               ==> (k in attempts <==> k in db.attempts) && (k in attempts ==> attempts[k] == db.attempts[k])
    requires forall k: AttemptKey :: k in attempts && k.job == id
               ==> (attempts[k].finishedAt.Some? <==> attempts[k].status != AttemptRunning)
    ensures Inv(db.(jobs := db.jobs[id := j], attempts := attempts))
  {
    var d := db.(jobs := db.jobs[id := j], attempts := attempts);
    forall i | i in d.jobs ensures JobOk(d, i) {
      if i != id {
        assert JobOk(db, i);
        SameAttempts(i, db.jobs[i], db.attempts, attempts);
      }
    }
    forall k | k in d.attempts ensures AttemptOk(d, k) {
      if k.job != id {
        assert AttemptOk(db, k);
      }
    }
    assert KeysUnique(d.jobs);
  }

  lemma SameAttempts(id: Uuid, j: Job, a: map<AttemptKey, Attempt>, b: map<AttemptKey, Attempt>)
    requires AttemptsOk(id, j, a)
    requires forall n :: AttemptKey(id, n) in b <==> AttemptKey(id, n) in a
    requires forall n :: AttemptKey(id, n) in a ==> b[AttemptKey(id, n)] == a[AttemptKey(id, n)]
    ensures AttemptsOk(id, j, b)
  {
    forall n ensures AttemptKey(id, n) in b <==> 1 <= n <= j.attemptCount {
      assert AttemptKey(id, n) in a <==> 1 <= n <= j.attemptCount;
    }
  }

  lemma ClaimedAttemptsOk(id: Uuid, j: Job, attempts: map<AttemptKey, Attempt>, now: Time, worker: string, lease: int,
                          token: Uuid)
    requires RowOk(j) && Waiting(j) && AttemptsOk(id, j, attempts)
    requires AttemptAccepted(attempts, id, j.attemptCount + 1, token)
    ensures AttemptsOk(id, ClaimedJob(j, now, worker, lease, token),
                       attempts[AttemptKey(id, j.attemptCount + 1) := NewAttempt(worker, token, now)])
  {
    var n := j.attemptCount + 1;
    var after := attempts[AttemptKey(id, n) := NewAttempt(worker, token, now)];
    forall m | 1 <= m < n
      ensures after[AttemptKey(id, m)].status == AttemptFailed && after[AttemptKey(id, m)].token != token
    {
      assert AttemptKey(id, m) in attempts;
    }
  }

  lemma ClaimKeepsInv(db: Database, now: Time, worker: string, lease: int, token: Uuid, pick: Uuid)
    requires Inv(db) && pick in db.jobs && Waiting(db.jobs[pick])
    requires Claim(db, now, worker, lease, token, pick).Some?
    ensures Inv(Claim(db, now, worker, lease, token, pick).value)
  {
    assert JobOk(db, pick);
    forall k: AttemptKey | k in db.attempts ensures AttemptOk(db, k) {
    }
    ClaimedAttemptsOk(pick, db.jobs[pick], db.attempts, now, worker, lease, token);
    var j := ClaimedJob(db.jobs[pick], now, worker, lease, token);
    OneJobChanged(db, pick, j, db.attempts[AttemptKey(pick, j.attemptCount) := NewAttempt(worker, token, now)]);
  }

  lemma EndLeaseKeepsInv(db: Database, id: Uuid, token: Uuid, verdict: Verdict, now: Time, j: Job)
    requires Inv(db) && HoldsLease(db, id, token)
    requires RowOk(j) && j.key == db.jobs[id].key && j.attemptCount == db.jobs[id].attemptCount && j.status != Running
    requires j.status == Succeeded <==> verdict == Success
    ensures Inv(db.(jobs := db.jobs[id := j], attempts := CloseAttempts(db.attempts, id, token, verdict, now)))
  {
    CloseLast(db, id, token, verdict, now);
    assert JobOk(db, id);
    forall k: AttemptKey | k in db.attempts ensures AttemptOk(db, k) {
    }
    OneJobChanged(db, id, j, CloseAttempts(db.attempts, id, token, verdict, now));
  }

  lemma RecoverOneKeepsInv(db: Database, now: Time, reason: string, id: Uuid)
    requires Inv(db) && id in db.jobs && Expired(db.jobs[id], now)
    ensures Inv(RecoverOne(db, now, reason, id))
  {
    var j := db.jobs[id];
    assert JobOk(db, id);
    EndLeaseKeepsInv(db, id, j.leaseToken.value, Failure(reason), now, RecoveredJob(j, now, reason));
  }

  lemma {:induction false} RecoverKeepsInv(db: Database, now: Time, reason: string, rows: seq<Uuid>)
    requires Inv(db) && Distinct(rows)
    requires forall id | id in rows :: id in db.jobs && Expired(db.jobs[id], now)
    ensures Inv(Recover(db, now, reason, rows))
    decreases |rows|
  {
    if rows != [] {
      RecoverOneKeepsInv(db, now, reason, rows[0]);
      RecoverKeepsInv(RecoverOne(db, now, reason, rows[0]), now, reason, rows[1..]);
    }
  }

  lemma HeartbeatKeepsInv(db: Database, now: Time, worker: string, status: WorkerStatus, lease: int, rows: set<Uuid>)
    requires Inv(db) && rows <= HeldJobs(db, worker)
    requires Heartbeat(db, now, worker, status, lease, rows).Some?
    ensures Inv(Heartbeat(db, now, worker, status, lease, rows).value)
  {
    var d := Heartbeat(db, now, worker, status, lease, rows).value;
    forall id | id in d.jobs ensures JobOk(d, id) {
      assert JobOk(db, id);
    }
    forall k | k in d.attempts ensures AttemptOk(d, k) {
      assert AttemptOk(db, k);
    }
    assert KeysUnique(d.jobs);
  }

  lemma NewJobKeepsInv(db: Database, id: Uuid, j: Job)
    requires Inv(db) && id !in db.jobs && RowOk(j) && j.attemptCount == 0
    requires !HasKey(db.jobs, j.key)
    ensures Inv(db.(jobs := db.jobs[id := j]))
  {
    var d := db.(jobs := db.jobs[id := j]);
    forall k: AttemptKey | k in db.attempts ensures k.job != id {
      assert AttemptOk(db, k);
    }
    forall n ensures AttemptKey(id, n) !in db.attempts {
    }
    forall i | i in d.jobs ensures JobOk(d, i) {
      if i != id {
        assert JobOk(db, i);
      }
    }
    forall k | k in d.attempts ensures AttemptOk(d, k) {
      assert AttemptOk(db, k);
    }
    assert KeysUnique(d.jobs);
  }

  lemma {:induction false} FireKeepsInv(db: Database, now: Time, scheduler: string, fires: seq<Fire>)
    requires Inv(db) && FireAll(db, now, scheduler, fires).Some?
    ensures Inv(FireAll(db, now, scheduler, fires).value)
    decreases |fires|
  {
    if fires != [] {
      var f := fires[0];
      var c := db.crons[f.cron];
      if !HasKey(db.jobs, Some(f.key)) {
        NewJobKeepsInv(db, f.job, NewJob(c.queue, c.priority, c.maxAttempts, Some(f.key), now, now));
      }
      var d := FireOne(db, now, scheduler, f).value;
      OtherTablesKeepInv(db.(jobs := d.jobs), d);
      FireKeepsInv(d, now, scheduler, fires[1..]);
    }
  }

  lemma OperatorKeepsInv(db: Database, id: Uuid, j: Job)
    requires Inv(db) && id in db.jobs
    requires JobOk(db, id) && RowOk(j) && j.key == db.jobs[id].key && j.attemptCount == db.jobs[id].attemptCount
    requires db.jobs[id].status != Running && db.jobs[id].status != Succeeded && j.status != Running
    requires j.status != Succeeded
    ensures Inv(db.(jobs := db.jobs[id := j]))
  {
    forall k: AttemptKey | k in db.attempts ensures AttemptOk(db, k) {
    }
    OneJobChanged(db, id, j, db.attempts);
  }

  lemma OtherTablesKeepInv(db: Database, d: Database)
    requires Inv(db) && d.jobs == db.jobs && d.attempts == db.attempts
    requires forall c :: c in d.crons ==> d.crons[c].maxAttempts >= 1
    ensures Inv(d)
  {
    forall id | id in d.jobs ensures JobOk(d, id) {
      assert JobOk(db, id);
    }
    forall k | k in d.attempts ensures AttemptOk(d, k) {
      assert AttemptOk(db, k);
    }
  }

  lemma InsertKeepsInv(db: Database, now: Time, id: Uuid, p: CreateParams)
    requires Inv(db) && Insert(db, now, id, p).Some?
    ensures Inv(Insert(db, now, id, p).value)
  {
    if !HasKey(db.jobs, KeyOf(p)) {
      NewJobKeepsInv(db, id, SubmittedJob(p, now));
    }
  }

  lemma CompleteKeepsInv(db: Database, now: Time, id: Uuid, token: Uuid)
    requires Inv(db) && Complete(db, now, id, token).Some?
    ensures Inv(Complete(db, now, id, token).value)
  {
    assert JobOk(db, id);
    EndLeaseKeepsInv(db, id, token, Success, now, CompletedJob(db.jobs[id], now));
  }

  lemma FailKeepsInv(db: Database, now: Time, id: Uuid, token: Uuid, message: string, policy: RetryPolicy)
    requires Inv(db) && Fail(db, now, id, token, message, policy).Some?
    ensures Inv(Fail(db, now, id, token, message, policy).value)
  {
    assert JobOk(db, id);
    EndLeaseKeepsInv(db, id, token, Failure(message), now, FailedJob(db.jobs[id], now, message, policy));
  }

  lemma OperatorsKeepInv(db: Database, now: Time, id: Uuid)
    requires Inv(db)
    ensures Retry(db, now, id).Some? ==> Inv(Retry(db, now, id).value)
    ensures Cancel(db, now, id).Some? ==> Inv(Cancel(db, now, id).value)
  {
    if id in db.jobs {
      assert JobOk(db, id);
      if Retriable(db.jobs[id]) {
        OperatorKeepsInv(db, id, RequeuedJob(db.jobs[id], now));
      } else if Waiting(db.jobs[id]) {
        OperatorKeepsInv(db, id, CancelledJob(db.jobs[id], now));
      }
    }
  }

  lemma CronAdminKeepsInv(db: Database, e: Event)
    requires Inv(db) && RowsMatch(db, e) && (e.ERegister? || e.ECreateCron? || e.ESetCron?)
    ensures Inv(Apply(db, e))
  {
    OtherTablesKeepInv(db, Apply(db, e));
  }

  /** Every transaction keeps the invariant. */
  lemma StepKeepsInv(db: Database, e: Event)
    requires Inv(db) && RowsMatch(db, e)
    ensures Inv(Apply(db, e))
  {
    if Transact(db, e).Some? {
      match e
      case EInsert(now, id, params) => InsertKeepsInv(db, now, id, params);
      case EClaim(now, _, worker, lease, token, pick) => ClaimKeepsInv(db, now, worker, lease, token, pick);
      case EComplete(now, id, token) => CompleteKeepsInv(db, now, id, token);
      case EFail(now, id, token, message, policy) => FailKeepsInv(db, now, id, token, message, policy);
      case ERecover(now, reason, rows) => RecoverKeepsInv(db, now, reason, rows);
      case EHeartbeat(now, worker, status, lease, held) => HeartbeatKeepsInv(db, now, worker, status, lease, held);
      case ERetry(now, id) => OperatorsKeepInv(db, now, id);
      case ECancel(now, id) => OperatorsKeepInv(db, now, id);
      case EFire(_, dbNow, scheduler, fires) => FireKeepsInv(db, dbNow, scheduler, fires);
      case _ => CronAdminKeepsInv(db, e);
    }
  }

  /** The invariant holds in every state of every run from an empty database. */
  lemma {:induction false} RunKeepsInv(states: seq<Database>, events: seq<Event>, i: nat)
    requires Run(states, events) && i < |states|
    ensures Inv(states[i])
  {
    if i > 0 {
      RunKeepsInv(states, events, i - 1);
      assert StepAt(states, events, i - 1);
      StepKeepsInv(states[i - 1], events[i - 1]);
    }
  }
}
