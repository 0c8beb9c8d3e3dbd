/** Facts about whole runs: fencing, finality of success, idempotent submission, and the spacing of attempts. */
module History {
  import opened Prelude
  import opened Keys
  import opened Tables
  import opened Transactions
  import opened Protocol
  import opened Invariant
  import opened Steps
  import opened Backoff

  lemma StepOf(states: seq<Database>, events: seq<Event>, i: nat)
    requires Run(states, events) && i < |events|
    ensures RowsMatch(states[i], events[i]) && states[i + 1] == Apply(states[i], events[i])
  {
    assert StepAt(states, events, i);
  }

  // Attempts.

  lemma {:induction false} RecoverKeepsAttempts(db: Database, now: Time, reason: string, rows: seq<Uuid>, k: AttemptKey)
    requires forall id | id in rows :: id in db.jobs
    requires k in db.attempts
    ensures var d := Recover(db, now, reason, rows);
            k in d.attempts && d.attempts[k].token == db.attempts[k].token
                && d.attempts[k].startedAt == db.attempts[k].startedAt
    decreases |rows|
  {
    if rows != [] {
      RecoverKeepsAttempts(RecoverOne(db, now, reason, rows[0]), now, reason, rows[1..], k);
    }
  }

  /** Attempts are never deleted; their token and start never change. */
  lemma StepKeepsAttempts(db: Database, e: Event, k: AttemptKey)
    requires RowsMatch(db, e) && k in db.attempts
    ensures var d := Apply(db, e);
            k in d.attempts && d.attempts[k].token == db.attempts[k].token
                && d.attempts[k].startedAt == db.attempts[k].startedAt
  {
    match e
    case ERecover(now, reason, rows) => RecoverKeepsAttempts(db, now, reason, rows, k);
    case EFire(_, dbNow, scheduler, fires) =>
      if FireAll(db, dbNow, scheduler, fires).Some? {
        FireAddsJobs(db, dbNow, scheduler, fires);
      }
    case _ =>
  }

  lemma {:induction false} AttemptsForever(states: seq<Database>, events: seq<Event>, i: nat, m: nat, k: AttemptKey)
    requires Run(states, events) && i <= m < |states|
    requires k in states[i].attempts
    ensures k in states[m].attempts && states[m].attempts[k].token == states[i].attempts[k].token
    ensures states[m].attempts[k].startedAt == states[i].attempts[k].startedAt
    ensures states[i].attempts[k].status != AttemptRunning ==> states[m].attempts[k] == states[i].attempts[k]
    decreases m - i
  {
    if i < m {
      AttemptsForever(states, events, i, m - 1, k);
      StepOf(states, events, m - 1);
      StepKeepsAttempts(states[m - 1], events[m - 1], k);
      if states[i].attempts[k].status != AttemptRunning {
        StepKeepsClosed(states[m - 1], events[m - 1], k);
      }
    }
  }

  /** The token of a closed attempt opens nothing. */
  lemma ClosedTokenRejected(db: Database, k: AttemptKey)
    requires Inv(db) && k in db.attempts && db.attempts[k].status != AttemptRunning
    ensures !HoldsLease(db, k.job, db.attempts[k].token)
  {
    assert AttemptOk(db, k);
    assert JobOk(db, k.job);
    assert k == AttemptKey(k.job, k.number);
  }

  /** Fencing for ever: once a held lease is no longer held, every later completion or failure under its token
      is rejected and changes nothing, whatever happened in between, re-claims and repeated tokens included. */
  lemma FencedForever(states: seq<Database>, events: seq<Event>, i: nat, lost: nat, m: nat, id: Uuid, token: Uuid,
                      now: Time, message: string, policy: RetryPolicy)
    requires Run(states, events) && i <= lost <= m < |states|
    requires HoldsLease(states[i], id, token) && !HoldsLease(states[lost], id, token)
    ensures Complete(states[m], now, id, token).None? && Apply(states[m], EComplete(now, id, token)) == states[m]
    ensures Fail(states[m], now, id, token, message, policy).None?
            && Apply(states[m], EFail(now, id, token, message, policy)) == states[m]
  {
    RunKeepsInv(states, events, i);
    RunKeepsInv(states, events, lost);
    RunKeepsInv(states, events, m);
    assert JobOk(states[i], id);
    var k := AttemptKey(id, states[i].jobs[id].attemptCount);
    AttemptsForever(states, events, i, lost, k);
    assert states[lost].attempts[k].status != AttemptRunning by {
      OpenMeansHeld(states[lost], k);
    }
    AttemptsForever(states, events, lost, m, k);
    ClosedTokenRejected(states[m], k);
  }

  lemma OpenMeansHeld(db: Database, k: AttemptKey)
    requires Inv(db) && k in db.attempts
    ensures db.attempts[k].status == AttemptRunning ==> HoldsLease(db, k.job, db.attempts[k].token)
  {
    assert AttemptOk(db, k);
    assert JobOk(db, k.job);
    assert k == AttemptKey(k.job, k.number);
  }

  // Success.

  lemma {:induction false} RowForever(states: seq<Database>, events: seq<Event>, i: nat, m: nat, id: Uuid)
    requires Run(states, events) && i <= m < |states| && id in states[i].jobs
    ensures id in states[m].jobs
    ensures states[m].jobs[id].key == states[i].jobs[id].key
    ensures states[i].jobs[id].attemptCount <= states[m].jobs[id].attemptCount
    ensures states[i].jobs[id].status == Succeeded ==> states[m].jobs[id] == states[i].jobs[id]
    decreases m - i
  {
    if i < m {
      RowForever(states, events, i, m - 1, id);
      StepOf(states, events, m - 1);
      StepMovesRow(states[m - 1], events[m - 1], id);
    }
  }

  /** Success is final: no later step of any kind changes a succeeded job or any of its attempts. */
  lemma SuccessIsFinal(states: seq<Database>, events: seq<Event>, i: nat, m: nat, id: Uuid)
    requires Run(states, events) && i <= m < |states|
    requires id in states[i].jobs && states[i].jobs[id].status == Succeeded
    ensures id in states[m].jobs && states[m].jobs[id] == states[i].jobs[id]
    ensures forall n :: AttemptKey(id, n) in states[m].attempts <==> AttemptKey(id, n) in states[i].attempts
    ensures forall n :: AttemptKey(id, n) in states[i].attempts
              ==> states[m].attempts[AttemptKey(id, n)] == states[i].attempts[AttemptKey(id, n)]
  {
    RowForever(states, events, i, m, id);
    RunKeepsInv(states, events, i);
    RunKeepsInv(states, events, m);
    assert JobOk(states[i], id) && JobOk(states[m], id);
    forall n | AttemptKey(id, n) in states[i].attempts
      ensures states[m].attempts[AttemptKey(id, n)] == states[i].attempts[AttemptKey(id, n)]
    {
      AttemptsForever(states, events, i, m, AttemptKey(id, n));
    }
  }

  /** Success is unique: a job has a succeeded attempt exactly when it has succeeded, and that is its last attempt. */
  lemma SuccessIsUnique(states: seq<Database>, events: seq<Event>, m: nat, k: AttemptKey)
    requires Run(states, events) && m < |states| && k in states[m].attempts
    ensures k.job in states[m].jobs
    ensures states[m].attempts[k].status == AttemptSucceeded
            <==> states[m].jobs[k.job].status == Succeeded && k.number == states[m].jobs[k.job].attemptCount
  {
    RunKeepsInv(states, events, m);
    assert AttemptOk(states[m], k);
    assert JobOk(states[m], k.job);
    assert k == AttemptKey(k.job, k.number);
  }

  // Submission.

  lemma FireOneKeepsKeys(db: Database, now: Time, scheduler: string, f: Fire)
    requires KeysUnique(db.jobs) && FireOne(db, now, scheduler, f).Some?
    ensures var d := FireOne(db, now, scheduler, f).value;
            KeysUnique(d.jobs) && forall id :: id in db.jobs ==> id in d.jobs && d.jobs[id] == db.jobs[id]
  {
  }

  /** Within a firing transaction, every fire that derives the key of a known job is handed that job, and the
      transaction leaves the job alone and gives the key to no other. */
  lemma {:induction false} FiresFindKnownJob(db: Database, now: Time, scheduler: string, fires: seq<Fire>, id: Uuid)
    requires KeysUnique(db.jobs) && id in db.jobs && db.jobs[id].key.Some? && FireAll(db, now, scheduler, fires).Some?
    ensures forall i :: 0 <= i < |fires| && Some(fires[i].key) == db.jobs[id].key ==> fires[i].job == id
    ensures var d := FireAll(db, now, scheduler, fires).value;
            && KeysUnique(d.jobs) && id in d.jobs && d.jobs[id] == db.jobs[id]
    decreases |fires|
  {
    if fires != [] {
      FireOneKeepsKeys(db, now, scheduler, fires[0]);
      FiresFindKnownJob(FireOne(db, now, scheduler, fires[0]).value, now, scheduler, fires[1..], id);
      forall i | 0 <= i < |fires| && Some(fires[i].key) == db.jobs[id].key ensures fires[i].job == id {
        if i > 0 {
          assert fires[1..][i - 1] == fires[i];
        }
      }
    }
  }

  /** Idempotent submission: once a job has a key, at every later moment that key belongs to it alone. An insert
      with the key then does nothing, a lookup at any still later moment finds the same job, and every fire of a
      cron transaction that derives the key is handed this job, which the transaction leaves alone. */
  lemma SubmissionIsIdempotent(states: seq<Database>, events: seq<Event>, i: nat, m: nat, later: nat, id: Uuid,
                               p: CreateParams, now: Time, other: Uuid, scheduler: string, fires: seq<Fire>)
    requires Run(states, events) && i <= m <= later < |states| && id in states[i].jobs
    requires ValidParams(p) && KeyOf(p).Some? && states[i].jobs[id].key == KeyOf(p)
    ensures Insert(states[m], now, other, p) == Some(states[m])
    ensures id in states[later].jobs && states[later].jobs[id].key == KeyOf(p)
    ensures forall j :: j in states[later].jobs && states[later].jobs[j].key == KeyOf(p) ==> j == id
    ensures id in states[m].jobs
    ensures FireAll(states[m], now, scheduler, fires).Some? ==>
              && (forall x :: 0 <= x < |fires| && Some(fires[x].key) == KeyOf(p) ==> fires[x].job == id)
              && var d := FireAll(states[m], now, scheduler, fires).value;
                 && id in d.jobs && d.jobs[id] == states[m].jobs[id]
                 && forall j :: j in d.jobs && d.jobs[j].key == KeyOf(p) ==> j == id
  {
    RowForever(states, events, i, m, id);
    RowForever(states, events, i, later, id);
    RunKeepsInv(states, events, m);
    RunKeepsInv(states, events, later);
    if FireAll(states[m], now, scheduler, fires).Some? {
      FiresFindKnownJob(states[m], now, scheduler, fires, id);
    }
  }

  // Spacing of attempts.

  /** While no manual retry touches a waiting job, and no further attempt starts, it keeps its due time or has been
      cancelled. */
  lemma {:induction false} DueTimeKept(states: seq<Database>, events: seq<Event>, i: nat, m: nat, id: Uuid, due: Time)
    requires Run(states, events) && i <= m < |states|
    requires id in states[i].jobs && Waiting(states[i].jobs[id]) && states[i].jobs[id].availableAt == due
    requires forall x :: i <= x < m && events[x].ERetry? ==> events[x].id != id
    requires id in states[m].jobs && states[m].jobs[id].attemptCount == states[i].jobs[id].attemptCount
    ensures states[m].jobs[id].status == Cancelled
            || (states[m].jobs[id].status == states[i].jobs[id].status && states[m].jobs[id].availableAt == due)
    ensures states[m].jobs[id].queue == states[i].jobs[id].queue
    decreases m - i
  {
    if i < m {
      RowForever(states, events, i, m - 1, id);
      RowForever(states, events, m - 1, m, id);
      DueTimeKept(states, events, i, m - 1, id, due);
      StepOf(states, events, m - 1);
      StepMovesRow(states[m - 1], events[m - 1], id);
    }
  }

  ghost predicate ReportedFailure(states: seq<Database>, events: seq<Event>, i: nat, id: Uuid)
    requires Run(states, events) && i < |events|
  {
    events[i].EFail? && events[i].id == id && HoldsLease(states[i], id, events[i].token)
  }

  ghost predicate ClaimedAt(states: seq<Database>, events: seq<Event>, m: nat, id: Uuid)
    requires Run(states, events) && m < |events|
  {
    events[m].EClaim? && events[m].pick == id
    && RowsMatch(states[m], events[m]) && Transact(states[m], events[m]).Some?
  }

  /** Backoff is honoured: the attempt that follows a reported failure of attempt n, with no manual retry between,
      starts no earlier than that failure's time plus the delay for n. No assumption is made on the clock. */
  lemma BackoffIsHonoured(states: seq<Database>, events: seq<Event>, i: nat, m: nat, id: Uuid)
    requires Run(states, events) && i < m < |events|
    requires ReportedFailure(states, events, i, id) && ClaimedAt(states, events, m, id)
    requires states[m].jobs[id].attemptCount == states[i].jobs[id].attemptCount
    requires forall x :: i < x < m && events[x].ERetry? ==> events[x].id != id
    ensures var n := states[i].jobs[id].attemptCount;
            var failed, next := AttemptKey(id, n), AttemptKey(id, n + 1);
            && failed in states[m + 1].attempts && next in states[m + 1].attempts
            && states[m + 1].attempts[failed].finishedAt == Some(events[i].now)
            && states[m + 1].attempts[next].startedAt >= events[i].now + Delay(events[i].policy, n)
  {
    var e := events[i];
    var n := states[i].jobs[id].attemptCount;
    StepOf(states, events, i);
    StepOf(states, events, m);
    RunKeepsInv(states, events, i);
    RunKeepsInv(states, events, i + 1);
    CloseLast(states[i], id, e.token, Failure(e.message), e.now);
    AcceptedExactlyForHolder(states[i], e.now, id, e.token, e.message, e.policy);
    DelayBoundedAndMonotone(e.policy, n, n);
    AttemptsForever(states, events, i + 1, m + 1, AttemptKey(id, n));
    if MayRetry(states[i].jobs[id]) {
      DueTimeKept(states, events, i + 1, m, id, e.now + Delay(e.policy, n));
    } else {
      DeadStaysDead(states, events, i + 1, m, id);
    }
  }

  // Exactly when a job is due.

  /** From state i to state m no attempt at job id begins and nobody retries it by hand, and it is not cancelled. */
  ghost predicate LeftAlone(states: seq<Database>, events: seq<Event>, i: nat, m: nat, id: Uuid)
    requires Run(states, events) && i <= m < |states| && id in states[i].jobs
  {
    && id in states[m].jobs && states[m].jobs[id].attemptCount == states[i].jobs[id].attemptCount
    && states[m].jobs[id].status != Cancelled
    && forall x :: i <= x < m && events[x].ERetry? ==> events[x].id != id
  }

  lemma DueExactlyFrom(states: seq<Database>, events: seq<Event>, i: nat, m: nat, id: Uuid, due: Time, t: Time)
    requires Run(states, events) && i <= m < |states| && id in states[i].jobs && LeftAlone(states, events, i, m, id)
    requires Waiting(states[i].jobs[id]) && states[i].jobs[id].availableAt == due
    ensures Claimable(states[m].jobs[id], states[i].jobs[id].queue, t) <==> t >= due
  {
    DueTimeKept(states, events, i, m, id, due);
  }

  /** After a reported failure with attempts left, the job is due from the failure's time plus its delay on, and not
      before, for as long as it is left alone. */
  lemma RetryIsDueExactly(states: seq<Database>, events: seq<Event>, i: nat, m: nat, id: Uuid, t: Time)
    requires Run(states, events) && i < m < |states| && ReportedFailure(states, events, i, id)
    requires states[i].jobs[id].attemptCount < Max(1, states[i].jobs[id].maxAttempts)
    requires LeftAlone(states, events, i, m, id)
    ensures var j := states[i].jobs[id];
            Claimable(states[m].jobs[id], j.queue, t)
            <==> t >= events[i].now + Delay(events[i].policy, j.attemptCount)
  {
    var j, e := states[i].jobs[id], events[i];
    StepOf(states, events, i);
    RunKeepsInv(states, events, i);
    AcceptedExactlyForHolder(states[i], e.now, id, e.token, e.message, e.policy);
    DelayBoundedAndMonotone(e.policy, j.attemptCount, j.attemptCount);
    DueExactlyFrom(states, events, i + 1, m, id, e.now + Delay(e.policy, j.attemptCount), t);
  }

  /** A recovered job with attempts left is due from the time of the recovery on. */
  lemma RecoveredIsDueExactly(states: seq<Database>, events: seq<Event>, i: nat, m: nat, id: Uuid, t: Time)
    requires Run(states, events) && i < m < |states| && i < |events|
    requires events[i].ERecover? && id in events[i].rows && id in states[i].jobs
    requires states[i].jobs[id].attemptCount < Max(1, states[i].jobs[id].maxAttempts)
    requires LeftAlone(states, events, i, m, id)
    ensures Claimable(states[m].jobs[id], states[i].jobs[id].queue, t) <==> t >= events[i].now
  {
    StepOf(states, events, i);
    RecoverRows(states[i], events[i].now, events[i].reason, events[i].rows);
    DueExactlyFrom(states, events, i + 1, m, id, events[i].now, t);
  }

  /** A submitted job is due in its queue from the time of its submission plus the delay asked for on. */
  lemma SubmittedIsDueExactly(states: seq<Database>, events: seq<Event>, i: nat, m: nat, t: Time)
    requires Run(states, events) && i < m < |states| && i < |events|
    requires events[i].EInsert? && events[i].id !in states[i].jobs && events[i].id in states[i + 1].jobs
    requires LeftAlone(states, events, i + 1, m, events[i].id)
    ensures var p := events[i].params;
            Claimable(states[m].jobs[events[i].id], if p.queue == "" then "default" else p.queue, t)
            <==> t >= events[i].now + p.delaySeconds * SECOND
  {
    StepOf(states, events, i);
    DueExactlyFrom(states, events, i + 1, m, events[i].id, events[i].now + events[i].params.delaySeconds * SECOND, t);
  }

  lemma {:induction false} DeadStaysDead(states: seq<Database>, events: seq<Event>, i: nat, m: nat, id: Uuid)
    requires Run(states, events) && i <= m < |states|
    requires id in states[i].jobs && states[i].jobs[id].status == DeadLetter
    requires forall x :: i <= x < m && events[x].ERetry? ==> events[x].id != id
    ensures id in states[m].jobs && states[m].jobs[id] == states[i].jobs[id]
    decreases m - i
  {
    if i < m {
      DeadStaysDead(states, events, i, m - 1, id);
      StepOf(states, events, m - 1);
      StepMovesRow(states[m - 1], events[m - 1], id);
    }
  }

  // Attempt intervals.

  predicate Before(a: Attempt, b: Attempt) {
    a.finishedAt.Some? && a.finishedAt.value <= b.startedAt
  }

  /** The database clock of a step: the instant at which its transaction began. */
  function Clock(e: Event): Time {
    if e.EFire? then e.dbNow else e.now
  }

  /** How one step can change an attempt row: it closes, or it stays. */
  predicate AttemptMove(e: Event, a: Attempt, a': Attempt) {
    a' == a || (a.status == AttemptRunning && a'.startedAt == a.startedAt && a'.finishedAt == Some(Clock(e)))
  }

  lemma StepMovesAttempt(db: Database, e: Event, k: AttemptKey)
    requires RowsMatch(db, e) && k in Apply(db, e).attempts
    ensures var a := Apply(db, e).attempts[k];
            if k in db.attempts then AttemptMove(e, db.attempts[k], a)
            else a.startedAt == Clock(e) && a.finishedAt == None
  {
    match e
    case ERecover(now, reason, rows) => RecoverMovesAttempt(db, now, reason, rows, k);
    case EFire(_, dbNow, scheduler, fires) =>
      if FireAll(db, dbNow, scheduler, fires).Some? {
        FireAddsJobs(db, dbNow, scheduler, fires);
      }
    case _ =>
  }

  lemma {:induction false} RecoverMovesAttempt(db: Database, now: Time, reason: string, rows: seq<Uuid>, k: AttemptKey)
    requires forall id | id in rows :: id in db.jobs
    requires k in Recover(db, now, reason, rows).attempts
    ensures k in db.attempts
    ensures var a := Recover(db, now, reason, rows).attempts[k];
            || a == db.attempts[k]
            || (db.attempts[k].status == AttemptRunning && a.startedAt == db.attempts[k].startedAt
                && a.finishedAt == Some(now))
    decreases |rows|
  {
    if rows != [] {
      var d := RecoverOne(db, now, reason, rows[0]);
      RecoverMovesAttempt(d, now, reason, rows[1..], k);
      if d.attempts[k].status != AttemptRunning {
        RecoverKeepsClosed(d, now, reason, rows[1..], k);
      }
    }
  }

  /** Whether a manual retry takes effect although it is dated before the end of the job's last attempt, its n-th. */
  predicate EarlyRetry(db: Database, e: Event, id: Uuid, n: int) {
    && e.ERetry? && e.id == id && id in db.jobs && Retriable(db.jobs[id]) && db.jobs[id].attemptCount == n
    && AttemptKey(id, n) in db.attempts && db.attempts[AttemptKey(id, n)].finishedAt.Some?
    && e.now < db.attempts[AttemptKey(id, n)].finishedAt.value
  }

  /** Attempt n of a job ends before attempt n + 1 starts; until then a waiting job is not due before that end. */
  predicate InOrder(db: Database, id: Uuid, n: int) {
    var k, next := AttemptKey(id, n), AttemptKey(id, n + 1);
    && (k in db.attempts && next in db.attempts ==> Before(db.attempts[k], db.attempts[next]))
    && (k in db.attempts && db.attempts[k].finishedAt.Some? && id in db.jobs && db.jobs[id].attemptCount == n
        && Waiting(db.jobs[id])
        ==> db.jobs[id].availableAt >= db.attempts[k].finishedAt.value)
  }

  /** A move that leaves a job waiting keeps its row, or is a retry, or ends its lease. */
  lemma MoveToWaiting(e: Event, id: Uuid, j: Job, j': Job)
    requires RowMove(e, id, j, j') && Waiting(j')
    ensures || j' == j
            || (e.ERetry? && e.id == id && Retriable(j) && j'.availableAt == e.now && j'.attemptCount == j.attemptCount)
            || (!e.EFire? && j.status == Running && j'.availableAt >= e.now && j'.attemptCount == j.attemptCount)
  {
  }

  lemma DueAfterEnd(e: Event, id: Uuid, j: Job, j': Job, a: Attempt, a': Attempt)
    requires RowMove(e, id, j, j') && Waiting(j') && RowOk(j) && LastAttemptOk(j, a) && AttemptMove(e, a, a')
    requires a.finishedAt.Some? <==> a.status != AttemptRunning
    requires Waiting(j) && a.finishedAt.Some? ==> j.availableAt >= a.finishedAt.value
    requires e.ERetry? && e.id == id && Retriable(j) && a.finishedAt.Some? ==> e.now >= a.finishedAt.value
    ensures a'.finishedAt.Some? ==> j'.availableAt >= a'.finishedAt.value
  {
    MoveToWaiting(e, id, j, j');
  }

  /** A waiting job is not due before the end of its last attempt, after any step but an early retry. */
  lemma StepKeepsDueTime(db: Database, e: Event, id: Uuid, n: int, d: Database)
    requires RowsMatch(db, e) && Inv(db) && d == Apply(db, e) && Inv(d) && InOrder(db, id, n)
    requires !EarlyRetry(db, e, id, n)
    requires AttemptKey(id, n) in d.attempts && d.attempts[AttemptKey(id, n)].finishedAt.Some?
    requires id in d.jobs && d.jobs[id].attemptCount == n && Waiting(d.jobs[id])
    ensures d.jobs[id].availableAt >= d.attempts[AttemptKey(id, n)].finishedAt.value
  {
    var k := AttemptKey(id, n);
    StepMovesAttempt(db, e, k);
    assert AttemptOk(db, k) && JobOk(db, id);
    StepMovesRow(db, e, id);
    MoveToWaiting(e, id, db.jobs[id], d.jobs[id]);
    DueAfterEnd(e, id, db.jobs[id], d.jobs[id], db.attempts[k], d.attempts[k]);
  }

  lemma StepKeepsOrder(db: Database, e: Event, id: Uuid, n: int)
    requires RowsMatch(db, e) && Inv(db) && Inv(Apply(db, e)) && InOrder(db, id, n) && !EarlyRetry(db, e, id, n)
    ensures InOrder(Apply(db, e), id, n)
  {
    var d := Apply(db, e);
    var k, next := AttemptKey(id, n), AttemptKey(id, n + 1);
    if k in d.attempts && next in d.attempts {
      StepMovesAttempt(db, e, k);
      StepMovesAttempt(db, e, next);
      assert AttemptOk(d, k) && JobOk(d, id);
      assert d.attempts[k].status == AttemptFailed;
      if next in db.attempts {
        assert AttemptOk(db, next) && JobOk(db, id);
        assert k in db.attempts && db.attempts[k].status == AttemptFailed;
        assert AttemptOk(db, k);
      } else {
        NextAttemptIsClaimed(db, e, id, n, d);
      }
    }
    if k in d.attempts && d.attempts[k].finishedAt.Some? && id in d.jobs && d.jobs[id].attemptCount == n
        && Waiting(d.jobs[id]) {
      StepKeepsDueTime(db, e, id, n, d);
    }
  }

  lemma MoveThatCounts(e: Event, id: Uuid, j: Job, j': Job)
    requires RowMove(e, id, j, j') && j'.attemptCount > j.attemptCount
    ensures e.EClaim? && Waiting(j) && j.availableAt <= e.now && j'.attemptCount == j.attemptCount + 1
  {
  }

  /** A next attempt appears by a claim of the waiting job, whose last attempt has ended. */
  lemma NextAttemptIsClaimed(db: Database, e: Event, id: Uuid, n: int, d: Database)
    requires RowsMatch(db, e) && Inv(db) && d == Apply(db, e) && Inv(d)
    requires AttemptKey(id, n) in d.attempts && AttemptKey(id, n + 1) in d.attempts
    requires AttemptKey(id, n + 1) !in db.attempts
    ensures AttemptKey(id, n) in db.attempts && db.attempts[AttemptKey(id, n)].finishedAt.Some?
    ensures id in db.jobs && db.jobs[id].attemptCount == n && Waiting(db.jobs[id])
    ensures e.EClaim? && db.jobs[id].availableAt <= e.now == d.attempts[AttemptKey(id, n + 1)].startedAt
    ensures d.attempts[AttemptKey(id, n)] == db.attempts[AttemptKey(id, n)]
  {
    var k, next := AttemptKey(id, n), AttemptKey(id, n + 1);
    assert AttemptOk(d, next) && JobOk(d, id);
    if id !in db.jobs {
      NewRowsAreQueued(db, e, id);
    } else {
      assert JobOk(db, id);
      StepMovesRow(db, e, id);
      MoveThatCounts(e, id, db.jobs[id], d.jobs[id]);
      assert AttemptOk(db, k);
      StepMovesAttempt(db, e, next);
      StepKeepsClosed(db, e, k);
    }
  }

  /** Attempts never overlap unless an early retry intervenes: attempt n + 1 of a job starts no earlier than attempt n
      finished, for arbitrary clocks, if every manual retry that takes effect in between is dated no earlier than
      that finish. */
  lemma {:induction false} AttemptsNeverOverlap(states: seq<Database>, events: seq<Event>, m: nat, id: Uuid, n: int)
    requires Run(states, events) && m < |states|
    requires forall x :: 0 <= x < m ==> !EarlyRetry(states[x], events[x], id, n)
    ensures InOrder(states[m], id, n)
    ensures AttemptKey(id, n) in states[m].attempts && AttemptKey(id, n + 1) in states[m].attempts
            ==> Before(states[m].attempts[AttemptKey(id, n)], states[m].attempts[AttemptKey(id, n + 1)])
  {
    if m > 0 {
      AttemptsNeverOverlap(states, events, m - 1, id, n);
      StepOf(states, events, m - 1);
      RunKeepsInv(states, events, m - 1);
      RunKeepsInv(states, events, m);
      StepKeepsOrder(states[m - 1], events[m - 1], id, n);
    }
  }

  lemma ClaimStartsAttempt(d: Database, claim: Event, id: Uuid, n: int)
    requires claim.EClaim? && claim.pick == id && id in d.jobs && Claimable(d.jobs[id], claim.queue, claim.now)
    requires d.jobs[id].attemptCount == n && AttemptKey(id, n + 1) !in d.attempts
    requires forall k | k in d.attempts :: k.job == id ==> d.attempts[k].token != claim.token
    ensures RowsMatch(d, claim) && Transact(d, claim).Some?
    ensures Apply(d, claim).attempts
            == d.attempts[AttemptKey(id, n + 1) := NewAttempt(claim.worker, claim.token, claim.now)]
  {
  }

  /** An early retry does allow an overlap: a claim at the retry's own instant starts the next attempt before the
      last one finished. */
  lemma EarlyRetryOverlaps(db: Database, retry: Event, id: Uuid, n: int, worker: string, lease: int, token: Uuid)
    requires Inv(db) && EarlyRetry(db, retry, id, n)
    requires forall k | k in db.attempts :: k.job == id ==> db.attempts[k].token != token
    ensures var claim := EClaim(retry.now, db.jobs[id].queue, worker, lease, token, id);
            && RowsMatch(Apply(db, retry), claim) && Transact(Apply(db, retry), claim).Some?
            && var d := Apply(Apply(db, retry), claim);
               && AttemptKey(id, n) in d.attempts && AttemptKey(id, n + 1) in d.attempts
               && !Before(d.attempts[AttemptKey(id, n)], d.attempts[AttemptKey(id, n + 1)])
  {
    assert JobOk(db, id);
    assert AttemptKey(id, n + 1) !in db.attempts;
    ClaimStartsAttempt(Apply(db, retry), EClaim(retry.now, db.jobs[id].queue, worker, lease, token, id), id, n);
  }

  /** The transactions commit in the order of their clocks. */
  ghost predicate ClockForward(events: seq<Event>) {
    forall i, j :: 0 <= i < j < |events| ==> Clock(events[i]) <= Clock(events[j])
  }

  predicate EndsAfterStart(a: Attempt, t: Time) {
    a.startedAt <= t && (a.finishedAt.Some? ==> a.startedAt <= a.finishedAt.value <= t)
  }

  /** If transactions commit in the order of their clocks, no attempt ends before it started. */
  lemma {:induction false} AttemptsEndAfterStart(states: seq<Database>, events: seq<Event>, m: nat, k: AttemptKey)
    requires Run(states, events) && ClockForward(events) && m < |states| && k in states[m].attempts
    ensures m > 0 && EndsAfterStart(states[m].attempts[k], Clock(events[m - 1]))
  {
    if m > 0 {
      StepOf(states, events, m - 1);
      RunKeepsInv(states, events, m - 1);
      StepMovesAttempt(states[m - 1], events[m - 1], k);
      if k in states[m - 1].attempts {
        AttemptsEndAfterStart(states, events, m - 1, k);
        assert AttemptOk(states[m - 1], k);
      }
    }
  }

  /** Every job that is not finished can be picked up again: it is claimable from some moment on, or its lease
      can be recovered from some moment on. */
  lemma NoStrandedJob(states: seq<Database>, events: seq<Event>, m: nat, id: Uuid) returns (from: Time)
    requires Run(states, events) && m < |states| && id in states[m].jobs && !Terminal(states[m].jobs[id].status)
    ensures forall now :: now >= from
              <==> Claimable(states[m].jobs[id], states[m].jobs[id].queue, now) || Expired(states[m].jobs[id], now)
  {
    RunKeepsInv(states, events, m);
    assert JobOk(states[m], id);
    var j := states[m].jobs[id];
    from := if j.status == Running then j.lockedUntil.value else j.availableAt;
  }
}
