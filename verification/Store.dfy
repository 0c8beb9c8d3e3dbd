/** The store: its tables as fields, one method per transaction, written as the statements run. */
module StoreModel {
  import opened Prelude
  import opened Keys
  import opened Text
  import opened Tables
  import opened Transactions
  import opened Protocol
  import opened Steps
  import opened Queries
  import opened Backoff
  import opened Leases
  import opened CronRuns
  import opened Queues
  import CronSyntax

  // The sort orders of the three queries.

  function ClaimRank(j: Job): Rank {
    Rank(-j.priority, j.availableAt, j.createdAt)
  }

  function DueJobs(db: Database, queue: string, now: Time): map<Uuid, Rank> {
    map id | id in db.jobs && Claimable(db.jobs[id], queue, now) :: ClaimRank(db.jobs[id])
  }

  function ExpiredRanks(db: Database, now: Time): map<Uuid, Rank> {
    map id | id in db.jobs && Expired(db.jobs[id], now) :: Rank(db.jobs[id].lockedUntil.value, db.jobs[id].createdAt, 0)
  }

  /** The claim order: the highest priority first, then the earliest due, then the oldest. */
  lemma FirstInClaimOrder(db: Database, queue: string, now: Time, id: Uuid)
    ensures IsFirst(DueJobs(db, queue, now), id) <==>
              && id in db.jobs && db.jobs[id].queue == queue
              && db.jobs[id].status in {Queued, RetryScheduled} && db.jobs[id].availableAt <= now
              && forall other | other in db.jobs ::
                   var j, k := db.jobs[id], db.jobs[other];
                   (k.queue == queue && k.status in {Queued, RetryScheduled} && k.availableAt <= now)
                   ==> || j.priority > k.priority
                       || (j.priority == k.priority && j.availableAt < k.availableAt)
                       || (j.priority == k.priority && j.availableAt == k.availableAt && j.createdAt <= k.createdAt)
  {
    var due := DueJobs(db, queue, now);
    forall other ensures other in due <==> other in db.jobs && Claimable(db.jobs[other], queue, now) {
    }
    if id in due {
      forall other | other in due
        ensures var j, k := db.jobs[id], db.jobs[other];
                AtMost(due[id], due[other])
                <==> || j.priority > k.priority
                     || (j.priority == k.priority && j.availableAt < k.availableAt)
                     || (j.priority == k.priority && j.availableAt == k.availableAt && j.createdAt <= k.createdAt)
      {
      }
    }
  }

  lemma NothingIsDue(db: Database, queue: string, now: Time)
    ensures DueJobs(db, queue, now) == map[]
            <==> forall k | k in db.jobs && db.jobs[k].queue == queue ::
                   db.jobs[k].status in {Queued, RetryScheduled} ==> now < db.jobs[k].availableAt
  {
    if k :| k in db.jobs && Claimable(db.jobs[k], queue, now) {
      assert k in DueJobs(db, queue, now);
    }
  }

  /** A first due job rejects the lease token. */
  ghost predicate ClaimRejected(db: Database, queue: string, now: Time, worker: string, lease: int, token: Uuid) {
    exists id :: IsFirst(DueJobs(db, queue, now), id) && id in db.jobs && Claim(db, now, worker, lease, token, id).None?
  }

  /** Cron jobs by next run; the order of names among equals is left open. */
  function DueCrons(db: Database, now: Time): map<Uuid, Rank> {
    map id | id in db.crons && db.crons[id].enabled && db.crons[id].nextRunAt <= now
      :: Rank(db.crons[id].nextRunAt, 0, 0)
  }

  function Trimmed(p: CronParams): CronParams {
    p.(name := TrimSpace(p.name), queue := TrimSpace(p.queue), kind := TrimSpace(p.kind),
       schedule := TrimSpace(p.schedule))
  }

  /** A reference that reads as an identifier names the cron job with that identifier, never one by name. */
  predicate RefersTo(db: Database, ref: string, parse: string -> Option<Uuid>, id: Uuid) {
    id in db.crons && if parse(ref).Some? then parse(ref).value == id else db.crons[id].name == ref
  }

  /** A blank scheduler identifier is replaced. */
  function SchedulerName(schedulerId: string): string {
    if Blank(schedulerId) then "scheduler-unknown" else schedulerId
  }

  datatype CreateResult = Created(id: Uuid) | Existing(id: Uuid) | CreateRejected

  datatype ClaimResult = Claimed(id: Uuid, job: Job) | NothingDue | ClaimFailed

  datatype FireResult = Fired(fires: seq<Fire>, inserted: seq<Fire>) | FireFailed(attempted: seq<Fire>)

  predicate AllKnown(db: Database, rows: seq<Uuid>) {
    forall id | id in rows :: id in db.jobs
  }

  lemma RowsExpired(db: Database, now: Time, limit: nat, rows: seq<Uuid>)
    requires OrderedLimit(ExpiredRanks(db, now), limit, rows)
    ensures AllKnown(db, rows) && forall id | id in rows :: Expired(db.jobs[id], now)
  {
    forall id | id in rows ensures id in ExpiredRanks(db, now) {
      var i :| 0 <= i < |rows| && rows[i] == id;
    }
  }

  /** The rows that the recovery query selects are an undisturbed pass. */
  lemma SelectedPassIsFull(db: Database, now: Time, batch: int, rows: seq<Uuid>)
    requires OrderedLimit(ExpiredRanks(db, now), BatchSize(batch), rows)
    ensures OrderedPass(db, now, batch, rows)
  {
    var ranks := ExpiredRanks(db, now);
    assert ranks.Keys == ExpiredJobs(db, now);
    forall id | id in rows
      ensures id in ExpiredJobs(db, now)
      ensures forall other :: other in ranks && other !in rows ==> AtMost(ranks[id], ranks[other])
    {
      var i :| 0 <= i < |rows| && rows[i] == id;
    }
  }

  /** Whether the lease of one job ended before that of another; of two that ended together, the older job's. */
  predicate ExpiresFirst(j: Job, k: Job) {
    && j.lockedUntil.Some? && k.lockedUntil.Some?
    && (j.lockedUntil.value < k.lockedUntil.value
        || (j.lockedUntil.value == k.lockedUntil.value && j.createdAt <= k.createdAt))
  }

  /** The running jobs whose leases have ended, in the order in which they did, up to a limit. */
  ghost predicate LongestExpired(jobs: map<Uuid, Job>, now: Time, limit: nat, rows: seq<Uuid>) {
    var all := set id | id in jobs && jobs[id].status == Running
                        && jobs[id].lockedUntil.Some? && jobs[id].lockedUntil.value <= now;
    && Distinct(rows) && |rows| == Min(limit, |all|)
    && (forall x | 0 <= x < |rows| :: rows[x] in all)
    && (forall x, y | 0 <= x < y < |rows| :: ExpiresFirst(jobs[rows[x]], jobs[rows[y]]))
    && (forall x, id | 0 <= x < |rows| && id in all && id !in rows :: ExpiresFirst(jobs[rows[x]], jobs[id]))
  }

  /** The rows have lost their leases: a job with attempts left waits and is due at once, another is a dead letter; the
      open attempts under the lost leases have failed; and nothing else has changed. */
  ghost predicate TakenBack(db: Database, d: Database, now: Time, reason: string, rows: seq<Uuid>) {
    && d.jobs == (map id | id in db.jobs ::
                    var j := db.jobs[id].(lockedBy := None, lockedUntil := None, leaseToken := None, updatedAt := now,
                                          lastError := Some(reason));
                    if id !in rows then db.jobs[id]
                    else if j.attemptCount < Max(1, j.maxAttempts)
                    then j.(status := RetryScheduled, availableAt := now, completedAt := None)
                    else j.(status := DeadLetter, completedAt := Some(now), deadLetteredAt := Some(now)))
    && d.attempts == (map k | k in db.attempts ::
                        var a := db.attempts[k];
                        if && k.job in rows && k.job in db.jobs && db.jobs[k.job].leaseToken == Some(a.token)
                           && a.status == AttemptRunning
                        then a.(status := AttemptFailed, finishedAt := Some(now), error := Some(reason)) else a)
    && d.workers == db.workers && d.crons == db.crons && d.runs == db.runs
  }

  /** A failure on the fields: with an attempt left the job waits for exactly its delay, otherwise it is a dead
      letter. */
  lemma FailedTables(db: Database, now: Time, id: Uuid, token: Uuid, message: string, policy: RetryPolicy)
    requires Fail(db, now, id, token, message, policy).Some?
    ensures id in db.jobs && db.jobs[id].status == Running && db.jobs[id].leaseToken == Some(token)
    ensures var j := db.jobs[id].(lockedBy := None, lockedUntil := None, leaseToken := None, updatedAt := now,
                                  lastError := Some(message));
            Fail(db, now, id, token, message, policy).value.jobs
            == db.jobs[id := if j.attemptCount < Max(1, j.maxAttempts)
                             then j.(status := RetryScheduled, completedAt := None,
                                     availableAt := now + Delay(policy, j.attemptCount))
                             else j.(status := DeadLetter, completedAt := Some(now), deadLetteredAt := Some(now))]
    ensures Fail(db, now, id, token, message, policy).value.attempts
         == map k | k in db.attempts ::
              var a := db.attempts[k];
              if k.job == id && a.token == token && a.status == AttemptRunning
              then a.(status := AttemptFailed, finishedAt := Some(now), error := Some(message)) else a
  {
    DelayBoundedAndMonotone(policy, db.jobs[id].attemptCount, db.jobs[id].attemptCount);
  }

  /** The creation of a cron job on the fields: the texts are trimmed and defaults filled in. */
  lemma CreatedCron(db: Database, id: Uuid, params: CronParams, next: Option<Time>)
    ensures CreateCron(db, id, Trimmed(params), next).Some?
            <==> && !Blank(params.name) && !Blank(params.kind) && params.payloadValid && params.timeoutSeconds >= 0
                 && next.Some? && id !in db.crons
                 && forall c | c in db.crons :: db.crons[c].name != TrimSpace(params.name)
    ensures CreateCron(db, id, Trimmed(params), next).Some? ==>
              CreateCron(db, id, Trimmed(params), next).value.crons
              == db.crons[id := Cron(name := TrimSpace(params.name),
                                     queue := if Blank(params.queue) then "default" else TrimSpace(params.queue),
                                     schedule := TrimSpace(params.schedule), enabled := true,
                                     priority := params.priority, maxAttempts := Max(1, params.maxAttempts),
                                     nextRunAt := next.value, lastRunAt := None)]
  {
  }

  /** Enabling or disabling a cron job, on the fields. */
  lemma SwitchedCron(db: Database, now: Time, id: Uuid, enabled: bool, next: Option<Time>)
    requires id in db.crons
    ensures SetCron(db, id, enabled, next).Some? <==> (enabled ==> next.Some?)
    ensures Apply(db, ESetCron(now, id, enabled, next))
         == db.(crons := if enabled && next.None? then db.crons
                         else if enabled
                         then db.crons[id := db.crons[id].(enabled := true, nextRunAt := next.value)]
                         else db.crons[id := db.crons[id].(enabled := false)])
  {
  }

  /** A heartbeat on the fields: the worker's row, and its leases if the term is positive. */
  lemma HeartbeatTables(db: Database, now: Time, worker: string, status: WorkerStatus, lease: int)
    requires worker in db.workers
    ensures var d := Heartbeat(db, now, worker, status, lease, HeldJobs(db, worker));
            && d.Some?
            && d.value.workers
               == db.workers[worker := db.workers[worker].(status := status, lastHeartbeatAt := now)]
            && d.value.jobs == map id | id in db.jobs ::
                                 var j := db.jobs[id];
                                 if && lease > 0 && j.lockedBy == Some(worker)
                                    && j.status == Running && j.leaseToken.Some?
                                 then j.(lockedUntil := Some(now + lease), updatedAt := now) else j
  {
    forall id | id in db.jobs
      ensures id in HeldJobs(db, worker)
              <==> db.jobs[id].lockedBy == Some(worker) && db.jobs[id].status == Running && db.jobs[id].leaseToken.Some?
    {
    }
  }

  lemma SelectedByExpiry(db: Database, now: Time, limit: nat, rows: seq<Uuid>)
    requires OrderedLimit(ExpiredRanks(db, now), limit, rows)
    ensures LongestExpired(db.jobs, now, limit, rows)
  {
    var ranks := ExpiredRanks(db, now);
    RowsExpired(db, now, limit, rows);
    assert ranks.Keys == set id | id in db.jobs && db.jobs[id].status == Running
                                  && db.jobs[id].lockedUntil.Some? && db.jobs[id].lockedUntil.value <= now;
    forall a, b | a in ranks && b in ranks && AtMost(ranks[a], ranks[b])
      ensures ExpiresFirst(db.jobs[a], db.jobs[b])
    {
    }
  }

  lemma RecoverTakesBack(db: Database, now: Time, reason: string, rows: seq<Uuid>)
    requires Distinct(rows) && AllKnown(db, rows)
    ensures TakenBack(db, Recover(db, now, reason, rows), now, reason, rows)
  {
    RecoverRows(db, now, reason, rows);
    forall k | k in db.attempts
      ensures var a := db.attempts[k];
              Recover(db, now, reason, rows).attempts[k]
              == if k.job in rows && a.status == AttemptRunning && db.jobs[k.job].leaseToken == Some(a.token)
                 then a.(status := AttemptFailed, finishedAt := Some(now), error := Some(reason)) else a
    {
      RecoverClosesAttempts(db, now, reason, rows, k);
    }
  }

  class Store {
    var jobs: map<Uuid, Job>
    var attempts: map<AttemptKey, Attempt>
    var workers: map<string, Worker>
    var crons: map<Uuid, Cron>
    var runs: map<RunKey, CronRun>

    function View(): Database
      reads this
    {
      Database(jobs, attempts, workers, crons, runs)
    }

    constructor ()
      ensures View() == EMPTY
    {
      jobs, attempts, workers, crons, runs := map[], map[], map[], map[], map[];
    }

    /** What other clients of the database do meanwhile. */
    method OtherActors(events: seq<Event>)
      requires Matching(View(), events)
      modifies this
      ensures View() == ApplyAll(old(View()), events)
    {
      var d := ApplyAll(View(), events);
      jobs, attempts, workers, crons, runs := d.jobs, d.attempts, d.workers, d.crons, d.runs;
    }

    /** Submits a job, or finds the job that already has the key. */
    method CreateJob(now: Time, id: Uuid, p: CreateParams) returns (r: CreateResult)
      modifies this`jobs
      ensures View() == Apply(old(View()), EInsert(now, id, p))
      ensures r.Created? <==>
                && p.timeoutSeconds >= 0 && p.delaySeconds >= 0 && p.payloadValid && id !in old(jobs)
                && (p.key.None? || p.key == Some("") || forall j | j in old(jobs) :: old(jobs)[j].key != p.key)
      ensures r.Created? ==>
                && r.id == id
                && jobs == old(jobs)[id := Job(queue := if p.queue == "" then "default" else p.queue,
                                               status := Queued, priority := p.priority,
                                               maxAttempts := if p.maxAttempts <= 0 then 1 else p.maxAttempts,
                                               attemptCount := 0, key := if p.key == Some("") then None else p.key,
                                               lockedBy := None, lockedUntil := None, leaseToken := None,
                                               availableAt := now + p.delaySeconds * SECOND, deadLetteredAt := None,
                                               createdAt := now, updatedAt := now, completedAt := None,
                                               lastError := None)]
                && forall t :: Claimable(jobs[id], jobs[id].queue, t) <==> t >= now + p.delaySeconds * SECOND
      ensures r.Existing? <==>
                && p.timeoutSeconds >= 0 && p.delaySeconds >= 0 && p.payloadValid
                && p.key.Some? && p.key != Some("") && exists j | j in old(jobs) :: old(jobs)[j].key == p.key
      ensures r.Existing? ==> r.id in old(jobs) && old(jobs)[r.id].key == p.key && jobs == old(jobs)
      ensures r.CreateRejected? ==> jobs == old(jobs)
    {
      var queue := if p.queue == "" then "default" else p.queue;
      var maxAttempts := if p.maxAttempts <= 0 then 1 else p.maxAttempts;
      if p.timeoutSeconds < 0 || p.delaySeconds < 0 || !p.payloadValid {
        return CreateRejected;
      }
      var key := if p.key == Some("") then None else p.key;
      if HasKey(jobs, key) {
        var existing :| existing in jobs && jobs[existing].key == key;
        return Existing(existing);
      }
      if id in jobs {
        return CreateRejected;
      }
      jobs := jobs[id := NewJob(queue, p.priority, maxAttempts, key, now + p.delaySeconds * SECOND, now)];
      return Created(id);
    }

    /** Claims the first due job of a queue in claim order. */
    method ClaimJob(now: Time, queueName: string, workerId: string, lease: int, token: Uuid) returns (r: ClaimResult)
      modifies this`jobs, this`attempts
      ensures var queue := if queueName == "" then "default" else queueName;
              var worker := if workerId == "" then "worker-unknown" else workerId;
              match r
              case NothingDue => DueJobs(old(View()), queue, now) == map[] && View() == old(View())
              case Claimed(id, job) =>
                && IsFirst(DueJobs(old(View()), queue, now), id)
                && Claim(old(View()), now, worker, lease, token, id) == Some(View())
                && RowsMatch(old(View()), EClaim(now, queue, worker, lease, token, id))
                && id in jobs && job == jobs[id]
              case ClaimFailed =>
                View() == old(View()) && ClaimRejected(View(), queue, now, worker, lease, token)
      ensures r.NothingDue? ==>
                forall k | k in old(jobs) && old(jobs)[k].queue == (if queueName == "" then "default" else queueName) ::
                  old(jobs)[k].status in {Queued, RetryScheduled} ==> now < old(jobs)[k].availableAt
      ensures r.Claimed? ==>
                && r.id in old(jobs)
                && var j, worker := old(jobs)[r.id], if workerId == "" then "worker-unknown" else workerId;
                   && j.queue == (if queueName == "" then "default" else queueName)
                   && j.status in {Queued, RetryScheduled} && j.availableAt <= now
                   && jobs == old(jobs)[r.id := j.(status := Running, lockedBy := Some(worker),
                                                   lockedUntil := Some(now + Max(0, lease)), leaseToken := Some(token),
                                                   attemptCount := j.attemptCount + 1, updatedAt := now)]
                   && attempts == old(attempts)[AttemptKey(r.id, j.attemptCount + 1)
                                                  := Attempt(worker := worker, token := token,
                                                             status := AttemptRunning, startedAt := now,
                                                             finishedAt := None, error := None)]
      ensures r.Claimed? ==> forall other | other in old(jobs) ::
                var j, k := old(jobs)[r.id], old(jobs)[other];
                (k.queue == j.queue && k.status in {Queued, RetryScheduled} && k.availableAt <= now)
                ==> || j.priority > k.priority
                    || (j.priority == k.priority && j.availableAt < k.availableAt)
                    || (j.priority == k.priority && j.availableAt == k.availableAt && j.createdAt <= k.createdAt)
    {
      var queue := if queueName == "" then "default" else queueName;
      var worker := if workerId == "" then "worker-unknown" else workerId;
      var due := DueJobs(View(), queue, now);
      if due == map[] {
        NothingIsDue(View(), queue, now);
        return NothingDue;
      }
      FirstExists(due);
      var id :| IsFirst(due, id);
      FirstInClaimOrder(View(), queue, now, id);
      var saved := jobs;
      var job := ClaimedJob(jobs[id], now, worker, lease, token);
      jobs := jobs[id := job];
      if !AttemptAccepted(attempts, id, job.attemptCount, token) {
        jobs := saved;
        return ClaimFailed;
      }
      attempts := attempts[AttemptKey(id, job.attemptCount) := NewAttempt(worker, token, now)];
      return Claimed(id, job);
    }

    /** Marks a job succeeded under its lease. */
    method CompleteJob(now: Time, id: Uuid, token: Uuid) returns (ok: bool)
      modifies this`jobs, this`attempts
      ensures ok <==> Complete(old(View()), now, id, token).Some?
      ensures View() == Apply(old(View()), EComplete(now, id, token))
      ensures ok ==>
                && id in old(jobs) && old(jobs)[id].status == Running && old(jobs)[id].leaseToken == Some(token)
                && jobs == old(jobs)[id := old(jobs)[id].(status := Succeeded, lockedBy := None, lockedUntil := None,
                                                          leaseToken := None, completedAt := Some(now),
                                                          updatedAt := now, lastError := None)]
                && attempts == map k | k in old(attempts) ::
                     var a := old(attempts)[k];
                     if k.job == id && a.token == token && a.status == AttemptRunning
                     then a.(status := AttemptSucceeded, finishedAt := Some(now)) else a
    {
      if id !in jobs || jobs[id].leaseToken != Some(token) || jobs[id].status != Running {
        return false;
      }
      var saved := jobs;
      jobs := jobs[id := CompletedJob(jobs[id], now)];
      var open := OpenAttempts(attempts, id, token);
      if |open| != 1 {
        jobs := saved;
        return false;
      }
      attempts := map k | k in attempts :: if k in open then Closed(attempts[k], Success, now) else attempts[k];
      return true;
    }

    /** The update of a failed job's row. */
    method WriteFailure(now: Time, id: Uuid, message: string, retryPolicy: RetryPolicy)
      requires id in jobs
      modifies this`jobs
      ensures jobs == old(jobs)[id := FailedJob(old(jobs)[id], now, message, retryPolicy)]
    {
      var policy := Normalize(retryPolicy);
      var job := jobs[id];
      if job.attemptCount < NormalizedMaxAttempts(job.maxAttempts) {
        NormalizedTwice(retryPolicy, job.attemptCount);
        var delay := Delay(policy, job.attemptCount);
        jobs := jobs[id := RescheduledJob(job, now, delay, message)];
      } else {
        jobs := jobs[id := DeadJob(job, now, message)];
      }
    }

    /** Reports a failure under a lease: the job is rescheduled with backoff or goes to the dead letters. */
    method FailJob(now: Time, id: Uuid, token: Uuid, message: string, retryPolicy: RetryPolicy) returns (ok: bool)
      modifies this`jobs, this`attempts
      ensures ok <==> Fail(old(View()), now, id, token, message, retryPolicy).Some?
      ensures View() == Apply(old(View()), EFail(now, id, token, message, retryPolicy))
      ensures ok ==>
                && id in old(jobs) && old(jobs)[id].status == Running && old(jobs)[id].leaseToken == Some(token)
                && var j := old(jobs)[id].(lockedBy := None, lockedUntil := None, leaseToken := None,
                                           updatedAt := now, lastError := Some(message));
                   jobs == old(jobs)[id :=
                     if j.attemptCount < Max(1, j.maxAttempts)
                     then j.(status := RetryScheduled, completedAt := None,
                             availableAt := now + Delay(retryPolicy, j.attemptCount))
                     else j.(status := DeadLetter, completedAt := Some(now), deadLetteredAt := Some(now))]
      ensures ok ==>
                attempts == map k | k in old(attempts) ::
                  var a := old(attempts)[k];
                  if k.job == id && a.token == token && a.status == AttemptRunning
                  then a.(status := AttemptFailed, finishedAt := Some(now), error := Some(message)) else a
    {
      if id !in jobs || jobs[id].leaseToken != Some(token) || jobs[id].status != Running {
        return false;
      }
      var saved := jobs;
      WriteFailure(now, id, message, retryPolicy);
      var open := OpenAttempts(attempts, id, token);
      if |open| != 1 {
        jobs := saved;
        return false;
      }
      attempts := map k | k in attempts :: if k in open then Closed(attempts[k], Failure(message), now)
                                           else attempts[k];
      FailedTables(old(View()), now, id, token, message, retryPolicy);
      return true;
    }

    /** The body of the recovery loop, for one expired job as it was read. */
    method RecoverRow(now: Time, reason: string, id: Uuid)
      requires id in jobs
      modifies this`jobs, this`attempts
      ensures View() == RecoverOne(old(View()), now, reason, id)
    {
      var job := jobs[id];
      if job.leaseToken.Some? {
        attempts := CloseAttempts(attempts, id, job.leaseToken.value, Failure(reason), now);
      }
      if job.attemptCount < NormalizedMaxAttempts(job.maxAttempts) {
        jobs := jobs[id := RescheduledJob(job, now, 0, reason)];
      } else {
        jobs := jobs[id := DeadJob(job, now, reason)];
      }
    }

    /** Takes expired leases away, the longest expired first. */
    method RecoverExpiredJobs(now: Time, batch: int, why: string) returns (rows: seq<Uuid>)
      modifies this`jobs, this`attempts
      ensures var reason := if why == "" then "job lease expired" else why;
              && OrderedLimit(ExpiredRanks(old(View()), now), BatchSize(batch), rows)
              && RowsMatch(old(View()), ERecover(now, reason, rows))
              && View() == Recover(old(View()), now, reason, rows)
              && OrderedPass(old(View()), now, batch, rows)
      ensures var reason := if why == "" then "job lease expired" else why;
              && LongestExpired(old(jobs), now, if batch <= 0 || batch > 100 then 50 else batch, rows)
              && TakenBack(old(View()), View(), now, reason, rows)
    {
      var reason := if why == "" then "job lease expired" else why;
      rows := Select(ExpiredRanks(View(), now), BatchSize(batch));
      RowsExpired(View(), now, BatchSize(batch), rows);
      SelectedPassIsFull(View(), now, batch, rows);
      var i := 0;
      while i < |rows|
        invariant 0 <= i <= |rows|
        invariant AllKnown(View(), rows) && AllKnown(old(View()), rows) && AllKnown(View(), rows[i..])
        invariant Recover(View(), now, reason, rows[i..]) == Recover(old(View()), now, reason, rows)
      {
        assert rows[i..][0] == rows[i] && rows[i..][1..] == rows[i + 1..];
        RecoverRow(now, reason, rows[i]);
        i := i + 1;
      }
      assert rows[|rows|..] == [];
      SelectedByExpiry(old(View()), now, BatchSize(batch), rows);
      RecoverTakesBack(old(View()), now, reason, rows);
    }

    /** Records that a worker is alive and extends every lease it holds. */
    method HeartbeatWorker(now: Time, worker: string, status: WorkerStatus, lease: int) returns (ok: bool)
      modifies this`jobs, this`workers
      ensures ok <==> !Blank(worker) && worker in old(workers)
      ensures View() == if Blank(worker) then old(View())
                        else Apply(old(View()), EHeartbeat(now, worker, status, lease, HeldJobs(old(View()), worker)))
      ensures ok ==>
                && workers == old(workers)[worker := old(workers)[worker].(status := status, lastHeartbeatAt := now)]
                && jobs == map id | id in old(jobs) ::
                     var j := old(jobs)[id];
                     if lease > 0 && j.lockedBy == Some(worker) && j.status == Running && j.leaseToken.Some?
                     then j.(lockedUntil := Some(now + lease), updatedAt := now) else j
    {
      if Blank(worker) {
        return false;
      }
      if worker !in workers {
        return false;
      }
      HeartbeatTables(View(), now, worker, status, lease);
      workers := workers[worker := workers[worker].(status := status, lastHeartbeatAt := now)];
      if lease > 0 {
        jobs := map id | id in jobs :: if HeldBy(jobs[id], worker) then ExtendedJob(jobs[id], now, lease) else jobs[id];
      }
      return true;
    }

    /** Records a worker as running, or records it anew; a blank identifier is refused. */
    method RegisterWorker(now: Time, worker: string, queues: seq<string>) returns (ok: bool)
      modifies this`workers
      ensures ok <==> !Blank(worker)
      ensures View() == Apply(old(View()), ERegister(now, worker, queues))
      ensures workers == if ok then old(workers)[worker := Worker(queues := queues, status := WorkerRunning,
                                                                  lastHeartbeatAt := now)]
                         else old(workers)
    {
      if Blank(worker) {
        return false;
      }
      workers := workers[worker := Worker(queues, WorkerRunning, now)];
      return true;
    }

    /** Puts a dead-lettered or cancelled job back into its queue. */
    method RetryJob(now: Time, id: Uuid) returns (ok: bool)
      modifies this`jobs
      ensures ok <==> id in old(jobs) && old(jobs)[id].status in {Failed, DeadLetter, Cancelled}
      ensures View() == Apply(old(View()), ERetry(now, id))
      ensures ok ==>
                var j := old(jobs)[id];
                jobs == old(jobs)[id := j.(status := Queued, maxAttempts := Max(j.maxAttempts, j.attemptCount + 1),
                                           availableAt := now, deadLetteredAt := None, completedAt := None,
                                           lockedBy := None, lockedUntil := None, leaseToken := None,
                                           lastError := None, updatedAt := now)]
      ensures !ok ==> jobs == old(jobs)
    {
      if id !in jobs {
        return false;
      }
      var current := jobs[id];
      if current.status != Failed && current.status != DeadLetter && current.status != Cancelled {
        return false;
      }
      jobs := jobs[id := Unlocked(current).(status := Queued,
                                            maxAttempts := Max(current.maxAttempts, current.attemptCount + 1),
                                            availableAt := now, deadLetteredAt := None, completedAt := None,
                                            lastError := None, updatedAt := now)];
      return true;
    }

    /** Cancels a job that is waiting. */
    method CancelJob(now: Time, id: Uuid) returns (ok: bool)
      modifies this`jobs
      ensures ok <==> id in old(jobs) && old(jobs)[id].status in {Queued, RetryScheduled}
      ensures View() == Apply(old(View()), ECancel(now, id))
      ensures ok ==> jobs == old(jobs)[id := old(jobs)[id].(status := Cancelled, completedAt := Some(now),
                                                            updatedAt := now, lockedBy := None, lockedUntil := None,
                                                            leaseToken := None,
                                                            lastError := Some("cancelled by operator"))]
      ensures !ok ==> jobs == old(jobs)
    {
      if id !in jobs {
        return false;
      }
      var current := jobs[id];
      if current.status != Queued && current.status != RetryScheduled {
        return false;
      }
      jobs := jobs[id := Unlocked(current).(status := Cancelled, completedAt := Some(now), updatedAt := now,
                                            lastError := Some("cancelled by operator"))];
      return true;
    }

    /** Creates a cron job; its texts are trimmed, and the schedule must parse and have a next run. */
    method CreateCronJob(now: Time, id: Uuid, params: CronParams) returns (ok: bool)
      modifies this`crons
      ensures var p := Trimmed(params);
              && (ok <==> CreateCron(old(View()), id, p, CronSyntax.NextRun(p.schedule, now)).Some?)
              && View() == Apply(old(View()), ECreateCron(now, id, p, CronSyntax.NextRun(p.schedule, now)))
      ensures var next := CronSyntax.NextRun(TrimSpace(params.schedule), now);
              && (ok <==> && !Blank(params.name) && !Blank(params.kind) && params.payloadValid
                          && params.timeoutSeconds >= 0 && next.Some? && id !in old(crons)
                          && forall c | c in old(crons) :: old(crons)[c].name != TrimSpace(params.name))
              && crons == if !ok then old(crons)
                          else old(crons)[id := Cron(name := TrimSpace(params.name),
                                                     queue := if Blank(params.queue) then "default"
                                                              else TrimSpace(params.queue),
                                                     schedule := TrimSpace(params.schedule), enabled := true,
                                                     priority := params.priority,
                                                     maxAttempts := Max(1, params.maxAttempts),
                                                     nextRunAt := next.value, lastRunAt := None)]
    {
      var p := Trimmed(params);
      if p.name == "" || p.kind == "" || !p.payloadValid || p.timeoutSeconds < 0 {
        return false;
      }
      var next := CronSyntax.NextOf(p.schedule, now);
      CreatedCron(View(), id, params, next);
      if next.None? || id in crons || exists c | c in crons :: crons[c].name == p.name {
        return false;
      }
      crons := crons[id := Cron(p.name, if p.queue == "" then "default" else p.queue, p.schedule, true, p.priority,
                                if p.maxAttempts <= 0 then 1 else p.maxAttempts, next.value, None)];
      return true;
    }

    /** Finds a cron job by identifier, if the reference reads as one, and else by name. */
    method FindCron(ref: string, parse: string -> Option<Uuid>) returns (r: Option<Uuid>)
      ensures r.Some? ==> RefersTo(View(), ref, parse, r.value)
      ensures r.None? ==> forall id :: !RefersTo(View(), ref, parse, id)
      ensures parse(ref).Some? ==> r == if parse(ref).value in crons then parse(ref) else None
      ensures parse(ref).None? && r.Some? ==> r.value in crons && crons[r.value].name == ref
      ensures parse(ref).None? && r.None? ==> forall c | c in crons :: crons[c].name != ref
    {
      if parse(ref).Some? {
        return if parse(ref).value in crons then parse(ref) else None;
      }
      if c :| c in crons && crons[c].name == ref {
        return Some(c);
      }
      return None;
    }

    /** Enables or disables a known cron job; enabling evaluates its schedule anew. */
    method SetEnabled(now: Time, id: Uuid, enabled: bool) returns (ok: bool)
      requires id in crons
      modifies this`crons
      ensures var next := CronSyntax.NextRun(old(crons)[id].schedule, now);
              && (ok <==> (enabled ==> next.Some?))
              && View() == Apply(old(View()), ESetCron(now, id, enabled, next))
              && crons == if !ok then old(crons)
                          else if enabled
                          then old(crons)[id := old(crons)[id].(enabled := true, nextRunAt := next.value)]
                          else old(crons)[id := old(crons)[id].(enabled := false)]
    {
      var current := crons[id];
      var nextRunAt := current.nextRunAt;
      SwitchedCron(View(), now, id, enabled, CronSyntax.NextRun(current.schedule, now));
      if enabled {
        var next := CronSyntax.NextOf(current.schedule, now);
        if next.None? {
          return false;
        }
        nextRunAt := next.value;
      }
      crons := crons[id := current.(enabled := enabled, nextRunAt := nextRunAt)];
      return true;
    }

    /** Enables or disables the cron job that a reference names; `parse` reads identifiers. */
    method SetCronJobEnabled(now: Time, reference: string, parse: string -> Option<Uuid>, enabled: bool)
      returns (ok: bool, id: Option<Uuid>)
      modifies this`crons
      ensures var ref := TrimSpace(reference);
              match id
              case None => !ok && View() == old(View())
                  && (ref == "" || forall c :: !RefersTo(old(View()), ref, parse, c))
              case Some(c) =>
                && ref != "" && RefersTo(old(View()), ref, parse, c)
                && var next := CronSyntax.NextRun(old(crons)[c].schedule, now);
                   && (ok <==> (enabled ==> next.Some?))
                   && View() == Apply(old(View()), ESetCron(now, c, enabled, next))
                   && crons == if !ok then old(crons)
                               else if enabled
                               then old(crons)[c := old(crons)[c].(enabled := true, nextRunAt := next.value)]
                               else old(crons)[c := old(crons)[c].(enabled := false)]
    {
      var ref := TrimSpace(reference);
      if ref == "" {
        return false, None;
      }
      id := FindCron(ref, parse);
      if id.None? {
        return false, id;
      }
      ok := SetEnabled(now, id.value, enabled);
    }

    /** The body of the firing loop for one due cron job, its key and its next run: submits a job under the key
        unless the key is known, records the run unless it is recorded, and moves the cron job on. */
    method FireRow(dbNow: Time, scheduler: string, id: Uuid, minute: int, key: string, next: Option<Time>, newId: Uuid)
      returns (ok: bool, f: Fire, inserted: bool)
      requires id in crons
      modifies this`jobs, this`runs, this`crons
      ensures f == Fire(id, minute, key, f.job, next)
      ensures ok ==> FireOne(old(View()), dbNow, scheduler, f) == Some(View()) && f.job in jobs
      ensures !ok ==> FireOne(old(View()), dbNow, scheduler, f).None?
      ensures inserted <==> RunKey(id, minute) !in old(runs)
    {
      var cron := crons[id];
      var run := RunKey(id, minute);
      inserted := run !in runs;
      f := Fire(id, minute, key, newId, next);
      if HasKey(jobs, Some(key)) {
        var known :| known in jobs && jobs[known].key == Some(key);
        f := f.(job := known);
      } else if newId in jobs {
        return false, f, inserted;
      } else {
        jobs := jobs[newId := NewJob(cron.queue, cron.priority, cron.maxAttempts, Some(key), dbNow, dbNow)];
      }
      if inserted {
        runs := runs[run := CronRun(f.job, scheduler)];
      }
      if next.None? {
        return false, f, inserted;
      }
      crons := crons[id := cron.(lastRunAt := Some(minute * MINUTE), nextRunAt := next.value)];
      return true, f, inserted;
    }

    /** The minute and key of a cron job's stored run, and the run after it. */
    method DescribeRun(now: Time, id: Uuid) returns (minute: int, key: string, next: Option<Time>)
      requires id in crons
      ensures minute == crons[id].nextRunAt / MINUTE
      ensures key == CRON.key(id, minute) && next == CRON.next(crons[id].schedule, now)
    {
      minute := crons[id].nextRunAt / MINUTE;
      key := CronKey(id, minute);
      next := CronSyntax.NextOf(crons[id].schedule, now);
    }

    /** One turn of the firing loop: describes the run of a due cron job and fires it. */
    method FireNext(now: Time, dbNow: Time, scheduler: string, id: Uuid, newId: Uuid)
      returns (ok: bool, f: Fire, inserted: bool)
      requires id in crons
      modifies this`jobs, this`runs, this`crons
      ensures f.cron == id && FireAnswers(old(View()), now, f, CRON)
      ensures ok ==> FireOne(old(View()), dbNow, scheduler, f) == Some(View()) && f.job in jobs
      ensures !ok ==> FireOne(old(View()), dbNow, scheduler, f).None?
      ensures inserted <==> RunKey(f.cron, f.minute) !in old(runs)
    {
      var minute, key, next := DescribeRun(now, id);
      ok, f, inserted := FireRow(dbNow, scheduler, id, minute, key, next, newId);
    }

    /** The body of the firing loop, in terms of what the loop maintains. */
    method FireTurn(now: Time, dbNow: Time, scheduler: string, rows: seq<Uuid>, fires: seq<Fire>, inserted: seq<Fire>,
                    newId: Uuid, ghost start: Database)
      returns (ok: bool, f: Fire, isNew: bool)
      requires |fires| < |rows| && Firing(start, View(), now, dbNow, scheduler, rows, fires, inserted, CRON)
      modifies this`jobs, this`runs, this`crons
      ensures ok ==> Firing(start, View(), now, dbNow, scheduler, rows, fires + [f],
                            if isNew then inserted + [f] else inserted, CRON)
      ensures !ok ==> CronsOf(fires + [f]) == rows[..|fires| + 1] && Answered(start, now, fires + [f], CRON)
      ensures !ok ==> FireAll(start, dbNow, scheduler, fires + [f]).None?
    {
      ghost var before := View();
      UntouchedRow(start, before, rows, |fires|);
      ok, f, isNew := FireNext(now, dbNow, scheduler, rows[|fires|], newId);
      if ok {
        FiringContinues(start, before, View(), now, dbNow, scheduler, rows, fires, inserted, f, CRON);
      } else {
        FiringFails(start, before, now, dbNow, scheduler, rows, fires, inserted, f, CRON);
      }
    }

    /** The firing loop over the picked cron jobs; it stops at the first error. */
    method FireRows(now: Time, dbNow: Time, scheduler: string, rows: seq<Uuid>, newIds: seq<Uuid>)
      returns (ok: bool, fires: seq<Fire>, inserted: seq<Fire>)
      requires Distinct(rows) && |newIds| >= |rows| && forall i :: 0 <= i < |rows| ==> rows[i] in crons
      modifies this`jobs, this`runs, this`crons
      ensures ok ==> |fires| == |rows|
                     && Firing(old(View()), View(), now, dbNow, scheduler, rows, fires, inserted, CRON)
      ensures |fires| <= |rows| && CronsOf(fires) == rows[..|fires|] && Answered(old(View()), now, fires, CRON)
      ensures !ok ==> FireAll(old(View()), dbNow, scheduler, fires).None?
    {
      fires, inserted := [], [];
      ghost var start := View();
      FiringStarts(start, now, dbNow, scheduler, rows, CRON);
      while |fires| < |rows|
        invariant attempts == old(attempts) && workers == old(workers)
        invariant Firing(start, View(), now, dbNow, scheduler, rows, fires, inserted, CRON)
        decreases |rows| - |fires|
      {
        var done, f, isNew := FireTurn(now, dbNow, scheduler, rows, fires, inserted, newIds[|fires|], start);
        fires, inserted := fires + [f], if done && isNew then inserted + [f] else inserted;
        if !done {
          return false, fires, inserted;
        }
      }
      return true, fires, inserted;
    }

    /** The transaction around the loop: an error undoes all of it. */
    method FireAllOrNone(now: Time, dbNow: Time, scheduler: string, rows: seq<Uuid>, newIds: seq<Uuid>)
      returns (ok: bool, fires: seq<Fire>, inserted: seq<Fire>)
      requires Distinct(rows) && |newIds| >= |rows| && forall i :: 0 <= i < |rows| ==> rows[i] in crons
      modifies this`jobs, this`runs, this`crons
      ensures ok ==> |fires| == |rows|
      ensures ok ==> Firing(old(View()), View(), now, dbNow, scheduler, rows, fires, inserted, CRON)
      ensures |fires| <= |rows| && CronsOf(fires) == rows[..|fires|] && Answered(old(View()), now, fires, CRON)
      ensures !ok ==> FireAll(old(View()), dbNow, scheduler, fires).None? && View() == old(View())
    {
      var savedJobs, savedRuns, savedCrons := jobs, runs, crons;
      ok, fires, inserted := FireRows(now, dbNow, scheduler, rows, newIds);
      if !ok {
        jobs, runs, crons := savedJobs, savedRuns, savedCrons;
      }
    }

    /** Fires the due cron jobs, all or none. `newIds` are the identifiers for new jobs. */
    method FireDueCronJobs(now: Time, dbNow: Time, schedulerId: string, batch: int, newIds: seq<Uuid>)
      returns (r: FireResult)
      requires |newIds| >= 100
      modifies this`jobs, this`runs, this`crons
      ensures FiringResult(old(View()), View(), now, dbNow, SchedulerName(schedulerId), batch, r)
    {
      var scheduler := SchedulerName(schedulerId);
      var rows := Select(DueCrons(View(), now), BatchSize(batch));
      ghost var before := View();
      var ok, fires, inserted := FireAllOrNone(now, dbNow, scheduler, rows, newIds);
      if ok {
        FiringSucceeded(before, View(), now, dbNow, scheduler, batch, rows, fires, inserted);
        return Fired(fires, inserted);
      }
      FiringUndone(before, now, dbNow, scheduler, batch, rows, fires);
      return FireFailed(fires);
    }

    /** The first queues with due work in the database's collation order. */
    method ListDueQueues(now: Time, limit: int, atMost: (string, string) -> bool) returns (queues: seq<string>)
      requires TotalOrder(atMost)
      ensures FirstNames(DueQueues(View(), now), BatchSize(limit), atMost, queues)
      ensures forall q | q in queues :: exists id ::
                && id in jobs && jobs[id].queue == q && jobs[id].status in {Queued, RetryScheduled}
                && jobs[id].availableAt <= now
      ensures forall id, i | && id in jobs && jobs[id].status in {Queued, RetryScheduled} && jobs[id].availableAt <= now
                             && 0 <= i < |queues| && jobs[id].queue !in queues :: atMost(queues[i], jobs[id].queue)
      ensures |queues| < (if limit <= 0 || limit > 100 then 50 else limit)
              ==> forall id | && id in jobs && jobs[id].status in {Queued, RetryScheduled}
                              && jobs[id].availableAt <= now :: jobs[id].queue in queues
    {
      queues := SelectNames(DueQueues(View(), now), BatchSize(limit), atMost);
      DistinctCovers(queues, DueQueues(View(), now));
    }
  }

  /** The outcome of a firing transaction: the earliest due cron jobs up to the batch are fired in order, and the runs
      that were not known are reported; or one of them fails, and nothing changes. */
  ghost predicate FiringResult(db: Database, d: Database, now: Time, dbNow: Time, scheduler: string, batch: int,
                               r: FireResult) {
    var fires := if r.Fired? then r.fires else r.attempted;
    && RowsMatch(db, EFire(now, dbNow, scheduler, fires))
    && CronAnswers(db, EFire(now, dbNow, scheduler, fires), CRON)
    && FireAll(db, dbNow, scheduler, fires) == (if r.Fired? then Some(d) else None)
    && (r.FireFailed? ==> d == db)
    && (r.Fired? ==>
          && OrderedLimit(DueCrons(db, now), BatchSize(batch), CronsOf(r.fires))
          && (forall f :: f in r.inserted <==> f in r.fires && RunKey(f.cron, f.minute) !in db.runs)
          && (forall f :: f in r.fires ==> f.job in d.jobs))
  }

  function CronsOf(fires: seq<Fire>): (r: seq<Uuid>)
    ensures |r| == |fires| && forall i :: 0 <= i < |fires| ==> r[i] == fires[i].cron
  {
    seq(|fires|, i requires 0 <= i < |fires| => fires[i].cron)
  }

  lemma CronsAppend(fires: seq<Fire>, f: Fire)
    ensures CronsOf(fires + [f]) == CronsOf(fires) + [f.cron]
  {
  }

  ghost predicate Answered(db: Database, now: Time, fires: seq<Fire>, ev: Evaluator) {
    forall i :: 0 <= i < |fires| ==> FireAnswers(db, now, fires[i], ev)
  }

  /** Cron rows from the n-th on are as they were read, and so are their runs. */
  ghost predicate Untouched(start: Database, db: Database, rows: seq<Uuid>, n: nat) {
    && (forall k :: n <= k < |rows|
          ==> rows[k] in db.crons && rows[k] in start.crons && db.crons[rows[k]] == start.crons[rows[k]])
    && (forall k, m :: n <= k < |rows| ==> (RunKey(rows[k], m) in db.runs <==> RunKey(rows[k], m) in start.runs))
  }

  /** The state of the firing loop: the rows done so far amount to the fires, and the rest is untouched. */
  ghost predicate Firing(start: Database, db: Database, now: Time, dbNow: Time, scheduler: string, rows: seq<Uuid>,
                         fires: seq<Fire>, inserted: seq<Fire>, ev: Evaluator) {
    && |fires| <= |rows| && CronsOf(fires) == rows[..|fires|] && Distinct(rows)
    && FireAll(start, dbNow, scheduler, fires) == Some(db)
    && Answered(start, now, fires, ev)
    && Untouched(start, db, rows, |fires|)
    && (forall f :: f in inserted <==> f in fires && RunKey(f.cron, f.minute) !in start.runs)
    && (forall f :: f in fires ==> f.job in db.jobs)
  }

  lemma FiringStarts(start: Database, now: Time, dbNow: Time, scheduler: string, rows: seq<Uuid>, ev: Evaluator)
    requires Distinct(rows) && forall i :: 0 <= i < |rows| ==> rows[i] in start.crons
    ensures Firing(start, start, now, dbNow, scheduler, rows, [], [], ev)
  {
  }

  lemma UntouchedRow(start: Database, db: Database, rows: seq<Uuid>, n: nat)
    requires Untouched(start, db, rows, n) && n < |rows|
    ensures rows[n] in db.crons && rows[n] in start.crons && db.crons[rows[n]] == start.crons[rows[n]]
  {
  }

  /** What a fire was told about the current row holds of the row as read at the start. */
  lemma AnswersFromStart(start: Database, db: Database, now: Time, fires: seq<Fire>, f: Fire, ev: Evaluator)
    requires Answered(start, now, fires, ev) && f.cron in start.crons && f.cron in db.crons
    requires start.crons[f.cron] == db.crons[f.cron]
    requires FireAnswers(db, now, f, ev)
    ensures Answered(start, now, fires + [f], ev)
  {
  }

  lemma FiringFails(start: Database, db: Database, now: Time, dbNow: Time, scheduler: string, rows: seq<Uuid>,
                    fires: seq<Fire>, inserted: seq<Fire>, f: Fire, ev: Evaluator)
    requires Firing(start, db, now, dbNow, scheduler, rows, fires, inserted, ev) && |fires| < |rows|
    requires f.cron == rows[|fires|]
    requires FireAnswers(db, now, f, ev)
    ensures CronsOf(fires + [f]) == rows[..|fires| + 1] && Answered(start, now, fires + [f], ev)
    ensures FireAll(start, dbNow, scheduler, fires + [f]) == FireOne(db, dbNow, scheduler, f)
  {
    FireAppend(start, dbNow, scheduler, fires, f);
    CronsAppend(fires, f);
    UntouchedRow(start, db, rows, |fires|);
    AnswersFromStart(start, db, now, fires, f, ev);
    assert rows[..|fires| + 1] == rows[..|fires|] + [rows[|fires|]];
  }

  lemma FireLeavesOthers(db: Database, d: Database, now: Time, scheduler: string, rows: seq<Uuid>, n: nat, f: Fire,
                         start: Database)
    requires FireOne(db, now, scheduler, f) == Some(d) && Distinct(rows) && n < |rows| && f.cron == rows[n]
    requires Untouched(start, db, rows, n)
    ensures Untouched(start, d, rows, n + 1)
    ensures forall id :: id in db.jobs ==> id in d.jobs
  {
  }

  lemma FiringContinues(start: Database, db: Database, d: Database, now: Time, dbNow: Time, scheduler: string,
                        rows: seq<Uuid>, fires: seq<Fire>, inserted: seq<Fire>, f: Fire, ev: Evaluator)
    requires Firing(start, db, now, dbNow, scheduler, rows, fires, inserted, ev) && |fires| < |rows|
    requires f.cron == rows[|fires|]
    requires FireAnswers(db, now, f, ev) && FireOne(db, dbNow, scheduler, f) == Some(d) && f.job in d.jobs
    ensures Firing(start, d, now, dbNow, scheduler, rows, fires + [f],
                   if RunKey(f.cron, f.minute) !in db.runs then inserted + [f] else inserted, ev)
  {
    FiringFails(start, db, now, dbNow, scheduler, rows, fires, inserted, f, ev);
    FireLeavesOthers(db, d, dbNow, scheduler, rows, |fires|, f, start);
    var more := if RunKey(f.cron, f.minute) !in db.runs then inserted + [f] else inserted;
    forall g ensures g in more <==> g in fires + [f] && RunKey(g.cron, g.minute) !in start.runs {
      assert g in fires + [f] <==> g in fires || g == f;
      assert RunKey(f.cron, f.minute) in db.runs <==> RunKey(f.cron, f.minute) in start.runs;
      NotFiredYet(rows, fires, f);
    }
  }

  lemma NotFiredYet(rows: seq<Uuid>, fires: seq<Fire>, f: Fire)
    requires Distinct(rows) && |fires| < |rows| && CronsOf(fires) == rows[..|fires|] && f.cron == rows[|fires|]
    ensures f !in fires
  {
    forall i | 0 <= i < |fires| ensures fires[i].cron != f.cron {
      assert CronsOf(fires)[i] == rows[i];
    }
  }

  lemma FiredRowsMatch(db: Database, now: Time, dbNow: Time, scheduler: string, limit: nat, rows: seq<Uuid>,
                       fires: seq<Fire>, ev: Evaluator)
    requires OrderedLimit(DueCrons(db, now), limit, rows)
    requires |fires| <= |rows| && CronsOf(fires) == rows[..|fires|] && Answered(db, now, fires, ev)
    ensures RowsMatch(db, EFire(now, dbNow, scheduler, fires))
    ensures CronAnswers(db, EFire(now, dbNow, scheduler, fires), ev)
  {
    forall i, j | 0 <= i < j < |fires| ensures fires[i].cron != fires[j].cron {
      assert fires[i].cron == rows[i] && fires[j].cron == rows[j];
    }
    forall f | f in fires ensures f.cron in DueCrons(db, now) {
      var i :| 0 <= i < |fires| && fires[i] == f;
      assert f.cron == rows[i];
    }
  }

  lemma FiringSucceeded(db: Database, d: Database, now: Time, dbNow: Time, scheduler: string, batch: int,
                        rows: seq<Uuid>, fires: seq<Fire>, inserted: seq<Fire>)
    requires OrderedLimit(DueCrons(db, now), BatchSize(batch), rows) && |fires| == |rows|
    requires Firing(db, d, now, dbNow, scheduler, rows, fires, inserted, CRON)
    ensures FiringResult(db, d, now, dbNow, scheduler, batch, Fired(fires, inserted))
  {
    assert rows[..|rows|] == rows;
    FiredRowsMatch(db, now, dbNow, scheduler, BatchSize(batch), rows, fires, CRON);
  }

  lemma FiringUndone(db: Database, now: Time, dbNow: Time, scheduler: string, batch: int, rows: seq<Uuid>,
                     fires: seq<Fire>)
    requires OrderedLimit(DueCrons(db, now), BatchSize(batch), rows)
    requires |fires| <= |rows| && CronsOf(fires) == rows[..|fires|] && Answered(db, now, fires, CRON)
    requires FireAll(db, dbNow, scheduler, fires).None?
    ensures FiringResult(db, db, now, dbNow, scheduler, batch, FireFailed(fires))
  {
    FiredRowsMatch(db, now, dbNow, scheduler, BatchSize(batch), rows, fires, CRON);
  }

  lemma NormalizedTwice(p: RetryPolicy, n: int)
    ensures Delay(Normalize(p), n) == Delay(p, n)
  {
    assert Normalize(Normalize(p)) == Normalize(p);
    SameExponential(p, n);
  }

  lemma {:induction false} SameExponential(p: RetryPolicy, n: int)
    ensures Exponential(Normalize(p), n) == Exponential(p, n)
  {
    assert Normalize(Normalize(p)) == Normalize(p);
    if n > 1 {
      SameExponential(p, n - 1);
    }
  }

  lemma AnswersOnFields(db: Database, now: Time, f: Fire)
    requires FireAnswers(db, now, f, CRON) && f.cron in db.crons
    ensures f.minute == db.crons[f.cron].nextRunAt / MINUTE && f.key == CronKey(f.cron, f.minute)
    ensures f.next == CronSyntax.NextRun(db.crons[f.cron].schedule, now)
  {
  }

  /** What a successful firing transaction did for each of its cron jobs: it wrote the run of the stored minute, and
      moved on to the next run of the schedule after the evaluating clock. */
  lemma FiringOnFields(db: Database, d: Database, now: Time, dbNow: Time, scheduler: string, batch: int,
                       r: FireResult, i: nat)
    requires FiringResult(db, d, now, dbNow, scheduler, batch, r) && r.Fired? && i < |r.fires|
    ensures FireWritten(db, d, dbNow, scheduler, r.fires[i])
    ensures var f := r.fires[i];
            && f.minute == db.crons[f.cron].nextRunAt / MINUTE && f.key == CronKey(f.cron, f.minute)
            && f.next == CronSyntax.NextRun(db.crons[f.cron].schedule, now)
  {
    FiresHaveDistinctKeys(db, EFire(now, dbNow, scheduler, r.fires));
    FiresWritten(db, dbNow, scheduler, r.fires, i);
    AnswersOnFields(db, now, r.fires[i]);
  }

  /** It took the due, enabled cron jobs, each once, the earliest next run first, as many as the batch allows. */
  lemma FiringOrder(db: Database, now: Time, batch: int, fires: seq<Fire>)
    requires OrderedLimit(DueCrons(db, now), BatchSize(batch), CronsOf(fires))
    ensures var due := set c | c in db.crons && db.crons[c].enabled && db.crons[c].nextRunAt <= now;
            && |fires| == Min(if batch <= 0 || batch > 100 then 50 else batch, |due|)
            && (forall i | 0 <= i < |fires| :: fires[i].cron in due)
            && (forall i, j | 0 <= i < j < |fires| ::
                  && fires[i].cron != fires[j].cron
                  && db.crons[fires[i].cron].nextRunAt <= db.crons[fires[j].cron].nextRunAt)
            && (forall i, c | 0 <= i < |fires| && c in due && !Fires(fires, c) ::
                  db.crons[fires[i].cron].nextRunAt <= db.crons[c].nextRunAt)
  {
    var ranks, crons := DueCrons(db, now), CronsOf(fires);
    assert ranks.Keys == set c | c in db.crons && db.crons[c].enabled && db.crons[c].nextRunAt <= now;
    forall i | 0 <= i < |fires| ensures crons[i] == fires[i].cron && crons[i] in ranks {
    }
    forall a, b | a in ranks && b in ranks && AtMost(ranks[a], ranks[b])
      ensures db.crons[a].nextRunAt <= db.crons[b].nextRunAt
    {
    }
  }
}
