/** What each committed transaction does to the tables. A transaction that errors yields None and leaves them alone. */
module Transactions {
  import opened Prelude
  import opened Keys
  import opened Tables
  import opened Backoff
  import opened Text

  // Submission.

  datatype CreateParams = CreateParams(
    queue: string,
    priority: int,
    maxAttempts: int,
    timeoutSeconds: int,
    delaySeconds: int,
    payloadValid: bool,
    key: Option<string>)

  predicate ValidParams(p: CreateParams) {
    p.timeoutSeconds >= 0 && p.delaySeconds >= 0 && p.payloadValid
  }

  /** The empty string counts as no key. */
  function KeyOf(p: CreateParams): Option<string> {
    if p.key == Some("") then None else p.key
  }

  predicate HasKey(jobs: map<Uuid, Job>, key: Option<string>) {
    key.Some? && exists id | id in jobs :: jobs[id].key == key
  }

  function NewJob(queue: string, priority: int, maxAttempts: int, key: Option<string>, availableAt: Time,
                  now: Time): Job {
    Job(queue, Queued, priority, maxAttempts, 0, key, None, None, None, availableAt, None, now, now, None, None)
  }

  function SubmittedJob(p: CreateParams, now: Time): Job {
    NewJob(if p.queue == "" then "default" else p.queue, p.priority, if p.maxAttempts <= 0 then 1 else p.maxAttempts,
           KeyOf(p), now + p.delaySeconds * SECOND, now)
  }

  /** The insert of CreateJob; a known key makes it do nothing. */
  function Insert(db: Database, now: Time, id: Uuid, p: CreateParams): Option<Database> {
    if !ValidParams(p) then None
    else if HasKey(db.jobs, KeyOf(p)) then Some(db)
    else if id in db.jobs then None
    else Some(db.(jobs := db.jobs[id := SubmittedJob(p, now)]))
  }

  // Attempts of a job.

  datatype Verdict = Success | Failure(message: string)

  predicate OpenAttempt(k: AttemptKey, a: Attempt, id: Uuid, token: Uuid) {
    k.job == id && a.token == token && a.status == AttemptRunning
  }

  function OpenAttempts(attempts: map<AttemptKey, Attempt>, id: Uuid, token: Uuid): set<AttemptKey> {
    set k | k in attempts && OpenAttempt(k, attempts[k], id, token)
  }

  function Closed(a: Attempt, verdict: Verdict, now: Time): Attempt {
    match verdict
    case Success => a.(status := AttemptSucceeded, finishedAt := Some(now))
    case Failure(message) => a.(status := AttemptFailed, finishedAt := Some(now), error := Some(message))
  }

  function CloseAttempts(attempts: map<AttemptKey, Attempt>, id: Uuid, token: Uuid, verdict: Verdict, now: Time)
    : map<AttemptKey, Attempt>
  {
    map k | k in attempts :: if OpenAttempt(k, attempts[k], id, token) then Closed(attempts[k], verdict, now)
                             else attempts[k]
  }

  function Unlocked(j: Job): Job {
    j.(lockedBy := None, lockedUntil := None, leaseToken := None)
  }

  // Claiming.

  predicate Waiting(j: Job) {
    j.status == Queued || j.status == RetryScheduled
  }

  predicate Claimable(j: Job, queue: string, now: Time) {
    j.queue == queue && Waiting(j) && j.availableAt <= now
  }

  /** A negative duration is written as an interval of zero. */
  function Interval(d: int): int {
    if d < 0 then 0 else d
  }

  function ClaimedJob(j: Job, now: Time, worker: string, lease: int, token: Uuid): Job {
    j.(status := Running, lockedBy := Some(worker), lockedUntil := Some(now + Interval(lease)),
       leaseToken := Some(token),
       attemptCount := j.attemptCount + 1, updatedAt := now)
  }

  function NewAttempt(worker: string, token: Uuid, now: Time): Attempt {
    Attempt(worker, token, AttemptRunning, now, None, None)
  }

  /** Both unique indexes on attempts accept the new row. */
  predicate AttemptAccepted(attempts: map<AttemptKey, Attempt>, id: Uuid, number: int, token: Uuid) {
    && AttemptKey(id, number) !in attempts
    && forall k | k in attempts :: k.job == id ==> attempts[k].token != token
  }

  function Claim(db: Database, now: Time, worker: string, lease: int, token: Uuid, pick: Uuid): Option<Database>
    requires pick in db.jobs
  {
    var j := ClaimedJob(db.jobs[pick], now, worker, lease, token);
    if !AttemptAccepted(db.attempts, pick, j.attemptCount, token) then None
    else Some(db.(jobs := db.jobs[pick := j],
                  attempts := db.attempts[AttemptKey(pick, j.attemptCount) := NewAttempt(worker, token, now)]))
  }

  // Ending a lease.

  predicate HoldsLease(db: Database, id: Uuid, token: Uuid) {
    id in db.jobs && db.jobs[id].status == Running && db.jobs[id].leaseToken == Some(token)
  }

  function CompletedJob(j: Job, now: Time): Job {
    Unlocked(j).(status := Succeeded, completedAt := Some(now), updatedAt := now, lastError := None)
  }

  function Complete(db: Database, now: Time, id: Uuid, token: Uuid): Option<Database> {
    if !HoldsLease(db, id, token) then None
    else if |OpenAttempts(db.attempts, id, token)| != 1 then None
    else Some(db.(jobs := db.jobs[id := CompletedJob(db.jobs[id], now)],
                  attempts := CloseAttempts(db.attempts, id, token, Success, now)))
  }

  function NormalizedMaxAttempts(m: int): int {
    if m <= 0 then 1 else m
  }

  predicate MayRetry(j: Job) {
    j.attemptCount < NormalizedMaxAttempts(j.maxAttempts)
  }

  function RescheduledJob(j: Job, now: Time, delay: int, message: string): Job {
    Unlocked(j).(status := RetryScheduled, availableAt := now + Interval(delay), completedAt := None, updatedAt := now,
                 lastError := Some(message))
  }

  function DeadJob(j: Job, now: Time, message: string): Job {
    Unlocked(j).(status := DeadLetter, completedAt := Some(now), deadLetteredAt := Some(now), updatedAt := now,
                 lastError := Some(message))
  }

  function FailedJob(j: Job, now: Time, message: string, policy: RetryPolicy): Job {
    if MayRetry(j) then RescheduledJob(j, now, Delay(policy, j.attemptCount), message) else DeadJob(j, now, message)
  }

  function Fail(db: Database, now: Time, id: Uuid, token: Uuid, message: string,
                policy: RetryPolicy): Option<Database> {
    if !HoldsLease(db, id, token) then None
    else if |OpenAttempts(db.attempts, id, token)| != 1 then None
    else Some(db.(jobs := db.jobs[id := FailedJob(db.jobs[id], now, message, policy)],
                  attempts := CloseAttempts(db.attempts, id, token, Failure(message), now)))
  }

  // Recovering expired leases.

  predicate Expired(j: Job, now: Time) {
    j.status == Running && j.lockedUntil.Some? && j.lockedUntil.value <= now
  }

  function ExpiredJobs(db: Database, now: Time): set<Uuid> {
    set id | id in db.jobs && Expired(db.jobs[id], now)
  }

  function RecoveredJob(j: Job, now: Time, reason: string): Job {
    if MayRetry(j) then RescheduledJob(j, now, 0, reason) else DeadJob(j, now, reason)
  }

  function RecoverOne(db: Database, now: Time, reason: string, id: Uuid): Database
    requires id in db.jobs
  {
    var j := db.jobs[id];
    db.(jobs := db.jobs[id := RecoveredJob(j, now, reason)],
        attempts := if j.leaseToken.None? then db.attempts
                    else CloseAttempts(db.attempts, id, j.leaseToken.value, Failure(reason), now))
  }

  function Recover(db: Database, now: Time, reason: string, rows: seq<Uuid>): (r: Database)
    requires forall id | id in rows :: id in db.jobs
    ensures r.jobs.Keys == db.jobs.Keys
    decreases |rows|
  {
    if rows == [] then db
    else Recover(RecoverOne(db, now, reason, rows[0]), now, reason, rows[1..])
  }

  // Heartbeats.

  predicate HeldBy(j: Job, worker: string) {
    j.lockedBy == Some(worker) && j.status == Running && j.leaseToken.Some?
  }

  function HeldJobs(db: Database, worker: string): set<Uuid> {
    set id | id in db.jobs && HeldBy(db.jobs[id], worker)
  }

  function ExtendedJob(j: Job, now: Time, lease: int): Job {
    j.(lockedUntil := Some(now + Interval(lease)), updatedAt := now)
  }

  /** A heartbeat; `rows` are the leases it extends when the lease duration is positive. */
  function Heartbeat(db: Database, now: Time, worker: string, status: WorkerStatus, lease: int,
                     rows: set<Uuid>): Option<Database> {
    if worker !in db.workers then None
    else Some(db.(workers := db.workers[worker := db.workers[worker].(status := status, lastHeartbeatAt := now)],
                  jobs := map id | id in db.jobs
                            :: if lease > 0 && id in rows then ExtendedJob(db.jobs[id], now, lease) else db.jobs[id]))
  }

  function Register(db: Database, now: Time, worker: string, queues: seq<string>): Option<Database> {
    if Blank(worker) then None
    else Some(db.(workers := db.workers[worker := Worker(queues, WorkerRunning, now)]))
  }

  // Operator actions.

  predicate Retriable(j: Job) {
    j.status == Failed || j.status == DeadLetter || j.status == Cancelled
  }

  function RequeuedJob(j: Job, now: Time): Job {
    Unlocked(j).(status := Queued, maxAttempts := Max(j.maxAttempts, j.attemptCount + 1), availableAt := now,
                 deadLetteredAt := None, completedAt := None, lastError := None, updatedAt := now)
  }

  function Retry(db: Database, now: Time, id: Uuid): Option<Database> {
    if id !in db.jobs || !Retriable(db.jobs[id]) then None
    else Some(db.(jobs := db.jobs[id := RequeuedJob(db.jobs[id], now)]))
  }

  function CancelledJob(j: Job, now: Time): Job {
    Unlocked(j).(status := Cancelled, completedAt := Some(now), updatedAt := now,
                 lastError := Some("cancelled by operator"))
  }

  function Cancel(db: Database, now: Time, id: Uuid): Option<Database> {
    if id !in db.jobs || !Waiting(db.jobs[id]) then None
    else Some(db.(jobs := db.jobs[id := CancelledJob(db.jobs[id], now)]))
  }

  // Cron jobs.

  datatype CronParams = CronParams(
    name: string,
    queue: string,
    kind: string,
    schedule: string,
    priority: int,
    maxAttempts: int,
    timeoutSeconds: int,
    payloadValid: bool)

  predicate ValidCron(p: CronParams) {
    p.name != "" && p.kind != "" && p.payloadValid && p.timeoutSeconds >= 0
  }

  /** Creates a cron job whose first run is `next`, the evaluator's answer. */
  function CreateCron(db: Database, id: Uuid, p: CronParams, next: Option<Time>): Option<Database> {
    if !ValidCron(p) || next.None? || id in db.crons then None
    else if exists c | c in db.crons :: db.crons[c].name == p.name then None
    else Some(db.(crons := db.crons[id := Cron(p.name, if p.queue == "" then "default" else p.queue,
                                               p.schedule, true, p.priority,
                                               if p.maxAttempts <= 0 then 1 else p.maxAttempts, next.value, None)]))
  }

  /** Enabling re-evaluates the schedule; disabling keeps the stored next run. */
  function SetCron(db: Database, id: Uuid, enabled: bool, next: Option<Time>): Option<Database> {
    if id !in db.crons || (enabled && next.None?) then None
    else
      var c := db.crons[id];
      Some(db.(crons := db.crons[id := c.(
                 enabled := enabled, nextRunAt := if enabled then next.value else c.nextRunAt)]))
  }

  /** One due cron job within a firing transaction: its minute, its key, the job row that the upsert returns,
      and the evaluator's answer for the following run. */
  datatype Fire = Fire(cron: Uuid, minute: int, key: string, job: Uuid, next: Option<Time>)

  /** Whether the upsert on the idempotency key can return row f.job: the row that has the key, or a new one. */
  predicate Returns(db: Database, f: Fire) {
    if HasKey(db.jobs, Some(f.key)) then f.job in db.jobs && db.jobs[f.job].key == Some(f.key) else f.job !in db.jobs
  }

  function FireOne(db: Database, now: Time, scheduler: string, f: Fire): Option<Database> {
    if f.cron !in db.crons || !Returns(db, f) || f.next.None? then None
    else
      var c := db.crons[f.cron];
      var run := RunKey(f.cron, f.minute);
      Some(db.(jobs := if HasKey(db.jobs, Some(f.key)) then db.jobs
                       else db.jobs[f.job := NewJob(c.queue, c.priority, c.maxAttempts, Some(f.key), now, now)],
               runs := if run in db.runs then db.runs else db.runs[run := CronRun(f.job, scheduler)],
               crons := db.crons[f.cron := c.(lastRunAt := Some(f.minute * MINUTE), nextRunAt := f.next.value)]))
  }

  /** FireDueCronJobs: all picked cron jobs in one transaction; one error undoes all of them. */
  function FireAll(db: Database, now: Time, scheduler: string, fires: seq<Fire>): Option<Database>
    decreases |fires|
  {
    if fires == [] then Some(db)
    else
      match FireOne(db, now, scheduler, fires[0])
      case None => None
      case Some(d) => FireAll(d, now, scheduler, fires[1..])
  }

  /** Firing one more cron job comes after firing those before it. */
  lemma {:induction false} FireAppend(db: Database, now: Time, scheduler: string, fires: seq<Fire>, f: Fire)
    ensures FireAll(db, now, scheduler, fires + [f])
         == match FireAll(db, now, scheduler, fires)
            case None => None
            case Some(d) => FireOne(d, now, scheduler, f)
    decreases |fires|
  {
    if fires == [] {
      assert [] + [f] == [f];
      assert [f][1..] == [];
    } else {
      assert (fires + [f])[1..] == fires[1..] + [f];
      if FireOne(db, now, scheduler, fires[0]).Some? {
        FireAppend(FireOne(db, now, scheduler, fires[0]).value, now, scheduler, fires[1..], f);
      }
    }
  }
}
