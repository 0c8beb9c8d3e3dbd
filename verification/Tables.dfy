/** The rows and tables of the store. A primary key or a unique index is the key of a map; the two other unique
    indexes (job idempotency keys, lease tokens within a job) are checked by the transactions. */
module Tables {
  import opened Prelude
  import opened Keys

  datatype JobStatus = Queued | Running | Succeeded | Failed | RetryScheduled | DeadLetter | Cancelled

  datatype Job = Job(
    queue: string,
    status: JobStatus,
    priority: int,
    maxAttempts: int,
    attemptCount: int,
    key: Option<string>,
    lockedBy: Option<string>,
    lockedUntil: Option<Time>,
    leaseToken: Option<Uuid>,
    availableAt: Time,
    deadLetteredAt: Option<Time>,
    createdAt: Time,
    updatedAt: Time,
    completedAt: Option<Time>,
    lastError: Option<string>)

  datatype AttemptStatus = AttemptRunning | AttemptSucceeded | AttemptFailed

  datatype Attempt = Attempt(
    worker: string,
    token: Uuid,
    status: AttemptStatus,
    startedAt: Time,
    finishedAt: Option<Time>,
    error: Option<string>)

  datatype AttemptKey = AttemptKey(job: Uuid, number: int)

  datatype WorkerStatus = WorkerStarting | WorkerRunning | WorkerDraining | WorkerStopped

  datatype Worker = Worker(queues: seq<string>, status: WorkerStatus, lastHeartbeatAt: Time)

  datatype Cron = Cron(
    name: string,
    queue: string,
    schedule: string,
    enabled: bool,
    priority: int,
    maxAttempts: int,
    nextRunAt: Time,
    lastRunAt: Option<Time>)

  datatype RunKey = RunKey(cron: Uuid, minute: int)

  datatype CronRun = CronRun(job: Uuid, scheduler: string)

  datatype Database = Database(
    jobs: map<Uuid, Job>,
    attempts: map<AttemptKey, Attempt>,
    workers: map<string, Worker>,
    crons: map<Uuid, Cron>,
    runs: map<RunKey, CronRun>)

  const EMPTY: Database := Database(map[], map[], map[], map[], map[])
}
