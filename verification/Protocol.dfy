/** The store as a state machine with one atomic step per transaction, and its runs from an empty database. */
module Protocol {
  import opened Prelude
  import opened Keys
  import opened Tables
  import opened Transactions
  import opened Backoff

  /** A transaction with everything it takes from outside: the clock, identifiers and lease tokens (which may
      repeat), and the rows that a query with SKIP LOCKED happened to return. */
  datatype Event =
    | EInsert(now: Time, id: Uuid, params: CreateParams)
    | EClaim(now: Time, queue: string, worker: string, lease: int, token: Uuid, pick: Uuid)
    | EComplete(now: Time, id: Uuid, token: Uuid)
    | EFail(now: Time, id: Uuid, token: Uuid, message: string, policy: RetryPolicy)
    | ERecover(now: Time, reason: string, rows: seq<Uuid>)
    | EHeartbeat(now: Time, worker: string, status: WorkerStatus, lease: int, held: set<Uuid>)
    | ERegister(now: Time, worker: string, queues: seq<string>)
    | ERetry(now: Time, id: Uuid)
    | ECancel(now: Time, id: Uuid)
    | ECreateCron(now: Time, id: Uuid, cron: CronParams, next: Option<Time>)
    | ESetCron(now: Time, id: Uuid, enabled: bool, next: Option<Time>)
    | EFire(now: Time, dbNow: Time, scheduler: string, fires: seq<Fire>)

  predicate Distinct<T(==)>(s: seq<T>) {
    forall i, j :: 0 <= i < j < |s| ==> s[i] != s[j]
  }

  /** The rows a query may return: claimable, expired, held by the worker. */
  predicate RowsMatch(db: Database, e: Event) {
    match e
    case EClaim(now, queue, _, _, _, pick) => pick in db.jobs && Claimable(db.jobs[pick], queue, now)
    case ERecover(now, _, rows) =>
      Distinct(rows) && forall id | id in rows :: id in db.jobs && Expired(db.jobs[id], now)
    case EHeartbeat(_, worker, _, _, held) => held <= HeldJobs(db, worker)
    case EFire(now, _, _, fires) =>
      && (forall i, j :: 0 <= i < j < |fires| ==> fires[i].cron != fires[j].cron)
      && (forall f | f in fires :: f.cron in db.crons && db.crons[f.cron].enabled && db.crons[f.cron].nextRunAt <= now)
    case _ => true
  }

  function Transact(db: Database, e: Event): Option<Database>
    requires RowsMatch(db, e)
  {
    match e
    case EInsert(now, id, params) => Insert(db, now, id, params)
    case EClaim(now, _, worker, lease, token, pick) => Claim(db, now, worker, lease, token, pick)
    case EComplete(now, id, token) => Complete(db, now, id, token)
    case EFail(now, id, token, message, policy) => Fail(db, now, id, token, message, policy)
    case ERecover(now, reason, rows) => Some(Recover(db, now, reason, rows))
    case EHeartbeat(now, worker, status, lease, held) => Heartbeat(db, now, worker, status, lease, held)
    case ERegister(now, worker, queues) => Register(db, now, worker, queues)
    case ERetry(now, id) => Retry(db, now, id)
    case ECancel(now, id) => Cancel(db, now, id)
    case ECreateCron(_, id, cron, next) => CreateCron(db, id, cron, next)
    case ESetCron(_, id, enabled, next) => SetCron(db, id, enabled, next)
    case EFire(_, dbNow, scheduler, fires) => FireAll(db, dbNow, scheduler, fires)
  }

  /** A rolled back transaction changes nothing. */
  function Apply(db: Database, e: Event): Database
    requires RowsMatch(db, e)
  {
    match Transact(db, e)
    case None => db
    case Some(d) => d
  }

  /** Several transactions one after another, each with rows that match when its turn comes. */
  predicate Matching(db: Database, events: seq<Event>)
    decreases |events|
  {
    events == [] || (RowsMatch(db, events[0]) && Matching(Apply(db, events[0]), events[1..]))
  }

  function ApplyAll(db: Database, events: seq<Event>): Database
    requires Matching(db, events)
    decreases |events|
  {
    if events == [] then db else ApplyAll(Apply(db, events[0]), events[1..])
  }

  ghost predicate Next(db: Database, e: Event, db': Database) {
    RowsMatch(db, e) && db' == Apply(db, e)
  }

  /** states[i] is the database before events[i]. */
  ghost predicate Run(states: seq<Database>, events: seq<Event>) {
    && |states| == |events| + 1
    && states[0] == EMPTY
    && forall i {:trigger StepAt(states, events, i)} :: 0 <= i < |events| ==> StepAt(states, events, i)
  }

  ghost predicate StepAt(states: seq<Database>, events: seq<Event>, i: int)
    requires |states| == |events| + 1 && 0 <= i < |events|
  {
    Next(states[i], events[i], states[i + 1])
  }
}
