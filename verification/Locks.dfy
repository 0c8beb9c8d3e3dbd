/** The same transactions split into begin, lock, write and commit or abort, interleaved under row locks.
    Queries with SKIP LOCKED may return any free row that qualifies; blocking statements lock a row once it is
    free and check it again. Every interleaving is a run of the atomic machine. */
module Locks {
  import opened Prelude
  import opened Keys
  import opened Tables
  import opened Transactions
  import opened Protocol
  import opened Invariant
  import opened Steps
  import opened Backoff
  import opened Leases

  type TxId = nat

  datatype Op =
    | OClaim(queue: string, worker: string, lease: int, token: Uuid)
    | OComplete(id: Uuid, token: Uuid)
    | OFail(id: Uuid, token: Uuid, message: string, policy: RetryPolicy)
    | ORecover(reason: string, batch: int)
    | ORetry(id: Uuid)
    | OCancel(id: Uuid)
    | OHeartbeat(worker: string, status: WorkerStatus, lease: int)

  /** A transaction in progress: what it read under its locks, in locking order, and what it has written. */
  datatype Txn = Txn(
    now: Time,
    op: Op,
    locked: seq<Uuid>,
    read: map<Uuid, Job>,
    jobWrites: map<Uuid, Job>,
    attemptWrites: map<AttemptKey, Attempt>,
    workerRow: Option<Worker>)

  /** Committed tables and open transactions. */
  datatype Low = Low(db: Database, txns: map<TxId, Txn>)

  const START: Low := Low(EMPTY, map[])

  /** The condition under which a row is locked, checked on the row as it is once locked. */
  predicate Wants(op: Op, now: Time, id: Uuid, j: Job) {
    match op
    case OClaim(queue, _, _, _) => Claimable(j, queue, now)
    case OComplete(job, token) => id == job && LeasedUnder(j, token)
    case OFail(job, token, _, _) => id == job && LeasedUnder(j, token)
    case ORecover(_, _) => Expired(j, now)
    case ORetry(job) => id == job && Retriable(j)
    case OCancel(job) => id == job && Waiting(j)
    case OHeartbeat(worker, _, lease) => lease > 0 && HeldBy(j, worker)
  }

  /** Whether the transaction may lock one more row. */
  predicate MayLockMore(x: Txn) {
    match x.op
    case ORecover(_, batch) => |x.locked| < BatchSize(batch) && x.jobWrites == map[]
    case OHeartbeat(_, _, _) => x.workerRow.Some?
    case _ => x.locked == []
  }

  /** The new row, from the row read under the lock. */
  function NewRow(op: Op, now: Time, j: Job): Job {
    match op
    case OClaim(_, worker, lease, token) => ClaimedJob(j, now, worker, lease, token)
    case OComplete(_, _) => CompletedJob(j, now)
    case OFail(_, _, message, policy) => FailedJob(j, now, message, policy)
    case ORecover(reason, _) => RecoveredJob(j, now, reason)
    case ORetry(_) => RequeuedJob(j, now)
    case OCancel(_) => CancelledJob(j, now)
    case OHeartbeat(_, _, lease) => ExtendedJob(j, now, lease)
  }

  function ClosedRows(attempts: map<AttemptKey, Attempt>, id: Uuid, token: Uuid, verdict: Verdict,
                      now: Time): map<AttemptKey, Attempt> {
    map k | k in attempts && OpenAttempt(k, attempts[k], id, token) :: Closed(attempts[k], verdict, now)
  }

  /** The attempt rows written for one locked job. */
  function AttemptRows(op: Op, now: Time, id: Uuid, j: Job,
                       attempts: map<AttemptKey, Attempt>): map<AttemptKey, Attempt> {
    match op
    case OClaim(_, worker, _, token) => map[AttemptKey(id, j.attemptCount + 1) := NewAttempt(worker, token, now)]
    case OComplete(_, token) => ClosedRows(attempts, id, token, Success, now)
    case OFail(_, token, message, _) => ClosedRows(attempts, id, token, Failure(message), now)
    case ORecover(reason, _) =>
      if j.leaseToken.None? then map[] else ClosedRows(attempts, id, j.leaseToken.value, Failure(reason), now)
    case _ => map[]
  }

  /** Unique indexes and row counts checked while writing. */
  predicate WriteAccepted(op: Op, id: Uuid, j: Job, attempts: map<AttemptKey, Attempt>) {
    match op
    case OClaim(_, _, _, token) => AttemptAccepted(attempts, id, j.attemptCount + 1, token)
    case OComplete(_, token) => |OpenAttempts(attempts, id, token)| == 1
    case OFail(_, token, _, _) => |OpenAttempts(attempts, id, token)| == 1
    case _ => true
  }

  predicate ReadyToCommit(x: Txn) {
    && x.jobWrites.Keys == x.read.Keys
    && (x.op.OHeartbeat? ==> x.workerRow.Some?)
    && (!x.op.OHeartbeat? && !x.op.ORecover? ==> x.locked != [])
  }

  function Committed(db: Database, x: Txn): Database {
    db.(jobs := db.jobs + x.jobWrites,
        attempts := db.attempts + x.attemptWrites,
        workers := if x.op.OHeartbeat? && x.workerRow.Some?
                   then db.workers[x.op.worker := x.workerRow.value.(status := x.op.status, lastHeartbeatAt := x.now)]
                   else db.workers)
  }

  // Steps.

  datatype Step =
    | Begin(tx: TxId, now: Time, op: Op)
    | LockWorker(tx: TxId)
    | LockRow(tx: TxId, id: Uuid)
    | WriteRow(tx: TxId, id: Uuid)
    | Commit(tx: TxId)
    | Abort(tx: TxId)
    | Single(event: Event)

  predicate Free(l: Low, id: Uuid) {
    forall t | t in l.txns :: id !in l.txns[t].read
  }

  predicate LocksWorker(x: Txn, worker: string) {
    x.op.OHeartbeat? && x.op.worker == worker && x.workerRow.Some?
  }

  predicate WorkerFree(l: Low, worker: string) {
    forall t | t in l.txns :: !LocksWorker(l.txns[t], worker)
  }

  /** Statements that commit by themselves, and cron transactions, as one step. */
  predicate SingleStep(l: Low, e: Event) {
    && (e.EInsert? || e.ECreateCron? || e.ESetCron? || e.EFire? || (e.ERegister? && WorkerFree(l, e.worker)))
    && RowsMatch(l.db, e)
  }

  predicate Enabled(l: Low, s: Step) {
    match s
    case Begin(t, _, _) => t !in l.txns
    case LockWorker(t) =>
      && t in l.txns && l.txns[t].op.OHeartbeat? && l.txns[t].workerRow.None?
      && l.txns[t].op.worker in l.db.workers && WorkerFree(l, l.txns[t].op.worker)
    case LockRow(t, id) =>
      t in l.txns && id in l.db.jobs && Free(l, id) && MayLockMore(l.txns[t])
          && Wants(l.txns[t].op, l.txns[t].now, id, l.db.jobs[id])
    case WriteRow(t, id) =>
      t in l.txns && id in l.txns[t].read && id !in l.txns[t].jobWrites
          && WriteAccepted(l.txns[t].op, id, l.txns[t].read[id], l.db.attempts)
    case Commit(t) => t in l.txns && ReadyToCommit(l.txns[t])
    case Abort(t) => t in l.txns
    case Single(e) => SingleStep(l, e)
  }

  function TakeStep(l: Low, s: Step): Low
    requires Enabled(l, s)
  {
    match s
    case Begin(t, now, op) => l.(txns := l.txns[t := Txn(now, op, [], map[], map[], map[], None)])
    case LockWorker(t) => l.(txns := l.txns[t := l.txns[t].(workerRow := Some(l.db.workers[l.txns[t].op.worker]))])
    case LockRow(t, id) =>
      var x := l.txns[t];
      l.(txns := l.txns[t := x.(locked := x.locked + [id], read := x.read[id := l.db.jobs[id]])])
    case WriteRow(t, id) =>
      var x := l.txns[t];
      var j := x.read[id];
      l.(txns := l.txns[t := x.(jobWrites := x.jobWrites[id := NewRow(x.op, x.now, j)],
                                attemptWrites := x.attemptWrites + AttemptRows(x.op, x.now, id, j, l.db.attempts))])
    case Commit(t) => Low(Committed(l.db, l.txns[t]), l.txns - {t})
    case Abort(t) => l.(txns := l.txns - {t})
    case Single(e) => l.(db := Apply(l.db, e))
  }

  // What the locks guarantee.

  /** A locked row is still the row that was read, still qualifies, and what has been written for it is what an
      atomic transaction would write now. */
  predicate LockedRowOk(db: Database, x: Txn, id: Uuid)
    requires id in x.read
  {
    && id in db.jobs && db.jobs[id] == x.read[id] && Wants(x.op, x.now, id, x.read[id])
    && (id in x.jobWrites ==> x.jobWrites[id] == NewRow(x.op, x.now, x.read[id])
                              && WriteAccepted(x.op, id, x.read[id], db.attempts))
  }

  predicate AttemptWriteOk(db: Database, x: Txn, k: AttemptKey)
    requires x.jobWrites.Keys <= x.read.Keys
  {
    if k.job in x.jobWrites && k in AttemptRows(x.op, x.now, k.job, x.read[k.job], db.attempts)
    then k in x.attemptWrites && x.attemptWrites[k] == AttemptRows(x.op, x.now, k.job, x.read[k.job], db.attempts)[k]
    else k !in x.attemptWrites
  }

  ghost predicate TxnOk(db: Database, x: Txn) {
    && Distinct(x.locked) && x.jobWrites.Keys <= x.read.Keys
    && (forall id :: id in x.read <==> id in x.locked)
    && (forall id {:trigger LockedRowOk(db, x, id)} :: id in x.read ==> LockedRowOk(db, x, id))
    && (forall k {:trigger AttemptWriteOk(db, x, k)} :: AttemptWriteOk(db, x, k))
    && (!x.op.ORecover? && !x.op.OHeartbeat? ==> |x.locked| <= 1)
    && (x.workerRow.Some? ==> x.op.OHeartbeat? && x.op.worker in db.workers
                              && db.workers[x.op.worker] == x.workerRow.value)
  }

  ghost predicate Exclusive(l: Low) {
    && (forall t, u, id :: t in l.txns && u in l.txns && t != u && id in l.txns[t].read ==> id !in l.txns[u].read)
    && (forall t, u, w :: t in l.txns && u in l.txns && t != u && LocksWorker(l.txns[t], w)
          ==> !LocksWorker(l.txns[u], w))
  }

  ghost predicate LowInv(l: Low) {
    Exclusive(l) && forall t {:trigger TxnOk(l.db, l.txns[t])} :: t in l.txns ==> TxnOk(l.db, l.txns[t])
  }

  // Stability: rows that a transaction holds do not change under it.

  ghost predicate SameAttempts(id: Uuid, a: map<AttemptKey, Attempt>, b: map<AttemptKey, Attempt>) {
    forall k: AttemptKey :: k.job == id ==> (k in a <==> k in b) && (k in a ==> a[k] == b[k])
  }

  lemma WritesDependOnOwnAttempts(op: Op, now: Time, id: Uuid, j: Job, a: map<AttemptKey, Attempt>,
                                  b: map<AttemptKey, Attempt>)
    requires SameAttempts(id, a, b)
    ensures AttemptRows(op, now, id, j, a) == AttemptRows(op, now, id, j, b)
    ensures WriteAccepted(op, id, j, a) <==> WriteAccepted(op, id, j, b)
  {
    forall token ensures OpenAttempts(a, id, token) == OpenAttempts(b, id, token) {
    }
    forall token, verdict, now
      ensures ClosedRows(a, id, token, verdict, now) == ClosedRows(b, id, token, verdict, now)
    {
    }
  }

  lemma TxnStable(db: Database, d: Database, x: Txn)
    requires TxnOk(db, x)
    requires forall id :: id in x.read ==> id in d.jobs && id in db.jobs && d.jobs[id] == db.jobs[id]
    requires forall id :: id in x.read ==> SameAttempts(id, db.attempts, d.attempts)
    requires x.workerRow.Some? ==> x.op.OHeartbeat? && x.op.worker in d.workers
                                   && d.workers[x.op.worker] == x.workerRow.value
    ensures TxnOk(d, x)
  {
    forall id | id in x.read ensures LockedRowOk(d, x, id) {
      assert LockedRowOk(db, x, id);
      WritesDependOnOwnAttempts(x.op, x.now, id, x.read[id], db.attempts, d.attempts);
    }
    forall k ensures AttemptWriteOk(d, x, k) {
      assert AttemptWriteOk(db, x, k);
      if k.job in x.jobWrites {
        WritesDependOnOwnAttempts(x.op, x.now, k.job, x.read[k.job], db.attempts, d.attempts);
      }
    }
  }

  lemma AttemptRowsOwnJob(op: Op, now: Time, id: Uuid, j: Job, attempts: map<AttemptKey, Attempt>, k: AttemptKey)
    requires k in AttemptRows(op, now, id, j, attempts)
    ensures k.job == id
  {
  }

  // Steps that leave the tables alone.

  lemma BeginKeepsLowInv(l: Low, t: TxId, now: Time, op: Op)
    requires LowInv(l) && t !in l.txns
    ensures LowInv(TakeStep(l, Begin(t, now, op)))
  {
    var m := TakeStep(l, Begin(t, now, op));
    var x := m.txns[t];
    forall k ensures AttemptWriteOk(l.db, x, k) {
    }
    forall u | u in m.txns ensures TxnOk(m.db, m.txns[u]) {
      if u != t {
        assert TxnOk(l.db, l.txns[u]);
      }
    }
  }

  lemma AbortKeepsLowInv(l: Low, t: TxId)
    requires LowInv(l) && t in l.txns
    ensures LowInv(TakeStep(l, Abort(t)))
  {
    var m := TakeStep(l, Abort(t));
    forall u | u in m.txns ensures TxnOk(m.db, m.txns[u]) {
      assert TxnOk(l.db, l.txns[u]);
    }
  }

  /** Replacing one open transaction by one that holds what nobody else holds. */
  lemma TxnReplaced(l: Low, t: TxId, x: Txn)
    requires LowInv(l) && t in l.txns && TxnOk(l.db, x)
    requires forall u, id :: u in l.txns && u != t && id in x.read ==> id !in l.txns[u].read
    requires forall u, w :: u in l.txns && u != t && LocksWorker(x, w) ==> !LocksWorker(l.txns[u], w)
    ensures LowInv(l.(txns := l.txns[t := x]))
  {
    var m := l.(txns := l.txns[t := x]);
    forall u | u in m.txns ensures TxnOk(m.db, m.txns[u]) {
      if u != t {
        assert TxnOk(l.db, l.txns[u]);
      }
    }
  }

  lemma LockWorkerKeepsLowInv(l: Low, t: TxId)
    requires LowInv(l) && Enabled(l, LockWorker(t))
    ensures LowInv(TakeStep(l, LockWorker(t)))
  {
    var x := l.txns[t];
    assert TxnOk(l.db, x);
    var y := x.(workerRow := Some(l.db.workers[x.op.worker]));
    SameWritesOk(l.db, x, y);
    TxnReplaced(l, t, y);
  }

  /** A transaction that changes only its bookkeeping stays consistent. */
  lemma SameWritesOk(db: Database, x: Txn, y: Txn)
    requires TxnOk(db, x) && y == x.(workerRow := y.workerRow)
    requires y.workerRow.Some? ==> y.op.OHeartbeat? && y.op.worker in db.workers
                                   && db.workers[y.op.worker] == y.workerRow.value
    ensures TxnOk(db, y)
  {
    forall id | id in y.read ensures LockedRowOk(db, y, id) {
      assert LockedRowOk(db, x, id);
    }
    forall k ensures AttemptWriteOk(db, y, k) {
      assert AttemptWriteOk(db, x, k);
    }
  }

  lemma RowLockedOk(db: Database, x: Txn, id: Uuid)
    requires TxnOk(db, x) && id in db.jobs && id !in x.read && MayLockMore(x) && Wants(x.op, x.now, id, db.jobs[id])
    ensures TxnOk(db, x.(locked := x.locked + [id], read := x.read[id := db.jobs[id]]))
  {
    var y := x.(locked := x.locked + [id], read := x.read[id := db.jobs[id]]);
    forall i | i in y.read ensures LockedRowOk(db, y, i) {
      if i != id {
        assert LockedRowOk(db, x, i);
      }
    }
    forall k ensures AttemptWriteOk(db, y, k) {
      assert AttemptWriteOk(db, x, k);
    }
  }

  lemma LockRowKeepsLowInv(l: Low, t: TxId, id: Uuid)
    requires LowInv(l) && Enabled(l, LockRow(t, id))
    ensures LowInv(TakeStep(l, LockRow(t, id)))
  {
    assert TxnOk(l.db, l.txns[t]);
    RowLockedOk(l.db, l.txns[t], id);
    TxnReplaced(l, t, TakeStep(l, LockRow(t, id)).txns[t]);
  }

  lemma RowWrittenOk(db: Database, x: Txn, id: Uuid)
    requires TxnOk(db, x) && id in x.read && id !in x.jobWrites && WriteAccepted(x.op, id, x.read[id], db.attempts)
    ensures TxnOk(db, x.(jobWrites := x.jobWrites[id := NewRow(x.op, x.now, x.read[id])],
                         attemptWrites := x.attemptWrites + AttemptRows(x.op, x.now, id, x.read[id], db.attempts)))
  {
    var rows := AttemptRows(x.op, x.now, id, x.read[id], db.attempts);
    var y := x.(jobWrites := x.jobWrites[id := NewRow(x.op, x.now, x.read[id])],
                attemptWrites := x.attemptWrites + rows);
    forall i | i in y.read ensures LockedRowOk(db, y, i) {
      assert LockedRowOk(db, x, i);
    }
    forall k ensures AttemptWriteOk(db, y, k) {
      assert AttemptWriteOk(db, x, k);
      if k in rows {
        AttemptRowsOwnJob(x.op, x.now, id, x.read[id], db.attempts, k);
      }
    }
  }

  lemma WriteRowKeepsLowInv(l: Low, t: TxId, id: Uuid)
    requires LowInv(l) && Enabled(l, WriteRow(t, id))
    ensures LowInv(TakeStep(l, WriteRow(t, id)))
  {
    assert TxnOk(l.db, l.txns[t]);
    RowWrittenOk(l.db, l.txns[t], id);
    TxnReplaced(l, t, TakeStep(l, WriteRow(t, id)).txns[t]);
  }

  // Commit.

  /** Other transactions do not notice a commit. */
  lemma CommitKeepsLowInv(l: Low, t: TxId)
    requires LowInv(l) && Enabled(l, Commit(t))
    ensures LowInv(TakeStep(l, Commit(t)))
  {
    var m := TakeStep(l, Commit(t));
    var x := l.txns[t];
    assert TxnOk(l.db, x);
    forall u | u in m.txns ensures TxnOk(m.db, m.txns[u]) {
      var y := l.txns[u];
      assert TxnOk(l.db, y);
      forall id | id in y.read
        ensures id in m.db.jobs && id in l.db.jobs && m.db.jobs[id] == l.db.jobs[id]
        ensures SameAttempts(id, l.db.attempts, m.db.attempts)
      {
        assert LockedRowOk(l.db, y, id);
        assert id !in x.read;
        forall k: AttemptKey | k.job == id ensures k !in x.attemptWrites {
          assert AttemptWriteOk(l.db, x, k);
        }
      }
      if y.workerRow.Some? {
        assert LocksWorker(y, y.op.worker) && !LocksWorker(x, y.op.worker);
      }
      TxnStable(l.db, m.db, y);
    }
  }

  /** The atomic step that a commit amounts to. */
  function EventOf(x: Txn): Event
    requires !x.op.OHeartbeat? && !x.op.ORecover? ==> x.locked != []
  {
    match x.op
    case OClaim(queue, worker, lease, token) => EClaim(x.now, queue, worker, lease, token, x.locked[0])
    case OComplete(id, token) => EComplete(x.now, id, token)
    case OFail(id, token, message, policy) => EFail(x.now, id, token, message, policy)
    case ORecover(reason, _) => ERecover(x.now, reason, x.locked)
    case ORetry(id) => ERetry(x.now, id)
    case OCancel(id) => ECancel(x.now, id)
    case OHeartbeat(worker, status, lease) => EHeartbeat(x.now, worker, status, lease, set id | id in x.locked)
  }

  /** A single-row transaction has written its one row and that row's attempts. */
  lemma SingleRowWrites(db: Database, x: Txn)
    requires TxnOk(db, x) && ReadyToCommit(x) && !x.op.OHeartbeat? && !x.op.ORecover?
    ensures |x.locked| == 1
    ensures var id := x.locked[0];
            && id in db.jobs && Wants(x.op, x.now, id, db.jobs[id]) && WriteAccepted(x.op, id, db.jobs[id], db.attempts)
            && x.jobWrites == map[id := NewRow(x.op, x.now, db.jobs[id])]
            && x.attemptWrites == AttemptRows(x.op, x.now, id, db.jobs[id], db.attempts)
  {
    var id := x.locked[0];
    assert id in x.read && LockedRowOk(db, x, id);
    forall i | i in x.jobWrites ensures i == id {
      assert i in x.locked;
    }
    var rows := AttemptRows(x.op, x.now, id, db.jobs[id], db.attempts);
    forall k ensures k in x.attemptWrites <==> k in rows
             ensures k in rows ==> x.attemptWrites[k] == rows[k]
    {
      assert AttemptWriteOk(db, x, k);
      if k in rows {
        AttemptRowsOwnJob(x.op, x.now, id, db.jobs[id], db.attempts, k);
      }
    }
  }

  lemma ClosedRowsMerge(attempts: map<AttemptKey, Attempt>, id: Uuid, token: Uuid, verdict: Verdict, now: Time)
    ensures attempts + ClosedRows(attempts, id, token, verdict, now) == CloseAttempts(attempts, id, token, verdict, now)
  {
  }

  lemma ClaimCommitIsAtomic(db: Database, x: Txn)
    requires TxnOk(db, x) && ReadyToCommit(x) && x.op.OClaim?
    ensures RowsMatch(db, EventOf(x)) && Transact(db, EventOf(x)) == Some(Committed(db, x))
  {
    SingleRowWrites(db, x);
    var id := x.locked[0];
    var k := AttemptKey(id, db.jobs[id].attemptCount + 1);
    var a := NewAttempt(x.op.worker, x.op.token, x.now);
    assert db.attempts + map[k := a] == db.attempts[k := a];
    OneRowMerge(db.jobs, id, x.jobWrites[id]);
  }

  lemma OneRowMerge(jobs: map<Uuid, Job>, id: Uuid, j: Job)
    ensures jobs + map[id := j] == jobs[id := j]
  {
  }

  lemma EndLeaseCommitIsAtomic(db: Database, x: Txn)
    requires TxnOk(db, x) && ReadyToCommit(x) && (x.op.OComplete? || x.op.OFail?)
    ensures RowsMatch(db, EventOf(x)) && Transact(db, EventOf(x)) == Some(Committed(db, x))
  {
    SingleRowWrites(db, x);
    var id := x.locked[0];
    OneRowMerge(db.jobs, id, x.jobWrites[id]);
    ClosedRowsMerge(db.attempts, id, x.op.token, if x.op.OComplete? then Success else Failure(x.op.message), x.now);
  }

  lemma OperatorCommitIsAtomic(db: Database, x: Txn)
    requires TxnOk(db, x) && ReadyToCommit(x) && (x.op.ORetry? || x.op.OCancel?)
    ensures RowsMatch(db, EventOf(x)) && Transact(db, EventOf(x)) == Some(Committed(db, x))
  {
    SingleRowWrites(db, x);
    OneRowMerge(db.jobs, x.locked[0], x.jobWrites[x.locked[0]]);
    assert db.attempts + map[] == db.attempts;
  }

  lemma HeartbeatCommitIsAtomic(db: Database, x: Txn)
    requires TxnOk(db, x) && ReadyToCommit(x) && x.op.OHeartbeat?
    ensures RowsMatch(db, EventOf(x)) && Transact(db, EventOf(x)) == Some(Committed(db, x))
  {
    forall id | id in x.locked
      ensures id in db.jobs && x.op.lease > 0 && HeldBy(db.jobs[id], x.op.worker)
      ensures x.jobWrites[id] == ExtendedJob(db.jobs[id], x.now, x.op.lease)
    {
      assert id in x.read && LockedRowOk(db, x, id);
    }
    forall k ensures k !in x.attemptWrites {
      assert AttemptWriteOk(db, x, k);
    }
    assert db.attempts + x.attemptWrites == db.attempts;
    var held := set id | id in x.locked;
    assert db.jobs + x.jobWrites
        == map id | id in db.jobs :: if x.op.lease > 0 && id in held then ExtendedJob(db.jobs[id], x.now, x.op.lease)
                                     else db.jobs[id];
  }

  lemma RecoverReads(db: Database, x: Txn, id: Uuid)
    requires TxnOk(db, x) && ReadyToCommit(x) && x.op.ORecover? && id in x.locked
    ensures id in db.jobs && Expired(db.jobs[id], x.now) && id in x.jobWrites
    ensures x.jobWrites[id] == RecoveredJob(db.jobs[id], x.now, x.op.reason)
    ensures id in x.read && x.read[id] == db.jobs[id]
  {
    assert id in x.read && LockedRowOk(db, x, id);
  }

  lemma RecoveredJobs(db: Database, x: Txn, d: Database)
    requires TxnOk(db, x) && ReadyToCommit(x) && x.op.ORecover?
    requires forall id | id in x.locked :: id in db.jobs
    requires d == Recover(db, x.now, x.op.reason, x.locked)
    ensures d.jobs == db.jobs + x.jobWrites
  {
    RecoverRows(db, x.now, x.op.reason, x.locked);
    forall id | id in x.locked
      ensures id in x.jobWrites && x.jobWrites[id] == RecoveredJob(db.jobs[id], x.now, x.op.reason)
    {
      RecoverReads(db, x, id);
    }
  }

  lemma RecoveredAttempt(db: Database, x: Txn, d: Database, k: AttemptKey)
    requires TxnOk(db, x) && ReadyToCommit(x) && x.op.ORecover?
    requires forall id | id in x.locked :: id in db.jobs
    requires d == Recover(db, x.now, x.op.reason, x.locked)
    ensures k in x.attemptWrites ==> k in db.attempts
    ensures k in db.attempts ==> k in d.attempts
    ensures k in db.attempts ==> d.attempts[k] == if k in x.attemptWrites then x.attemptWrites[k] else db.attempts[k]
  {
    if k.job in x.locked {
      RecoverReads(db, x, k.job);
    }
    assert AttemptWriteOk(db, x, k);
    if k in db.attempts {
      RecoverClosesAttempts(db, x.now, x.op.reason, x.locked, k);
    }
  }

  lemma AttemptsMerge(a: map<AttemptKey, Attempt>, w: map<AttemptKey, Attempt>, d: map<AttemptKey, Attempt>)
    requires d.Keys == a.Keys && w.Keys <= a.Keys
    requires forall k :: k in a ==> d[k] == if k in w then w[k] else a[k]
    ensures d == a + w
  {
  }

  lemma RecoveredAttempts(db: Database, x: Txn, d: Database)
    requires TxnOk(db, x) && ReadyToCommit(x) && x.op.ORecover?
    requires forall id | id in x.locked :: id in db.jobs
    requires d == Recover(db, x.now, x.op.reason, x.locked) && d.attempts.Keys == db.attempts.Keys
    ensures d.attempts == db.attempts + x.attemptWrites
  {
    forall k | k in x.attemptWrites ensures k in db.attempts {
      RecoveredAttempt(db, x, d, k);
    }
    forall k | k in db.attempts
      ensures d.attempts[k] == if k in x.attemptWrites then x.attemptWrites[k] else db.attempts[k]
    {
      RecoveredAttempt(db, x, d, k);
    }
    AttemptsMerge(db.attempts, x.attemptWrites, d.attempts);
  }

  lemma RecoverCommitIsAtomic(db: Database, x: Txn)
    requires TxnOk(db, x) && ReadyToCommit(x) && x.op.ORecover?
    ensures RowsMatch(db, EventOf(x)) && Transact(db, EventOf(x)) == Some(Committed(db, x))
  {
    forall id | id in x.locked ensures id in db.jobs && Expired(db.jobs[id], x.now) {
      RecoverReads(db, x, id);
    }
    var d := Recover(db, x.now, x.op.reason, x.locked);
    RecoverRows(db, x.now, x.op.reason, x.locked);
    RecoveredJobs(db, x, d);
    RecoveredAttempts(db, x, d);
  }

  /** A commit is one atomic step, taken at the moment of the commit. */
  lemma CommitIsAtomic(db: Database, x: Txn)
    requires TxnOk(db, x) && ReadyToCommit(x)
    ensures RowsMatch(db, EventOf(x)) && Transact(db, EventOf(x)) == Some(Committed(db, x))
  {
    if x.op.OHeartbeat? {
      HeartbeatCommitIsAtomic(db, x);
    } else if x.op.ORecover? {
      RecoverCommitIsAtomic(db, x);
    } else if x.op.OClaim? {
      ClaimCommitIsAtomic(db, x);
    } else if x.op.ORetry? || x.op.OCancel? {
      OperatorCommitIsAtomic(db, x);
    } else {
      EndLeaseCommitIsAtomic(db, x);
    }
  }

  // Single steps.

  lemma SingleStepKeepsRows(l: Low, e: Event)
    requires SingleStep(l, e)
    ensures var d := Apply(l.db, e);
            && (forall id :: id in l.db.jobs ==> id in d.jobs && d.jobs[id] == l.db.jobs[id])
            && d.attempts == l.db.attempts
            && (forall w :: w in l.db.workers
                  ==> w in d.workers && (!e.ERegister? || w != e.worker ==> d.workers[w] == l.db.workers[w]))
  {
    if e.EFire? && FireAll(l.db, e.dbNow, e.scheduler, e.fires).Some? {
      FireAddsJobs(l.db, e.dbNow, e.scheduler, e.fires);
    }
  }

  lemma SingleKeepsLowInv(l: Low, e: Event)
    requires LowInv(l) && SingleStep(l, e)
    ensures LowInv(TakeStep(l, Single(e)))
  {
    SingleStepKeepsRows(l, e);
    var m := TakeStep(l, Single(e));
    forall u | u in m.txns ensures TxnOk(m.db, m.txns[u]) {
      var x := l.txns[u];
      assert TxnOk(l.db, x);
      forall id | id in x.read ensures id in l.db.jobs {
        assert LockedRowOk(l.db, x, id);
      }
      if e.ERegister? {
        assert !LocksWorker(x, e.worker);
      }
      TxnStable(l.db, m.db, x);
    }
  }

  /** Every step keeps the lock discipline. A commit is the atomic step of its transaction and takes effect, a
      single step is itself, and every other step leaves the tables alone. */
  lemma StepRefines(l: Low, s: Step)
    requires LowInv(l) && Enabled(l, s)
    ensures LowInv(TakeStep(l, s))
    ensures match s
            case Commit(t) =>
              Next(l.db, EventOf(l.txns[t]), TakeStep(l, s).db) && Transact(l.db, EventOf(l.txns[t])).Some?
            case Single(e) => Next(l.db, e, TakeStep(l, s).db)
            case _ => TakeStep(l, s).db == l.db
  {
    match s
    case Begin(t, now, op) => BeginKeepsLowInv(l, t, now, op);
    case LockWorker(t) => LockWorkerKeepsLowInv(l, t);
    case LockRow(t, id) => LockRowKeepsLowInv(l, t, id);
    case WriteRow(t, id) => WriteRowKeepsLowInv(l, t, id);
    case Commit(t) =>
      CommitKeepsLowInv(l, t);
      assert TxnOk(l.db, l.txns[t]);
      CommitIsAtomic(l.db, l.txns[t]);
    case Abort(t) => AbortKeepsLowInv(l, t);
    case Single(e) =>
      SingleKeepsLowInv(l, e);
  }

  // Whole interleavings.

  ghost predicate Moves(l: Low, s: Step, m: Low) {
    Enabled(l, s) && m == TakeStep(l, s)
  }

  /** lows[i] is the state before steps[i], in any interleaving of any number of transactions. */
  ghost predicate Interleaving(lows: seq<Low>, steps: seq<Step>) {
    && |lows| == |steps| + 1
    && lows[0] == START
    && forall i {:trigger Moves(lows[i], steps[i], lows[i + 1])} :: 0 <= i < |steps|
         ==> Moves(lows[i], steps[i], lows[i + 1])
  }

  lemma MoveOf(lows: seq<Low>, steps: seq<Step>, i: nat)
    requires Interleaving(lows, steps) && i < |steps|
    ensures Enabled(lows[i], steps[i]) && lows[i + 1] == TakeStep(lows[i], steps[i])
  {
    assert Moves(lows[i], steps[i], lows[i + 1]);
  }

  /** The atomic steps that one step takes: a commit is that of its transaction, a single step is itself. */
  function Effect(l: Low, s: Step): seq<Event>
    requires Enabled(l, s)
  {
    match s
    case Commit(t) => [EventOf(l.txns[t])]
    case Single(e) => [e]
    case _ => []
  }

  /** The atomic steps of an interleaving: its commits and single steps, in the order in which they happen. */
  ghost function Linearized(lows: seq<Low>, steps: seq<Step>, n: nat): seq<Event>
    requires Interleaving(lows, steps) && n < |lows|
  {
    if n == 0 then []
    else
      MoveOf(lows, steps, n - 1);
      Linearized(lows, steps, n - 1) + Effect(lows[n - 1], steps[n - 1])
  }

  lemma RunExtends(states: seq<Database>, events: seq<Event>, e: Event, d: Database)
    requires Run(states, events) && Next(states[|states| - 1], e, d)
    ensures Run(states + [d], events + [e])
  {
    var s, v := states + [d], events + [e];
    forall i | 0 <= i < |v| ensures StepAt(s, v, i) {
      if i < |events| {
        assert StepAt(states, events, i);
      }
    }
  }

  lemma StepExtendsRun(l: Low, s: Step, states: seq<Database>, events: seq<Event>) returns (more: seq<Database>)
    requires LowInv(l) && Enabled(l, s)
    requires Run(states, events) && states[|states| - 1] == l.db
    ensures LowInv(TakeStep(l, s))
    ensures Run(more, events + Effect(l, s)) && more[|more| - 1] == TakeStep(l, s).db
    ensures states <= more
  {
    StepRefines(l, s);
    if s.Commit? || s.Single? {
      var e := if s.Commit? then EventOf(l.txns[s.tx]) else s.event;
      RunExtends(states, events, e, TakeStep(l, s).db);
      more := states + [TakeStep(l, s).db];
    } else {
      assert events + [] == events;
      more := states;
    }
  }

  ghost predicate Shows(lows: seq<Low>, steps: seq<Step>, states: seq<Database>, i: nat)
    requires Interleaving(lows, steps) && i < |lows|
  {
    |Linearized(lows, steps, i)| < |states| && lows[i].db == states[|Linearized(lows, steps, i)|]
  }

  lemma ShowsKept(lows: seq<Low>, steps: seq<Step>, before: seq<Database>, states: seq<Database>, i: nat)
    requires Interleaving(lows, steps) && i < |lows| && Shows(lows, steps, before, i) && before <= states
    ensures Shows(lows, steps, states, i)
  {
  }

  /** The states of an atomic run that follows an interleaving up to step n. */
  ghost predicate Follows(lows: seq<Low>, steps: seq<Step>, n: nat, states: seq<Database>)
    requires Interleaving(lows, steps) && n < |lows|
  {
    Run(states, Linearized(lows, steps, n)) && states[|states| - 1] == lows[n].db
  }

  lemma FollowsOneMore(lows: seq<Low>, steps: seq<Step>, n: nat, before: seq<Database>) returns (states: seq<Database>)
    requires Interleaving(lows, steps) && 0 < n < |lows|
    requires LowInv(lows[n - 1]) && Follows(lows, steps, n - 1, before)
    ensures LowInv(lows[n]) && Follows(lows, steps, n, states) && before <= states
  {
    MoveOf(lows, steps, n - 1);
    states := StepExtendsRun(lows[n - 1], steps[n - 1], before, Linearized(lows, steps, n - 1));
  }

  /** Refinement: the commits of an interleaving, in commit order, are a run of the atomic machine, and after each
      step the committed tables are that run's state so far. */
  lemma {:induction false} InterleavingRefines(lows: seq<Low>, steps: seq<Step>, n: nat) returns (states: seq<Database>)
    requires Interleaving(lows, steps) && n < |lows|
    ensures LowInv(lows[n]) && Follows(lows, steps, n, states)
    ensures forall i :: 0 <= i <= n ==> Shows(lows, steps, states, i)
  {
    if n == 0 {
      states := [EMPTY];
    } else {
      var before := InterleavingRefines(lows, steps, n - 1);
      states := FollowsOneMore(lows, steps, n, before);
      forall i | 0 <= i < n ensures Shows(lows, steps, states, i) {
        ShowsKept(lows, steps, before, states, i);
      }
    }
  }

  predicate Open(db: Database, k: AttemptKey) {
    k in db.attempts && db.attempts[k].status == AttemptRunning
  }

  /** Mutual exclusion: in every interleaving two open transactions never hold the same job; while a claim is in
      progress on a job nobody holds a committed lease on it; and a job never has two open attempts. */
  lemma NoTwoLiveClaims(lows: seq<Low>, steps: seq<Step>, n: nat, t: TxId, u: TxId, id: Uuid, token: Uuid,
                        k: AttemptKey, k': AttemptKey)
    requires Interleaving(lows, steps) && n < |lows|
    requires t in lows[n].txns && id in lows[n].txns[t].read
    ensures u in lows[n].txns && id in lows[n].txns[u].read ==> u == t
    ensures lows[n].txns[t].op.OClaim? ==> !HoldsLease(lows[n].db, id, token)
    ensures k.job == k'.job && Open(lows[n].db, k) && Open(lows[n].db, k')
            ==> k == k'
  {
    var states := InterleavingRefines(lows, steps, n);
    RunKeepsInv(states, Linearized(lows, steps, n), |Linearized(lows, steps, n)|);
    var l := lows[n];
    assert TxnOk(l.db, l.txns[t]) && LockedRowOk(l.db, l.txns[t], id);
    if k in l.db.attempts && k' in l.db.attempts {
      assert AttemptOk(l.db, k) && AttemptOk(l.db, k');
      assert JobOk(l.db, k.job) && JobOk(l.db, k'.job);
      assert k == AttemptKey(k.job, k.number) && k' == AttemptKey(k'.job, k'.number);
    }
  }
}
