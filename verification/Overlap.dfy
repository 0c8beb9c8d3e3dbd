/** Attempt intervals under interleaving: transactions are dated when they begin, but take effect when they commit. */
module Overlap {
  import opened Prelude
  import opened Keys
  import opened Tables
  import opened Transactions
  import opened Protocol
  import opened History
  import opened Locks
  import Backoff

  /** Where an element of a sequence that grows by at most one element at a time was added. */
  lemma {:induction false} WhereAdded(prefixes: seq<seq<Event>>, parts: seq<seq<Event>>, n: nat, x: nat)
    returns (i: nat)
    requires |prefixes| == |parts| + 1 && n <= |parts| && prefixes[0] == [] && x < |prefixes[n]|
    requires forall k :: 0 <= k < n ==> prefixes[k + 1] == prefixes[k] + parts[k] && |parts[k]| <= 1
    ensures i < n && |prefixes[i]| == x && parts[i] == [prefixes[n][x]]
  {
    assert prefixes[n] == prefixes[n - 1] + parts[n - 1];
    if x < |prefixes[n - 1]| {
      i := WhereAdded(prefixes, parts, n - 1, x);
    } else {
      i := n - 1;
    }
  }

  ghost function EffectAt(lows: seq<Low>, steps: seq<Step>, k: nat): (r: seq<Event>)
    requires Interleaving(lows, steps) && k < |steps|
    ensures |r| <= 1
    ensures Linearized(lows, steps, k + 1) == Linearized(lows, steps, k) + r
  {
    MoveOf(lows, steps, k);
    Effect(lows[k], steps[k])
  }

  /** The step of an interleaving that took effect as the x-th atomic step. */
  lemma StepOfEvent(lows: seq<Low>, steps: seq<Step>, n: nat, x: nat) returns (i: nat)
    requires Interleaving(lows, steps) && n < |lows| && x < |Linearized(lows, steps, n)|
    ensures i < n && |Linearized(lows, steps, i)| == x && EffectAt(lows, steps, i) == [Linearized(lows, steps, n)[x]]
  {
    var prefixes := seq(|lows|, k requires 0 <= k < |lows| => Linearized(lows, steps, k));
    var parts := seq(|steps|, k requires 0 <= k < |steps| => EffectAt(lows, steps, k));
    i := WhereAdded(prefixes, parts, n, x);
  }

  /** Whether a step commits a manual retry that is dated before the end of the job's n-th attempt, its last so far. */
  predicate CommitsEarlyRetry(l: Low, s: Step, id: Uuid, n: int) {
    Enabled(l, s) && s.Commit? && EarlyRetry(l.db, EventOf(l.txns[s.tx]), id, n)
  }

  /** In every interleaving, attempt n + 1 starts no earlier than attempt n finished, if no early retry commits. */
  lemma InterleavedAttemptsNeverOverlap(lows: seq<Low>, steps: seq<Step>, m: nat, id: Uuid, n: int)
    requires Interleaving(lows, steps) && m < |lows|
    requires forall i :: 0 <= i < m ==> !CommitsEarlyRetry(lows[i], steps[i], id, n)
    requires AttemptKey(id, n) in lows[m].db.attempts && AttemptKey(id, n + 1) in lows[m].db.attempts
    ensures Before(lows[m].db.attempts[AttemptKey(id, n)], lows[m].db.attempts[AttemptKey(id, n + 1)])
  {
    var states := InterleavingRefines(lows, steps, m);
    var events := Linearized(lows, steps, m);
    forall x | 0 <= x < |events| ensures !EarlyRetry(states[x], events[x], id, n) {
      var i := StepOfEvent(lows, steps, m, x);
      assert Shows(lows, steps, states, i);
      MoveOf(lows, steps, i);
      assert !CommitsEarlyRetry(lows[i], steps[i], id, n);
    }
    AttemptsNeverOverlap(states, events, |events|, id, n);
  }

  // A database clock that never runs backwards does not rule out early retries.

  /** The clock reading of a step that begins a transaction. */
  function BeginTime(s: Step): Option<Time> {
    match s
    case Begin(_, now, _) => Some(now)
    case Single(e) => Some(Clock(e))
    case _ => None
  }

  /** Transactions begin in the order of their clocks. */
  ghost predicate BeginTimesForward(steps: seq<Step>) {
    forall i, j :: 0 <= i < j < |steps| && BeginTime(steps[i]).Some? && BeginTime(steps[j]).Some?
                   ==> BeginTime(steps[i]).value <= BeginTime(steps[j]).value
  }

  /** An interleaving in progress, and the time of the last beginning. */
  ghost predicate Progress(lows: seq<Low>, steps: seq<Step>, now: Time) {
    && Interleaving(lows, steps) && BeginTimesForward(steps)
    && forall i :: 0 <= i < |steps| && BeginTime(steps[i]).Some? ==> BeginTime(steps[i]).value <= now
  }

  lemma TakeOne(lows: seq<Low>, steps: seq<Step>, now: Time, s: Step, later: Time)
    returns (lows': seq<Low>, steps': seq<Step>)
    requires Progress(lows, steps, now) && now <= later && Enabled(lows[|lows| - 1], s)
    requires BeginTime(s).None? || BeginTime(s) == Some(later)
    ensures Progress(lows', steps', later) && lows'[|lows'| - 1] == TakeStep(lows[|lows| - 1], s)
  {
    lows', steps' := lows + [TakeStep(lows[|lows| - 1], s)], steps + [s];
    forall i | 0 <= i < |steps'| ensures Moves(lows'[i], steps'[i], lows'[i + 1]) {
      if i < |steps| {
        assert Moves(lows[i], steps[i], lows[i + 1]);
      }
    }
  }

  function Begun(now: Time, op: Op): Txn {
    Txn(now, op, [], map[], map[], map[], None)
  }

  /** Whether a transaction that has only begun can lock and write row id, and would then commit as step e. */
  ghost predicate MayRun(l: Low, t: TxId, id: Uuid, e: Event) {
    && t in l.txns && l.txns[t] == Begun(l.txns[t].now, l.txns[t].op)
    && !l.txns[t].op.ORecover? && !l.txns[t].op.OHeartbeat?
    && id in l.db.jobs && Free(l, id) && Wants(l.txns[t].op, l.txns[t].now, id, l.db.jobs[id])
    && WriteAccepted(l.txns[t].op, id, l.db.jobs[id], l.db.attempts)
    && EventOf(l.txns[t].(locked := [id])) == e && RowsMatch(l.db, e)
  }

  lemma LocksAndWrites(lows: seq<Low>, steps: seq<Step>, now: Time, t: TxId, id: Uuid, e: Event)
    returns (lows': seq<Low>, steps': seq<Step>)
    requires Progress(lows, steps, now) && MayRun(lows[|lows| - 1], t, id, e)
    ensures Progress(lows', steps', now)
    ensures var l, last := lows[|lows| - 1], lows'[|lows'| - 1];
            && last.db == l.db && last.txns - {t} == l.txns - {t}
            && Enabled(last, Commit(t)) && EventOf(last.txns[t]) == e
  {
    lows', steps' := TakeOne(lows, steps, now, LockRow(t, id), now);
    lows', steps' := TakeOne(lows', steps', now, WriteRow(t, id), now);
    assert lows'[|lows'| - 1].txns - {t} == lows[|lows| - 1].txns - {t};
  }

  /** A transaction on one job that locks, writes and commits without others in between. */
  lemma RunsThrough(lows: seq<Low>, steps: seq<Step>, now: Time, t: TxId, id: Uuid, e: Event)
    returns (lows': seq<Low>, steps': seq<Step>)
    requires Progress(lows, steps, now) && MayRun(lows[|lows| - 1], t, id, e)
    ensures Progress(lows', steps', now)
    ensures lows'[|lows'| - 1] == Low(Apply(lows[|lows| - 1].db, e), lows[|lows| - 1].txns - {t})
  {
    lows', steps' := LocksAndWrites(lows, steps, now, t, id, e);
    var last := lows'[|lows'| - 1];
    var _ := InterleavingRefines(lows', steps', |lows'| - 1);
    StepRefines(last, Commit(t));
    lows', steps' := TakeOne(lows', steps', now, Commit(t), now);
  }

  // The rows of the witness: a job with one attempt, its failure at 5, a manual retry dated 3, a second claim dated 4.

  const SUBMITTED: CreateParams := CreateParams("", 0, 1, 0, 0, true, None)

  const RETRIES: Backoff.RetryPolicy := Backoff.RetryPolicy(0, 0)

  function OneJob(id: Uuid, j: Job, attempts: map<AttemptKey, Attempt>): Database {
    Database(map[id := j], attempts, map[], map[], map[])
  }

  function Queued0(): Job {
    SubmittedJob(SUBMITTED, 0)
  }

  function Running1(a: Uuid): Job {
    ClaimedJob(Queued0(), 1, "first", 10, a)
  }

  function Dead5(a: Uuid): Job {
    DeadJob(Running1(a), 5, "failed")
  }

  function Queued3(a: Uuid): Job {
    RequeuedJob(Dead5(a), 3)
  }

  function Running4(a: Uuid, b: Uuid): Job {
    ClaimedJob(Queued3(a), 4, "second", 10, b)
  }

  function First(a: Uuid): Attempt {
    NewAttempt("first", a, 1)
  }

  function FirstFailed(a: Uuid): Attempt {
    Closed(First(a), Failure("failed"), 5)
  }

  lemma Submitted(id: Uuid)
    ensures Apply(EMPTY, EInsert(0, id, SUBMITTED)) == OneJob(id, Queued0(), map[])
  {
  }

  lemma FirstClaim(id: Uuid, a: Uuid)
    ensures var d, e := OneJob(id, Queued0(), map[]), EClaim(1, "default", "first", 10, a, id);
            RowsMatch(d, e) && Apply(d, e) == OneJob(id, Running1(a), map[AttemptKey(id, 1) := First(a)])
  {
  }

  lemma FirstOpen(id: Uuid, a: Uuid)
    ensures OpenAttempts(map[AttemptKey(id, 1) := First(a)], id, a) == {AttemptKey(id, 1)}
    ensures CloseAttempts(map[AttemptKey(id, 1) := First(a)], id, a, Failure("failed"), 5)
            == map[AttemptKey(id, 1) := FirstFailed(a)]
  {
  }

  lemma Failing(id: Uuid, a: Uuid)
    ensures Apply(OneJob(id, Running1(a), map[AttemptKey(id, 1) := First(a)]), EFail(5, id, a, "failed", RETRIES))
         == OneJob(id, Dead5(a), map[AttemptKey(id, 1) := FirstFailed(a)])
  {
    FirstOpen(id, a);
  }

  lemma Retrying(id: Uuid, a: Uuid)
    ensures Apply(OneJob(id, Dead5(a), map[AttemptKey(id, 1) := FirstFailed(a)]), ERetry(3, id))
         == OneJob(id, Queued3(a), map[AttemptKey(id, 1) := FirstFailed(a)])
  {
  }

  lemma SecondClaim(id: Uuid, a: Uuid, b: Uuid)
    requires a != b
    ensures var d, e := OneJob(id, Queued3(a), map[AttemptKey(id, 1) := FirstFailed(a)]),
            EClaim(4, "default", "second", 10, b, id);
            RowsMatch(d, e)
            && Apply(d, e) == OneJob(id, Running4(a, b),
                                     map[AttemptKey(id, 1) := FirstFailed(a),
                                         AttemptKey(id, 2) := NewAttempt("second", b, 4)])
  {
  }

  /** An interleaving that has got to some tables and open transactions. */
  ghost predicate Reaches(lows: seq<Low>, steps: seq<Step>, now: Time, db: Database, txns: map<TxId, Txn>) {
    Progress(lows, steps, now) && lows[|lows| - 1] == Low(db, txns)
  }

  lemma UntilFirstClaim(id: Uuid, a: Uuid) returns (lows: seq<Low>, steps: seq<Step>)
    ensures Reaches(lows, steps, 1, OneJob(id, Running1(a), map[AttemptKey(id, 1) := First(a)]), map[])
  {
    lows, steps := [START], [];
    Submitted(id);
    lows, steps := TakeOne(lows, steps, 0, Single(EInsert(0, id, SUBMITTED)), 0);
    lows, steps := TakeOne(lows, steps, 0, Begin(1, 1, OClaim("default", "first", 10, a)), 1);
    FirstClaim(id, a);
    lows, steps := RunsThrough(lows, steps, 1, 1, id, EClaim(1, "default", "first", 10, a, id));
    assert lows[|lows| - 1].txns == map[];
  }

  lemma UntilAllBegun(id: Uuid, a: Uuid, b: Uuid) returns (lows: seq<Low>, steps: seq<Step>)
    ensures Reaches(lows, steps, 5, OneJob(id, Running1(a), map[AttemptKey(id, 1) := First(a)]),
                    map[2 := Begun(3, ORetry(id)), 3 := Begun(4, OClaim("default", "second", 10, b)),
                        4 := Begun(5, OFail(id, a, "failed", RETRIES))])
  {
    lows, steps := UntilFirstClaim(id, a);
    lows, steps := TakeOne(lows, steps, 1, Begin(2, 3, ORetry(id)), 3);
    lows, steps := TakeOne(lows, steps, 3, Begin(3, 4, OClaim("default", "second", 10, b)), 4);
    lows, steps := TakeOne(lows, steps, 4, Begin(4, 5, OFail(id, a, "failed", RETRIES)), 5);
  }

  lemma UntilFailed(id: Uuid, a: Uuid, b: Uuid) returns (lows: seq<Low>, steps: seq<Step>)
    ensures Reaches(lows, steps, 5, OneJob(id, Dead5(a), map[AttemptKey(id, 1) := FirstFailed(a)]),
                    map[2 := Begun(3, ORetry(id)), 3 := Begun(4, OClaim("default", "second", 10, b))])
  {
    lows, steps := UntilAllBegun(id, a, b);
    Failing(id, a);
    FirstOpen(id, a);
    lows, steps := RunsThrough(lows, steps, 5, 4, id, EFail(5, id, a, "failed", RETRIES));
  }

  lemma UntilRetried(id: Uuid, a: Uuid, b: Uuid) returns (lows: seq<Low>, steps: seq<Step>)
    ensures Reaches(lows, steps, 5, OneJob(id, Queued3(a), map[AttemptKey(id, 1) := FirstFailed(a)]),
                    map[3 := Begun(4, OClaim("default", "second", 10, b))])
  {
    lows, steps := UntilFailed(id, a, b);
    Retrying(id, a);
    lows, steps := RunsThrough(lows, steps, 5, 2, id, ERetry(3, id));
  }

  /** The counterexample: every transaction begins no earlier than those begun before it, and yet two attempts of a
      job overlap. A manual retry begins, waits for the row of a failing job, and commits its earlier date. */
  lemma OverlapWitness(id: Uuid, a: Uuid, b: Uuid) returns (lows: seq<Low>, steps: seq<Step>)
    requires a != b
    ensures Interleaving(lows, steps) && BeginTimesForward(steps)
    ensures var attempts := lows[|lows| - 1].db.attempts;
            && AttemptKey(id, 1) in attempts && attempts[AttemptKey(id, 1)].finishedAt == Some(5)
            && AttemptKey(id, 2) in attempts && attempts[AttemptKey(id, 2)].startedAt == 4
            && !Before(attempts[AttemptKey(id, 1)], attempts[AttemptKey(id, 2)])
  {
    lows, steps := UntilRetried(id, a, b);
    SecondClaim(id, a, b);
    lows, steps := RunsThrough(lows, steps, 5, 3, id, EClaim(4, "default", "second", 10, b, id));
  }
}
