/** When leases expire: heartbeats protect the jobs of a live worker, silence gives up those of a dead one. */
module Leases {
  import opened Prelude
  import opened Keys
  import opened Tables
  import opened Transactions
  import opened Protocol
  import opened Invariant
  import opened Steps
  import opened History

  /** Whether an event starts or renews the lease of job id. */
  predicate Renews(db: Database, e: Event, id: Uuid) {
    || (e.EClaim? && e.pick == id && RowsMatch(db, e) && Transact(db, e).Some?)
    || (e.EHeartbeat? && e.worker in db.workers && e.lease > 0 && id in e.held)
  }

  /** A claim or a heartbeat of the worker. */
  predicate ByWorker(e: Event, worker: string) {
    (e.EClaim? || e.EHeartbeat?) && e.worker == worker
  }

  /** Until when the leases that the event starts or renews last. */
  function LeaseEnd(e: Event): Time
    requires e.EClaim? || e.EHeartbeat?
  {
    e.now + Interval(e.lease)
  }

  /** When the lease of job id last started or was renewed before state m, and for how long. */
  datatype Renewal = Renewal(at: Time, lease: int)

  ghost function LastRenewal(states: seq<Database>, events: seq<Event>, m: nat, id: Uuid): Option<Renewal>
    requires Run(states, events) && m < |states|
  {
    if m == 0 then None
    else if Renews(states[m - 1], events[m - 1], id) then Some(Renewal(events[m - 1].now, events[m - 1].lease))
    else LastRenewal(states, events, m - 1, id)
  }

  /** The row of a job that is running after a step: untouched, or renewed by its worker at the event's time. */
  lemma RunningAfterStep(db: Database, e: Event, id: Uuid)
    requires RowsMatch(db, e) && Inv(db) && id in Apply(db, e).jobs && Apply(db, e).jobs[id].status == Running
    ensures id in db.jobs
    ensures var j' := Apply(db, e).jobs[id];
            if Renews(db, e, id) then j'.lockedBy == Some(e.worker) && j'.lockedUntil == Some(e.now + Interval(e.lease))
            else j' == db.jobs[id]
  {
    if id !in db.jobs {
      NewRowsAreQueued(db, e, id);
    } else {
      StepMovesRow(db, e, id);
      if e.ERecover? {
        RecoverRows(db, e.now, e.reason, e.rows);
      }
    }
  }

  /** Exactly when a running job can be recovered: once the lease asked for by its own claim or by the last heartbeat
      that renewed it has passed since then; a negative lease counts as none. */
  lemma {:induction false} ExpiryIsLastRenewalPlusTerm(states: seq<Database>, events: seq<Event>, m: nat, id: Uuid,
                                                       now: Time)
    requires Run(states, events) && m < |states|
    requires id in states[m].jobs && states[m].jobs[id].status == Running
    ensures LastRenewal(states, events, m, id).Some?
    ensures var r := LastRenewal(states, events, m, id).value;
            && states[m].jobs[id].lockedUntil == Some(r.at + Interval(r.lease))
            && (Expired(states[m].jobs[id], now) <==> now >= r.at + Interval(r.lease))
  {
    if m > 0 {
      StepOf(states, events, m - 1);
      RunKeepsInv(states, events, m - 1);
      RunningAfterStep(states[m - 1], events[m - 1], id);
      if !Renews(states[m - 1], events[m - 1], id) {
        ExpiryIsLastRenewalPlusTerm(states, events, m - 1, id, now);
      }
    }
  }

  ghost predicate AllLockedUntil(db: Database, worker: string, until: Time) {
    forall id :: id in db.jobs && HeldBy(db.jobs[id], worker) && db.jobs[id].lockedUntil.Some?
        ==> db.jobs[id].lockedUntil.value >= until
  }

  /** A heartbeat that reaches all the worker's leases. */
  ghost predicate FullHeartbeat(db: Database, e: Event, worker: string) {
    e.EHeartbeat? && e.worker == worker && worker in db.workers && e.lease > 0 && e.held == HeldJobs(db, worker)
  }

  lemma StepKeepsLocks(db: Database, e: Event, worker: string, until: Time)
    requires RowsMatch(db, e) && Inv(db)
    requires ByWorker(e, worker) ==> LeaseEnd(e) >= until
    requires AllLockedUntil(db, worker, until) || FullHeartbeat(db, e, worker)
    ensures AllLockedUntil(Apply(db, e), worker, until)
  {
    var d := Apply(db, e);
    forall id | id in d.jobs && HeldBy(d.jobs[id], worker) && d.jobs[id].lockedUntil.Some?
      ensures d.jobs[id].lockedUntil.value >= until
    {
      RunningAfterStep(db, e, id);
      if !Renews(db, e, id) {
        assert HeldBy(db.jobs[id], worker);
      }
    }
  }

  lemma {:induction false} LocksHoldSince(states: seq<Database>, events: seq<Event>, h: nat, m: nat, worker: string,
                                          until: Time)
    requires Run(states, events) && h < m < |states|
    requires FullHeartbeat(states[h], events[h], worker)
    requires forall x :: h <= x < m && ByWorker(events[x], worker) ==> LeaseEnd(events[x]) >= until
    ensures AllLockedUntil(states[m], worker, until)
  {
    StepOf(states, events, m - 1);
    RunKeepsInv(states, events, m - 1);
    if h < m - 1 {
      LocksHoldSince(states, events, h, m - 1, worker, until);
    }
    StepKeepsLocks(states[m - 1], events[m - 1], worker, until);
  }

  /** A live worker loses nothing: before the end of the leases that some full heartbeat of the worker renewed, and
      those of its later claims and heartbeats, no recovery pass takes a job that the worker holds. */
  lemma HeartbeatsProtect(states: seq<Database>, events: seq<Event>, h: nat, i: nat, worker: string, id: Uuid)
    requires Run(states, events) && h < i < |events|
    requires FullHeartbeat(states[h], events[h], worker)
    requires events[i].ERecover?
    requires forall x :: h <= x < i && ByWorker(events[x], worker) ==> events[i].now < LeaseEnd(events[x])
    requires id in states[i].jobs && states[i].jobs[id].lockedBy == Some(worker)
    ensures id !in events[i].rows
    ensures id in states[i + 1].jobs && states[i + 1].jobs[id] == states[i].jobs[id]
  {
    LocksHoldSince(states, events, h, i, worker, events[i].now + 1);
    StepOf(states, events, i);
    RunKeepsInv(states, events, i);
    assert JobOk(states[i], id);
    RecoverRows(states[i], events[i].now, events[i].reason, events[i].rows);
  }

  /** Claims do not renew the worker's other leases: a job locked until u is recoverable at u although its worker
      claimed another job less than a term before. So it is heartbeats that must be less than a term apart. */
  lemma ClaimsDoNotProtect(db: Database, a: Uuid, b: Uuid, queue: string, worker: string, term: int, token: Uuid,
                           claimed: Time, u: Time)
    requires Inv(db) && a in db.jobs && b in db.jobs && a != b && term > 0
    requires HeldBy(db.jobs[a], worker) && db.jobs[a].lockedUntil == Some(u) && claimed < u < claimed + term
    requires Claimable(db.jobs[b], queue, claimed)
    requires AttemptAccepted(db.attempts, b, db.jobs[b].attemptCount + 1, token)
    ensures var e := EClaim(claimed, queue, worker, term, token, b);
            && RowsMatch(db, e) && Transact(db, e).Some?
            && Expired(Apply(db, e).jobs[a], u) && RowsMatch(Apply(db, e), ERecover(u, "", [a]))
            && Apply(Apply(db, e), ERecover(u, "", [a])).jobs[a].status != Running
  {
    var d := Apply(db, EClaim(claimed, queue, worker, term, token, b));
    RecoverRows(d, u, "", [a]);
  }

  // A silent worker.

  ghost predicate LockedBefore(db: Database, worker: string, until: Time) {
    forall id :: id in db.jobs && HeldBy(db.jobs[id], worker) ==> Expired(db.jobs[id], until)
  }

  lemma {:induction false} SilenceExpires(states: seq<Database>, events: seq<Event>, m: nat, worker: string, t: Time)
    requires Run(states, events) && m < |states|
    requires forall x :: 0 <= x < m && ByWorker(events[x], worker) ==> LeaseEnd(events[x]) <= t
    ensures LockedBefore(states[m], worker, t)
  {
    if m > 0 {
      SilenceExpires(states, events, m - 1, worker, t);
      StepOf(states, events, m - 1);
      RunKeepsInv(states, events, m - 1);
      forall id | id in states[m].jobs && HeldBy(states[m].jobs[id], worker) ensures Expired(states[m].jobs[id], t) {
        RunningAfterStep(states[m - 1], events[m - 1], id);
      }
    }
  }

  /** A batch size out of range becomes 50. */
  function BatchSize(batch: int): (n: nat)
    ensures 1 <= n <= 100
  {
    if batch <= 0 || batch > 100 then 50 else batch
  }

  /** The rows of an undisturbed recovery pass: as many expired jobs as the batch takes, the longest expired first. */
  ghost predicate OrderedPass(db: Database, now: Time, batch: int, rows: seq<Uuid>) {
    && Distinct(rows) && (forall id | id in rows :: id in ExpiredJobs(db, now))
    && |rows| == Min(BatchSize(batch), |ExpiredJobs(db, now)|)
    && (forall id, other :: id in rows && other in ExpiredJobs(db, now) && other !in rows
                            ==> db.jobs[id].lockedUntil.value <= db.jobs[other].lockedUntil.value)
  }

  lemma {:induction false} DistinctSize(s: seq<Uuid>)
    requires Distinct(s)
    ensures |set x | x in s| == |s|
  {
    if s != [] {
      var rest := s[1..];
      DistinctSize(rest);
      assert (set x | x in s) == {s[0]} + (set x | x in rest);
      assert s[0] !in rest;
    }
  }

  /** A pass that leaves one of the jobs that were expired by t takes nothing else. */
  lemma LateLeasesWait(db: Database, now: Time, batch: int, rows: seq<Uuid>, t: Time, left: Uuid)
    requires OrderedPass(db, now, batch, rows) && t <= now && left in ExpiredJobs(db, t) && left !in rows
    ensures (set id | id in rows) <= ExpiredJobs(db, t) && |rows| == BatchSize(batch)
  {
    assert left in ExpiredJobs(db, now);
    var taken := set id | id in rows;
    DistinctSize(rows);
    assert taken <= ExpiredJobs(db, now) - {left};
    assert ExpiredJobs(db, now) == (ExpiredJobs(db, now) - {left} - taken) + taken + {left};
  }

  lemma PassRemoves(db: Database, now: Time, reason: string, batch: int, rows: seq<Uuid>, d: Database, t: Time)
    requires OrderedPass(db, now, batch, rows) && d == Recover(db, now, reason, rows)
    ensures ExpiredJobs(d, t) == ExpiredJobs(db, t) - set id | id in rows
  {
    RecoverRows(db, now, reason, rows);
  }

  lemma SizeWithout(all: set<Uuid>, taken: set<Uuid>, k: nat)
    requires (taken <= all && |taken| == k) || (all <= taken && |all| <= k)
    ensures |all - taken| == Max(0, |all| - k)
  {
    if taken <= all {
      assert all == (all - taken) + taken;
    }
    if all <= taken {
      assert all - taken == {};
    }
  }

  lemma PassTakes(db: Database, now: Time, batch: int, rows: seq<Uuid>, t: Time)
    requires OrderedPass(db, now, batch, rows) && t <= now
    ensures |ExpiredJobs(db, t) - (set id | id in rows)| == Max(0, |ExpiredJobs(db, t)| - BatchSize(batch))
  {
    DistinctSize(rows);
    var before, taken := ExpiredJobs(db, t), set id | id in rows;
    if left :| left in before && left !in rows {
      LateLeasesWait(db, now, batch, rows, t, left);
    } else {
      assert taken == (taken - before) + before;
    }
    SizeWithout(before, taken, BatchSize(batch));
  }

  /** Every row of a pass stops running, and no other row changes; and leases that end after t take no place of those
      that ended by t. So each pass lowers the number of jobs expired by t by as much as the batch allows. */
  lemma PassShrinks(db: Database, now: Time, reason: string, batch: int, rows: seq<Uuid>, d: Database, t: Time)
    requires OrderedPass(db, now, batch, rows) && d == Recover(db, now, reason, rows) && t <= now
    ensures ExpiredJobs(d, t) == ExpiredJobs(db, t) - set id | id in rows
    ensures |ExpiredJobs(d, t)| == Max(0, |ExpiredJobs(db, t)| - BatchSize(batch))
  {
    PassRemoves(db, now, reason, batch, rows, d, t);
    PassTakes(db, now, batch, rows, t);
  }

  /** Whether an event is an undisturbed recovery pass at t or later. */
  ghost predicate IsPass(db: Database, e: Event, t: Time, batch: int) {
    e.ERecover? && t <= e.now && OrderedPass(db, e.now, batch, e.rows)
  }

  /** How many such passes there are among events m to n. */
  ghost function Passes(states: seq<Database>, events: seq<Event>, m: nat, n: nat, t: Time, batch: int): nat
    requires Run(states, events) && m <= n < |states|
  {
    if m == n then 0
    else Passes(states, events, m, n - 1, t, batch) + (if IsPass(states[n - 1], events[n - 1], t, batch) then 1 else 0)
  }

  /** A claim or heartbeat whose leases end after t. */
  predicate LeasesBeyond(e: Event, t: Time) {
    e.EClaim? || e.EHeartbeat? ==> LeaseEnd(e) > t
  }

  lemma WasExpired(db: Database, e: Event, t: Time, id: Uuid)
    requires RowsMatch(db, e) && Inv(db) && LeasesBeyond(e, t)
    requires id in Apply(db, e).jobs && Expired(Apply(db, e).jobs[id], t)
    ensures id in db.jobs && Expired(db.jobs[id], t)
  {
    RunningAfterStep(db, e, id);
  }

  lemma SubsetSize(a: set<Uuid>, b: set<Uuid>)
    requires a <= b
    ensures |a| <= |b|
  {
    assert b == a + (b - a);
  }

  lemma StepKeepsExpired(db: Database, e: Event, t: Time, d: Database)
    requires RowsMatch(db, e) && Inv(db) && LeasesBeyond(e, t) && d == Apply(db, e)
    ensures |ExpiredJobs(d, t)| <= |ExpiredJobs(db, t)|
  {
    forall id | id in ExpiredJobs(d, t) ensures id in ExpiredJobs(db, t) {
      WasExpired(db, e, t, id);
    }
    SubsetSize(ExpiredJobs(d, t), ExpiredJobs(db, t));
  }

  lemma StepLowers(db: Database, e: Event, t: Time, batch: int)
    requires RowsMatch(db, e) && Inv(db) && LeasesBeyond(e, t)
    ensures |ExpiredJobs(Apply(db, e), t)|
            <= Max(0, |ExpiredJobs(db, t)| - (if IsPass(db, e, t, batch) then BatchSize(batch) else 0))
  {
    if IsPass(db, e, t, batch) {
      PassShrinks(db, e.now, e.reason, batch, e.rows, Apply(db, e), t);
    } else {
      StepKeepsExpired(db, e, t, Apply(db, e));
    }
  }

  lemma OneMore(k: nat, b: nat, one: bool)
    ensures (k + if one then 1 else 0) * b == k * b + if one then b else 0
  {
  }

  lemma {:induction false} PassesExhaust(states: seq<Database>, events: seq<Event>, m: nat, n: nat, t: Time, batch: int)
    requires Run(states, events) && m <= n < |states|
    requires forall x :: m <= x < n ==> LeasesBeyond(events[x], t)
    ensures |ExpiredJobs(states[n], t)|
            <= Max(0, |ExpiredJobs(states[m], t)| - Passes(states, events, m, n, t, batch) * BatchSize(batch))
  {
    if m < n {
      PassesExhaust(states, events, m, n - 1, t, batch);
      StepOf(states, events, n - 1);
      RunKeepsInv(states, events, n - 1);
      StepLowers(states[n - 1], events[n - 1], t, batch);
      OneMore(Passes(states, events, m, n - 1, t, batch), BatchSize(batch),
              IsPass(states[n - 1], events[n - 1], t, batch));
    }
  }

  /** A silent worker gives everything up: let the leases that it ever asked for end by t, and those that others take
      or renew from state m on end after t. Then, whatever else happens, as many undisturbed passes as it takes for the
      jobs that state m leaves running with a lease that ends by t leave no running job locked by the worker. */
  lemma SilentWorkerIsRecovered(states: seq<Database>, events: seq<Event>, m: nat, n: nat, worker: string, t: Time,
                                batch: int)
    requires Run(states, events) && m <= n < |states|
    requires forall x :: 0 <= x < n && ByWorker(events[x], worker) ==> LeaseEnd(events[x]) <= t
    requires forall x :: m <= x < n ==> LeasesBeyond(events[x], t)
    requires Passes(states, events, m, n, t, batch) * BatchSize(batch) >= |ExpiredJobs(states[m], t)|
    ensures ExpiredJobs(states[n], t) == {}
    ensures forall id :: id in states[n].jobs ==> !HeldBy(states[n].jobs[id], worker)
  {
    SilenceExpires(states, events, n, worker, t);
    PassesExhaust(states, events, m, n, t, batch);
    forall id | id in states[n].jobs ensures !HeldBy(states[n].jobs[id], worker) {
      assert Expired(states[n].jobs[id], t) <==> id in ExpiredJobs(states[n], t);
    }
  }
}
