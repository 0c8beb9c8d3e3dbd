/** The worker: its wake channel, its slots, and the drain loop. */
module Worker {
  import opened Prelude
  import opened Keys
  import opened Tables
  import opened Transactions
  import opened Invariant
  import opened Queries
  import opened StoreModel
  import Backoff
  import Budget

  // The wake channel.

  class WakeChannel {
    const capacity: nat
    var buffered: nat

    ghost predicate Valid()
      reads this
    {
      buffered <= capacity
    }

    constructor (concurrency: nat)
      ensures Valid() && capacity == concurrency && buffered == 0
    {
      capacity, buffered := concurrency, 0;
    }

    /** Offers one token per slot and stops at the first that does not fit. Slots may take tokens in between: up to
        takes(i) of them before the i-th offer. What is buffered and what was taken make up a full buffer. */
    method SignalWake(takes: nat -> nat) returns (taken: nat)
      requires Valid()
      modifies this`buffered
      ensures Valid() && buffered + taken >= capacity
      ensures old(buffered) <= buffered + taken <= old(buffered) + capacity
    {
      taken := 0;
      for i := 0 to capacity
        invariant Valid() && old(buffered) + i == buffered + taken
      {
        var t := Min(takes(i), buffered);
        buffered, taken := buffered - t, taken + t;
        if buffered == capacity {
          return;
        }
        buffered := buffered + 1;
      }
    }
  }

  // The slots as a state machine over the channel.

  /** A slot waits in select, is about to claim within a drain, or executes a claimed job. */
  datatype Phase = Idle | Claiming | Executing

  datatype Pool = Pool(capacity: nat, buffered: nat, slots: seq<Phase>)

  datatype Action =
    | Send(signal: nat)
    | Full(signal: nat)
    | Receive(slot: nat)
    | Poll(slot: nat)
    | ClaimNothing(slot: nat)
    | ClaimOne(slot: nat)
    | Finish(slot: nat)

  predicate OfSlot(a: Action) {
    !a.Send? && !a.Full?
  }

  /** An offer of a running signal is accepted exactly when the buffer has room. */
  predicate Can(p: Pool, a: Action) {
    match a
    case Send(_) => p.buffered < p.capacity
    case Full(_) => p.buffered >= p.capacity
    case Receive(i) => i < |p.slots| && p.slots[i] == Idle && p.buffered > 0
    case Poll(i) => i < |p.slots| && p.slots[i] == Idle
    case ClaimNothing(i) => i < |p.slots| && p.slots[i] == Claiming
    case ClaimOne(i) => i < |p.slots| && p.slots[i] == Claiming
    case Finish(i) => i < |p.slots| && p.slots[i] == Executing
  }

  /** A received token and the poll timer both start a drain, which begins with a claim; a finished job leads to
      the next claim, and a claim that finds nothing ends the drain. */
  function Do(p: Pool, a: Action): Pool
    requires Can(p, a)
  {
    match a
    case Send(_) => p.(buffered := p.buffered + 1)
    case Full(_) => p
    case Receive(i) => p.(buffered := p.buffered - 1, slots := p.slots[i := Claiming])
    case Poll(i) => p.(slots := p.slots[i := Claiming])
    case ClaimNothing(i) => p.(slots := p.slots[i := Idle])
    case ClaimOne(i) => p.(slots := p.slots[i := Executing])
    case Finish(i) => p.(slots := p.slots[i := Claiming])
  }

  predicate CanAll(p: Pool, actions: seq<Action>)
    decreases |actions|
  {
    actions == [] || (Can(p, actions[0]) && CanAll(Do(p, actions[0]), actions[1..]))
  }

  function DoAll(p: Pool, actions: seq<Action>): Pool
    requires CanAll(p, actions)
    decreases |actions|
  {
    if actions == [] then p else DoAll(Do(p, actions[0]), actions[1..])
  }

  function Receives(actions: seq<Action>): nat {
    if actions == [] then 0 else (if actions[0].Receive? then 1 else 0) + Receives(actions[1..])
  }

  function Sends(actions: seq<Action>, signal: nat): nat {
    if actions == [] then 0 else (if actions[0] == Send(signal) then 1 else 0) + Sends(actions[1..], signal)
  }

  /** A signal is over when it has sent a token for every slot, or has found the buffer full. */
  predicate SignalOver(actions: seq<Action>, signal: nat, capacity: nat) {
    Sends(actions, signal) >= capacity || Full(signal) in actions
  }

  function ClaimsIn(actions: seq<Action>): nat {
    if actions == [] then 0
    else (if actions[0].ClaimNothing? || actions[0].ClaimOne? then 1 else 0) + ClaimsIn(actions[1..])
  }

  function AboutToClaim(slots: seq<Phase>): nat {
    if slots == [] then 0 else (if slots[0] == Claiming then 1 else 0) + AboutToClaim(slots[1..])
  }

  lemma {:induction false} AboutToClaimUpdate(slots: seq<Phase>, i: nat, phase: Phase)
    requires i < |slots|
    ensures AboutToClaim(slots[i := phase])
         == AboutToClaim(slots) - (if slots[i] == Claiming then 1 else 0) + (if phase == Claiming then 1 else 0)
  {
    if i > 0 {
      AboutToClaimUpdate(slots[1..], i - 1, phase);
      assert slots[i := phase][1..] == slots[1..][i - 1 := phase];
    } else {
      assert slots[0 := phase][1..] == slots[1..];
    }
  }

  /** Tokens leave the buffer only by starting drains, and a drain that has started claims before its slot rests. */
  lemma {:induction false} TokensBecomeClaims(p: Pool, actions: seq<Action>, signal: nat)
    requires CanAll(p, actions)
    ensures DoAll(p, actions).buffered + Receives(actions) >= p.buffered + Sends(actions, signal)
    ensures Full(signal) in actions ==> DoAll(p, actions).buffered + Receives(actions) >= p.capacity
    ensures ClaimsIn(actions) + AboutToClaim(DoAll(p, actions).slots) >= AboutToClaim(p.slots) + Receives(actions)
    decreases |actions|
  {
    if actions != [] {
      var a := actions[0];
      if OfSlot(a) {
        AboutToClaimUpdate(p.slots, a.slot, Do(p, a).slots[a.slot]);
      }
      TokensBecomeClaims(Do(p, a), actions[1..], signal);
    }
  }

  /** No wake-up is lost: among any actions of the slots and of other signals, once a signal is over, the drains
      started since it began and the tokens still buffered are at least as many as the buffer holds; so when the
      buffer is empty and no slot is about to claim, as many claims have been made since. */
  lemma NoLostWakeup(p: Pool, actions: seq<Action>, signal: nat)
    requires CanAll(p, actions) && SignalOver(actions, signal, p.capacity)
    ensures DoAll(p, actions).buffered + Receives(actions) >= p.capacity
    ensures DoAll(p, actions).buffered + AboutToClaim(DoAll(p, actions).slots) + ClaimsIn(actions) >= p.capacity
  {
    TokensBecomeClaims(p, actions, signal);
  }

  // The drain loop.

  /** A waiting job after one attempt reported at an instant; no message stands for a handler that succeeds. */
  function Executed(j: Job, now: Time, failure: Option<string>, policy: Backoff.RetryPolicy): Job {
    var claimed := j.(attemptCount := j.attemptCount + 1);
    match failure
    case None => CompletedJob(claimed, now)
    case Some(message) => FailedJob(claimed, now, message, policy)
  }

  /** An executed job is not due until after its report: every backoff is positive. */
  lemma ExecutedIsNotDue(j: Job, now: Time, report: Time, failure: Option<string>, policy: Backoff.RetryPolicy,
                         queue: string)
    requires now <= report
    ensures !Claimable(Executed(j, report, failure, policy), queue, now)
  {
  }

  /** The n-th execution of a drain, as a change of the job row. */
  function Execution(reports: nat -> Time, outcomes: nat -> Option<string>,
                     policy: Backoff.RetryPolicy): (Job, nat) -> Job {
    (j: Job, n: nat) => Executed(j, reports(n), outcomes(n), policy)
  }

  /** The jobs claimed so far have been executed once each, and no other job has changed. */
  ghost predicate ExecutedAll(start: map<Uuid, Job>, jobs: map<Uuid, Job>, claimed: seq<Uuid>, run: (Job, nat) -> Job) {
    && jobs.Keys == start.Keys
    && (forall i :: 0 <= i < |claimed| ==> claimed[i] in start && jobs[claimed[i]] == run(start[claimed[i]], i))
    && (forall id :: id in start && id !in claimed ==> jobs[id] == start[id])
  }

  /** The state of a drain with no other actor: the jobs were also chosen in claim order. */
  ghost predicate Drained(start: Database, db: Database, queue: string, now: Time, claimed: seq<Uuid>,
                          run: (Job, nat) -> Job) {
    && Chosen(DueJobs(start, queue, now), DueJobs(db, queue, now), claimed)
    && ExecutedAll(start.jobs, db.jobs, claimed, run)
  }

  lemma ClaimGivesLease(db: Database, now: Time, queue: string, worker: string, lease: int, token: Uuid, id: Uuid,
                        mid: Database)
    requires Inv(db) && id in db.jobs && Claimable(db.jobs[id], queue, now)
    requires Claim(db, now, worker, lease, token, id) == Some(mid)
    ensures Inv(mid) && HoldsLease(mid, id, token)
    ensures mid.jobs == db.jobs[id := ClaimedJob(db.jobs[id], now, worker, lease, token)]
  {
    ClaimKeepsInv(db, now, worker, lease, token, id);
  }

  lemma OneLessDue(db: Database, d: Database, queue: string, now: Time, id: Uuid)
    requires id in db.jobs && id in d.jobs && d.jobs == db.jobs[id := d.jobs[id]]
    requires !Claimable(d.jobs[id], queue, now)
    ensures DueJobs(d, queue, now) == DueJobs(db, queue, now) - {id}
  {
  }

  lemma ChosenContinues(start: Database, db: Database, d: Database, queue: string, now: Time, claimed: seq<Uuid>,
                        id: Uuid)
    requires Chosen(DueJobs(start, queue, now), DueJobs(db, queue, now), claimed)
    requires IsFirst(DueJobs(db, queue, now), id)
    requires id in db.jobs && id in d.jobs && d.jobs == db.jobs[id := d.jobs[id]] && !Claimable(d.jobs[id], queue, now)
    ensures Chosen(DueJobs(start, queue, now), DueJobs(d, queue, now), claimed + [id])
    ensures |DueJobs(d, queue, now)| < |DueJobs(db, queue, now)| && id !in claimed
  {
    OneLessDue(db, d, queue, now, id);
    ChooseNext(DueJobs(start, queue, now), DueJobs(db, queue, now), claimed, id);
  }

  lemma ExecutedOneMore(start: map<Uuid, Job>, jobs: map<Uuid, Job>, claimed: seq<Uuid>, run: (Job, nat) -> Job,
                        id: Uuid)
    requires ExecutedAll(start, jobs, claimed, run) && id in jobs && id !in claimed
    ensures ExecutedAll(start, jobs[id := run(jobs[id], |claimed|)], claimed + [id], run)
  {
  }

  lemma DrainContinues(start: Database, db: Database, d: Database, queue: string, now: Time, claimed: seq<Uuid>,
                       run: (Job, nat) -> Job, id: Uuid)
    requires Drained(start, db, queue, now, claimed, run) && IsFirst(DueJobs(db, queue, now), id) && id in db.jobs
    requires d.jobs == db.jobs[id := run(db.jobs[id], |claimed|)] && !Claimable(d.jobs[id], queue, now)
    ensures Drained(start, d, queue, now, claimed + [id], run)
    ensures |DueJobs(d, queue, now)| < |DueJobs(db, queue, now)|
  {
    ChosenContinues(start, db, d, queue, now, claimed, id);
    ExecutedOneMore(start.jobs, db.jobs, claimed, run, id);
  }

  /** Reports the handler's outcome for a claimed job; under a held lease the report is accepted. */
  method Execute(store: Store, now: Time, id: Uuid, token: Uuid, failure: Option<string>, policy: Backoff.RetryPolicy)
    requires Inv(store.View()) && HoldsLease(store.View(), id, token)
    modifies store`jobs, store`attempts
    ensures Inv(store.View())
    ensures store.jobs == old(store.jobs)[id := if failure.None? then CompletedJob(old(store.jobs)[id], now)
                                                else FailedJob(old(store.jobs)[id], now, failure.value, policy)]
  {
    ghost var before := store.View();
    AcceptedExactlyForHolder(before, now, id, token, if failure.Some? then failure.value else "", policy);
    match failure {
      case None =>
        var _ := store.CompleteJob(now, id, token);
        CompleteKeepsInv(before, now, id, token);
      case Some(message) =>
        var _ := store.FailJob(now, id, token, message, policy);
        FailKeepsInv(before, now, id, token, message, policy);
    }
  }

  /** Claims the first due job and executes it. */
  method ClaimAndExecute(store: Store, queueName: string, workerId: string, lease: int, now: Time, report: Time,
                         token: Uuid, failure: Option<string>, policy: Backoff.RetryPolicy)
    returns (r: ClaimResult)
    requires Inv(store.View())
    modifies store`jobs, store`attempts
    ensures Inv(store.View())
    ensures var queue := if queueName == "" then "default" else queueName;
            var worker := if workerId == "" then "worker-unknown" else workerId;
            var due := DueJobs(old(store.View()), queue, now);
            match r
            case NothingDue => due == map[] && store.View() == old(store.View())
            case Claimed(id, _) =>
              && IsFirst(due, id) && id in old(store.jobs)
              && store.jobs == old(store.jobs)[id := Executed(old(store.jobs)[id], report, failure, policy)]
            case ClaimFailed =>
              store.View() == old(store.View()) && ClaimRejected(store.View(), queue, now, worker, lease, token)
  {
    ghost var before := store.View();
    r := store.ClaimJob(now, queueName, workerId, lease, token);
    if r.Claimed? {
      ClaimGivesLease(before, now, if queueName == "" then "default" else queueName,
                      if workerId == "" then "worker-unknown" else workerId, lease, token, r.id, store.View());
      Execute(store, report, r.id, token, failure, policy);
    }
  }

  /** One turn of a drain: the first due job is executed, and nothing else changes. */
  ghost predicate DrainStep(db: Database, d: Database, queue: string, now: Time, id: Uuid, run: (Job, nat) -> Job,
                            n: nat) {
    IsFirst(DueJobs(db, queue, now), id) && id in db.jobs && d.jobs == db.jobs[id := run(db.jobs[id], n)]
  }

  /** The databases of a drain before and after each claim, at the instants of a clock. */
  ghost predicate DrainTrace(dbs: seq<Database>, queue: string, clock: nat -> Time, claimed: seq<Uuid>,
                             run: (Job, nat) -> Job) {
    && |dbs| == |claimed| + 1
    && forall i {:trigger DrainStep(dbs[i], dbs[i + 1], queue, clock(i), claimed[i], run, i)} :: 0 <= i < |claimed|
         ==> DrainStep(dbs[i], dbs[i + 1], queue, clock(i), claimed[i], run, i)
  }

  lemma TraceContinues(dbs: seq<Database>, queue: string, clock: nat -> Time, claimed: seq<Uuid>,
                       run: (Job, nat) -> Job, id: Uuid, d: Database)
    requires DrainTrace(dbs, queue, clock, claimed, run)
    requires DrainStep(dbs[|claimed|], d, queue, clock(|claimed|), id, run, |claimed|)
    ensures DrainTrace(dbs + [d], queue, clock, claimed + [id], run)
  {
    var all, ids := dbs + [d], claimed + [id];
    forall i | 0 <= i < |ids| ensures DrainStep(all[i], all[i + 1], queue, clock(i), ids[i], run, i) {
      if i < |claimed| {
        assert DrainStep(dbs[i], dbs[i + 1], queue, clock(i), claimed[i], run, i);
      }
    }
  }

  /** Each turn of a drain spends one attempt of the budget. */
  lemma ExecutionSpendsOne(jobs: map<Uuid, Job>, id: Uuid, report: Time, failure: Option<string>,
                           policy: Backoff.RetryPolicy)
    requires id in jobs
    ensures Budget.Total(jobs[id := Executed(jobs[id], report, failure, policy)]) == Budget.Total(jobs) - 1
  {
    Budget.TotalOneChanged(jobs, jobs[id := Executed(jobs[id], report, failure, policy)], id);
  }

  /** Drain with no other actor, on any clock and whatever the handlers' outcomes: each turn claims the job that is
      first in claim order at that moment and executes it. The attempts left to all jobs bound the number of turns,
      so that the drain ends: with nothing due, or at a token that the job it is meant for has had. */
  method Drain(store: Store, queueName: string, workerId: string, lease: int, clock: nat -> Time, reports: nat -> Time,
               tokens: nat -> Uuid, outcomes: nat -> Option<string>, policy: Backoff.RetryPolicy)
    returns (ok: bool, claimed: seq<Uuid>, ghost dbs: seq<Database>)
    requires Inv(store.View())
    modifies store`jobs, store`attempts
    ensures Inv(store.View())
    ensures var queue := if queueName == "" then "default" else queueName;
            var worker := if workerId == "" then "worker-unknown" else workerId;
            var now := clock(|claimed|);
            && DrainTrace(dbs, queue, clock, claimed, Execution(reports, outcomes, policy))
            && dbs[0] == old(store.View()) && dbs[|claimed|] == store.View()
            && (ok ==> forall k | k in store.jobs && store.jobs[k].queue == queue ::
                         store.jobs[k].status in {Queued, RetryScheduled} ==> now < store.jobs[k].availableAt)
            && (!ok ==> ClaimRejected(store.View(), queue, now, worker, lease, tokens(|claimed|)))
    ensures |claimed| == Budget.Total(old(store.jobs)) - Budget.Total(store.jobs) <= Budget.Total(old(store.jobs))
  {
    ghost var queue := if queueName == "" then "default" else queueName;
    ghost var start := store.jobs;
    claimed, dbs := [], [store.View()];
    while true
      invariant Inv(store.View()) && DrainTrace(dbs, queue, clock, claimed, Execution(reports, outcomes, policy))
      invariant dbs[0] == old(store.View()) && dbs[|claimed|] == store.View()
      invariant |claimed| == Budget.Total(start) - Budget.Total(store.jobs)
      decreases Budget.Total(store.jobs)
    {
      ghost var before := store.jobs;
      var n := |claimed|;
      Budget.TotalStaysNonNegative(store.View());
      var r := ClaimAndExecute(store, queueName, workerId, lease, clock(n), reports(n), tokens(n), outcomes(n), policy);
      match r {
        case ClaimFailed => return false, claimed, dbs;
        case NothingDue =>
          NothingIsDue(store.View(), queue, clock(n));
          return true, claimed, dbs;
        case Claimed(id, _) =>
          ExecutionSpendsOne(before, id, reports(n), outcomes(n), policy);
          TraceContinues(dbs, queue, clock, claimed, Execution(reports, outcomes, policy), id, store.View());
          claimed, dbs := claimed + [id], dbs + [store.View()];
          Budget.TotalStaysNonNegative(store.View());
      }
    }
  }

  /** Each turn of a drain takes a job that is due then, and before which no other due job of the queue comes: none
      with a higher priority, of those with its priority none due earlier, and of those none older. */
  lemma DrainInOrder(dbs: seq<Database>, queue: string, clock: nat -> Time, claimed: seq<Uuid>, run: (Job, nat) -> Job,
                     i: nat)
    requires DrainTrace(dbs, queue, clock, claimed, run) && i < |claimed|
    ensures claimed[i] in dbs[i].jobs
    ensures dbs[i + 1].jobs == dbs[i].jobs[claimed[i] := run(dbs[i].jobs[claimed[i]], i)]
    ensures var j := dbs[i].jobs[claimed[i]];
            && j.queue == queue && j.status in {Queued, RetryScheduled} && j.availableAt <= clock(i)
            && forall other | other in dbs[i].jobs ::
                 var k := dbs[i].jobs[other];
                 (k.queue == queue && k.status in {Queued, RetryScheduled} && k.availableAt <= clock(i))
                 ==> || j.priority > k.priority
                     || (j.priority == k.priority && j.availableAt < k.availableAt)
                     || (j.priority == k.priority && j.availableAt == k.availableAt && j.createdAt <= k.createdAt)
  {
    assert DrainStep(dbs[i], dbs[i + 1], queue, clock(i), claimed[i], run, i);
    FirstInClaimOrder(dbs[i], queue, clock(i), claimed[i]);
  }

  /** The order in which jobs due at one instant are chosen. */
  lemma ChosenInOrder(db: Database, rest: map<Uuid, Rank>, queue: string, now: Time, claimed: seq<Uuid>, a: nat, b: nat)
    requires Chosen(DueJobs(db, queue, now), rest, claimed) && a < b < |claimed|
    ensures claimed[a] != claimed[b] && claimed[a] in db.jobs && claimed[b] in db.jobs
    ensures var j, k := db.jobs[claimed[a]], db.jobs[claimed[b]];
            || j.priority > k.priority
            || (j.priority == k.priority && j.availableAt < k.availableAt)
            || (j.priority == k.priority && j.availableAt == k.availableAt && j.createdAt <= k.createdAt)
  {
    var due := DueJobs(db, queue, now);
    assert claimed[a] in due && claimed[b] in due && AtMost(due[claimed[a]], due[claimed[b]]);
  }

  lemma ChosenAll(db: Database, d: Database, queue: string, now: Time, claimed: seq<Uuid>, id: Uuid)
    requires Chosen(DueJobs(db, queue, now), DueJobs(d, queue, now), claimed)
    ensures id in claimed ==> && id in db.jobs && db.jobs[id].queue == queue
                              && db.jobs[id].status in {Queued, RetryScheduled} && db.jobs[id].availableAt <= now
    ensures DueJobs(d, queue, now) == map[] && id in db.jobs && db.jobs[id].queue == queue
            && db.jobs[id].status in {Queued, RetryScheduled} && db.jobs[id].availableAt <= now
            ==> id in claimed
  {
    if id in claimed {
      var i :| 0 <= i < |claimed| && claimed[i] == id;
      assert id in DueJobs(db, queue, now);
    } else if id in db.jobs && Claimable(db.jobs[id], queue, now) {
      assert id in DueJobs(db, queue, now);
    }
  }

  lemma NothingDrained(db: Database, queue: string, now: Time, claimed: seq<Uuid>, run: (Job, nat) -> Job)
    requires claimed == []
    ensures Drained(db, db, queue, now, claimed, run)
  {
  }

  lemma DrainedTurn(start: Database, db: Database, d: Database, queue: string, now: Time, claimed: seq<Uuid>,
                    after: seq<Uuid>, run: (Job, nat) -> Job, id: Uuid)
    requires Drained(start, db, queue, now, claimed, run) && DrainStep(db, d, queue, now, id, run, |claimed|)
    requires !Claimable(run(db.jobs[id], |claimed|), queue, now) && after == claimed + [id]
    ensures Drained(start, d, queue, now, after, run)
  {
    DrainContinues(start, db, d, queue, now, claimed, run, id);
  }

  lemma TraceTurn(dbs: seq<Database>, queue: string, clock: nat -> Time, claimed: seq<Uuid>, run: (Job, nat) -> Job,
                  n: nat)
    requires DrainTrace(dbs, queue, clock, claimed, run) && n < |claimed|
    ensures DrainStep(dbs[n], dbs[n + 1], queue, clock(n), claimed[n], run, n)
    ensures claimed[..n + 1] == claimed[..n] + [claimed[n]] && |claimed[..n]| == n
  {
  }

  lemma {:induction false} DrainedUpTo(dbs: seq<Database>, queue: string, clock: nat -> Time, now: Time,
                                       claimed: seq<Uuid>, run: (Job, nat) -> Job, n: nat)
    requires DrainTrace(dbs, queue, clock, claimed, run) && n <= |claimed|
    requires forall i :: 0 <= i < |claimed| ==> clock(i) == now
    requires forall j, i: nat :: i < |claimed| ==> !Claimable(run(j, i), queue, now)
    ensures Drained(dbs[0], dbs[n], queue, now, claimed[..n], run)
  {
    if n == 0 {
      NothingDrained(dbs[0], queue, now, claimed[..0], run);
    } else {
      DrainedUpTo(dbs, queue, clock, now, claimed, run, n - 1);
      TraceTurn(dbs, queue, clock, claimed, run, n - 1);
      DrainedTurn(dbs[0], dbs[n - 1], dbs[n], queue, now, claimed[..n - 1], claimed[..n], run, claimed[n - 1]);
    }
  }

  /** A drain whose claims all see one instant, so that the due set is fixed, and whose reports come no earlier: it
      executes each job once, in claim order; when nothing is due any more, these are exactly the jobs that were. */
  lemma FixedDueSet(dbs: seq<Database>, queue: string, clock: nat -> Time, reports: nat -> Time, now: Time,
                    claimed: seq<Uuid>, outcomes: nat -> Option<string>, policy: Backoff.RetryPolicy)
    requires DrainTrace(dbs, queue, clock, claimed, Execution(reports, outcomes, policy))
    requires forall i :: 0 <= i < |claimed| ==> clock(i) == now && now <= reports(i)
    ensures ExecutedAll(dbs[0].jobs, dbs[|claimed|].jobs, claimed, Execution(reports, outcomes, policy))
    ensures forall a, b | 0 <= a < b < |claimed| ::
              && claimed[a] != claimed[b] && claimed[a] in dbs[0].jobs && claimed[b] in dbs[0].jobs
              && var j, k := dbs[0].jobs[claimed[a]], dbs[0].jobs[claimed[b]];
                 || j.priority > k.priority
                 || (j.priority == k.priority && j.availableAt < k.availableAt)
                 || (j.priority == k.priority && j.availableAt == k.availableAt && j.createdAt <= k.createdAt)
    ensures forall id | id in claimed ::
              && id in dbs[0].jobs && dbs[0].jobs[id].queue == queue
              && dbs[0].jobs[id].status in {Queued, RetryScheduled} && dbs[0].jobs[id].availableAt <= now
    ensures DueJobs(dbs[|claimed|], queue, now) == map[] ==>
              forall id | && id in dbs[0].jobs && dbs[0].jobs[id].queue == queue
                          && dbs[0].jobs[id].status in {Queued, RetryScheduled} && dbs[0].jobs[id].availableAt <= now ::
                id in claimed
  {
    var run := Execution(reports, outcomes, policy);
    forall j, i: nat | i < |claimed| ensures !Claimable(run(j, i), queue, now) {
      ExecutedIsNotDue(j, now, reports(i), outcomes(i), policy, queue);
    }
    DrainedUpTo(dbs, queue, clock, now, claimed, run, |claimed|);
    assert claimed[..|claimed|] == claimed;
    forall a, b | 0 <= a < b < |claimed|
      ensures claimed[a] != claimed[b] && claimed[a] in dbs[0].jobs && claimed[b] in dbs[0].jobs
      ensures var j, k := dbs[0].jobs[claimed[a]], dbs[0].jobs[claimed[b]];
              || j.priority > k.priority
              || (j.priority == k.priority && j.availableAt < k.availableAt)
              || (j.priority == k.priority && j.availableAt == k.availableAt && j.createdAt <= k.createdAt)
    {
      ChosenInOrder(dbs[0], DueJobs(dbs[|claimed|], queue, now), queue, now, claimed, a, b);
    }
    forall id {
      ChosenAll(dbs[0], dbs[|claimed|], queue, now, claimed, id);
    }
  }
}
