/** The scheduler's tick: fire cron jobs, recover leases, and signal the queues that have work. */
module Scheduler {
  import opened Prelude
  import opened Keys
  import opened Tables
  import opened Transactions
  import opened Protocol
  import opened Queries
  import opened Queues
  import opened Leases
  import opened StoreModel

  datatype TickResult =
    | Ticked(fires: seq<Fire>, inserted: seq<Fire>, recovered: seq<Uuid>, signalled: set<string>)
    | TickFailed(attempted: seq<Fire>)

  const REASON: string := "job lease expired"

  /** The queues of jobs for which a cron run was recorded. */
  function FiredQueues(jobs: map<Uuid, Job>, inserted: seq<Fire>): set<string> {
    set f | f in inserted && f.job in jobs :: jobs[f.job].queue
  }

  /** The queues of recovered jobs that wait again; dead letters do not count. */
  function RecoveredQueues(jobs: map<Uuid, Job>, rows: seq<Uuid>): set<string> {
    set id | id in rows && id in jobs && Waiting(jobs[id]) :: jobs[id].queue
  }

  method AddFired(store: Store, inserted: seq<Fire>, before: set<string>) returns (queues: set<string>)
    requires forall f | f in inserted :: f.job in store.jobs
    ensures queues == before + FiredQueues(store.jobs, inserted)
    ensures queues == before + set f | f in inserted :: store.jobs[f.job].queue
  {
    queues := before;
    for i := 0 to |inserted|
      invariant queues == before + FiredQueues(store.jobs, inserted[..i])
    {
      assert inserted[..i + 1] == inserted[..i] + [inserted[i]];
      queues := queues + {store.jobs[inserted[i].job].queue};
    }
    assert inserted[..|inserted|] == inserted;
  }

  method AddRecovered(store: Store, rows: seq<Uuid>, before: set<string>) returns (queues: set<string>)
    requires forall id | id in rows :: id in store.jobs
    ensures queues == before + RecoveredQueues(store.jobs, rows)
    ensures queues == before + set id | id in rows && store.jobs[id].status in {Queued, RetryScheduled}
                                 :: store.jobs[id].queue
  {
    queues := before;
    for i := 0 to |rows|
      invariant queues == before + RecoveredQueues(store.jobs, rows[..i])
    {
      assert rows[..i + 1] == rows[..i] + [rows[i]];
      if store.jobs[rows[i]].status == RetryScheduled || store.jobs[rows[i]].status == Queued {
        queues := queues + {store.jobs[rows[i]].queue};
      }
    }
    assert rows[..|rows|] == rows;
  }

  method AddDue(store: Store, now: Time, limit: int, atMost: (string, string) -> bool, before: set<string>)
    returns (queues: set<string>)
    requires TotalOrder(atMost)
    ensures before <= queues <= before + DueQueues(store.View(), now)
    ensures |DueQueues(store.View(), now)| <= BatchSize(limit) ==> queues == before + DueQueues(store.View(), now)
  {
    var due := store.ListDueQueues(now, limit, atMost);
    DistinctCovers(due, DueQueues(store.View(), now));
    queues := before;
    for i := 0 to |due|
      invariant before <= queues <= before + DueQueues(store.View(), now)
      invariant forall k :: 0 <= k < i ==> due[k] in queues
    {
      queues := queues + {due[i]};
    }
  }

  /** What other clients of the database do between the transactions of a tick, as a function of what they find. */
  ghost predicate Meanwhile(others: (nat, Database) -> seq<Event>) {
    forall i, db :: Matching(db, others(i, db))
  }

  /** The tables after firing, after others have acted, after recovery, and after others have acted again. */
  datatype TickStates = TickStates(fired: Database, before: Database, recovered: Database, end: Database)

  ghost predicate TickRan(s: TickStates, others: (nat, Database) -> seq<Event>, recoverNow: Time, batch: int,
                          recovered: seq<Uuid>)
    requires Meanwhile(others)
  {
    && s.before == ApplyAll(s.fired, others(0, s.fired))
    && OrderedLimit(ExpiredRanks(s.before, recoverNow), BatchSize(batch), recovered)
    && AllKnown(s.before, recovered) && s.recovered == Recover(s.before, recoverNow, REASON, recovered)
    && s.end == ApplyAll(s.recovered, others(1, s.recovered))
  }

  /** The signalled queues are those of the new cron jobs, of the recovered jobs that wait, and queues with due
      work: all of these when they are at most a batch. */
  ghost predicate SignalsAsNeeded(s: TickStates, inserted: seq<Fire>, recovered: seq<Uuid>, now: Time, batch: int,
                                  queues: set<string>) {
    var work := FiredQueues(s.fired.jobs, inserted) + RecoveredQueues(s.recovered.jobs, recovered);
    var due := DueQueues(s.end, now);
    work <= queues <= work + due && (|due| <= BatchSize(batch) ==> queues == work + due)
  }

  lemma InsertedKnown(db: Database, d: Database, now: Time, dbNow: Time, scheduler: string, batch: int, r: FireResult)
    requires FiringResult(db, d, now, dbNow, scheduler, batch, r) && r.Fired?
    ensures forall f | f in r.inserted :: f.job in d.jobs
  {
  }

  /** The first half of a tick: fires, and collects the queues of the new jobs. */
  method FireAndCollect(store: Store, now: Time, fireNow: Time, schedulerId: string, batch: int, newIds: seq<Uuid>)
    returns (r: FireResult, queues: set<string>)
    requires |newIds| >= 100
    modifies store`jobs, store`runs, store`crons
    ensures FiringResult(old(store.View()), store.View(), now, fireNow, SchedulerName(schedulerId), batch, r)
    ensures r.Fired? ==> queues == FiredQueues(store.jobs, r.inserted)
  {
    queues := {};
    ghost var before := store.View();
    r := store.FireDueCronJobs(now, fireNow, schedulerId, batch, newIds);
    if r.Fired? {
      InsertedKnown(before, store.View(), now, fireNow, SchedulerName(schedulerId), batch, r);
      queues := AddFired(store, r.inserted, queues);
    }
  }

  /** The second half: recovers, and collects the queues of the jobs that wait. */
  method RecoverAndCollect(store: Store, now: Time, batch: int, before: set<string>)
    returns (rows: seq<Uuid>, queues: set<string>)
    modifies store`jobs, store`attempts
    ensures OrderedLimit(ExpiredRanks(old(store.View()), now), BatchSize(batch), rows)
    ensures AllKnown(old(store.View()), rows) && store.View() == Recover(old(store.View()), now, REASON, rows)
    ensures queues == before + RecoveredQueues(store.jobs, rows)
  {
    rows := store.RecoverExpiredJobs(now, batch, REASON);
    queues := AddRecovered(store, rows, before);
  }

  /** The clocks of one tick: the evaluating clock, and the database time of each of its three transactions. */
  datatype TickClocks = TickClocks(now: Time, fireNow: Time, recoverNow: Time, listNow: Time)

  /** What a tick among other clients does to the tables. An error while firing ends it before any lease is
      recovered. */
  ghost predicate TickOutcome(db: Database, end: Database, t: TickClocks, schedulerId: string, batch: int,
                              others: (nat, Database) -> seq<Event>, r: TickResult, s: TickStates)
    requires Meanwhile(others)
  {
    var scheduler := SchedulerName(schedulerId);
    match r
    case TickFailed(fires) => end == db && FiringResult(db, db, t.now, t.fireNow, scheduler, batch, FireFailed(fires))
    case Ticked(fires, inserted, recovered, signalled) =>
      && FiringResult(db, s.fired, t.now, t.fireNow, scheduler, batch, Fired(fires, inserted))
      && TickRan(s, others, t.recoverNow, batch, recovered)
      && end == s.end && SignalsAsNeeded(s, inserted, recovered, t.listNow, batch, signalled)
  }

  /** One tick. */
  method Tick(store: Store, t: TickClocks, schedulerId: string, batch: int, newIds: seq<Uuid>,
              atMost: (string, string) -> bool, others: (nat, Database) -> seq<Event>)
    returns (r: TickResult, ghost s: TickStates)
    requires |newIds| >= 100 && TotalOrder(atMost) && Meanwhile(others)
    modifies store
    ensures TickOutcome(old(store.View()), store.View(), t, schedulerId, batch, others, r, s)
  {
    var fired, queues := FireAndCollect(store, t.now, t.fireNow, schedulerId, batch, newIds);
    s := TickStates(store.View(), store.View(), store.View(), store.View());
    if fired.FireFailed? {
      return TickFailed(fired.attempted), s;
    }
    store.OtherActors(others(0, store.View()));
    s := s.(before := store.View());
    var recovered;
    recovered, queues := RecoverAndCollect(store, t.recoverNow, batch, queues);
    s := s.(recovered := store.View());
    store.OtherActors(others(1, store.View()));
    s := s.(end := store.View());
    queues := AddDue(store, t.listNow, batch, atMost, queues);
    return Ticked(fired.fires, fired.inserted, recovered, queues), s;
  }
}
