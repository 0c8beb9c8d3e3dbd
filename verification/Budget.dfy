/** Attempts as a conserved quantity: claims spend what submissions and dead-letter retries grant. */
module Budget {
  import opened Keys
  import opened Tables
  import opened Protocol
  import opened Invariant
  import opened Steps
  import opened History

  type Jobs = map<Uuid, Job>

  /** Attempts that a job may still make. */
  function Left(j: Job): int {
    j.maxAttempts - j.attemptCount
  }

  ghost function Total(jobs: Jobs): int
    decreases |jobs|
  {
    if jobs == map[] then 0
    else
      var id :| id in jobs;
      Left(jobs[id]) + Total(jobs - {id})
  }

  /** The total does not depend on the order of summation. */
  lemma {:induction false} TotalWithout(jobs: Jobs, id: Uuid)
    requires id in jobs
    ensures Total(jobs) == Left(jobs[id]) + Total(jobs - {id})
    decreases |jobs|
  {
    var x :| x in jobs && Total(jobs) == Left(jobs[x]) + Total(jobs - {x});
    if x != id {
      TotalWithout(jobs - {x}, id);
      TotalWithout(jobs - {id}, x);
      assert jobs - {x} - {id} == jobs - {id} - {x};
    }
  }

  lemma WithoutUnion(a: Jobs, b: Jobs, x: Uuid)
    requires a.Keys !! b.Keys && x in a
    ensures (a + b) - {x} == (a - {x}) + b && (a + b)[x] == a[x]
  {
  }

  lemma {:induction false} TotalUnion(a: Jobs, b: Jobs)
    requires a.Keys !! b.Keys
    ensures Total(a + b) == Total(a) + Total(b)
    decreases |a|
  {
    if a == map[] {
      assert a + b == b;
    } else {
      var x :| x in a;
      WithoutUnion(a, b, x);
      TotalUnion(a - {x}, b);
      TotalWithout(a, x);
      TotalWithout(a + b, x);
    }
  }

  lemma {:induction false} TotalSame(a: Jobs, b: Jobs)
    requires a.Keys == b.Keys && forall id :: id in a ==> Left(a[id]) == Left(b[id])
    ensures Total(a) == Total(b)
    decreases |a|
  {
    if a == map[] {
      assert b == map[];
    } else {
      var x :| x in a;
      TotalWithout(a, x);
      TotalWithout(b, x);
      TotalSame(a - {x}, b - {x});
    }
  }

  lemma TotalOneChanged(a: Jobs, b: Jobs, id: Uuid)
    requires a.Keys == b.Keys && id in a
    requires forall i :: i in a && i != id ==> Left(a[i]) == Left(b[i])
    ensures Total(b) - Total(a) == Left(b[id]) - Left(a[id])
  {
    TotalWithout(a, id);
    TotalWithout(b, id);
    TotalSame(a - {id}, b - {id});
  }

  lemma {:induction false} TotalNonNegative(jobs: Jobs)
    requires forall id :: id in jobs ==> Left(jobs[id]) >= 0
    ensures Total(jobs) >= 0
    decreases |jobs|
  {
    if jobs != map[] {
      var x :| x in jobs;
      TotalWithout(jobs, x);
      TotalNonNegative(jobs - {x});
    }
  }

  // What one step does to the total.

  /** A claim that commits spends one attempt. */
  function Spent(db: Database, e: Event): nat
    requires RowsMatch(db, e)
  {
    if e.EClaim? && Transact(db, e).Some? then 1 else 0
  }

  /** A manual retry of a dead-lettered job grants one attempt. */
  function Regained(db: Database, e: Event): nat {
    if e.ERetry? && e.id in db.jobs && db.jobs[e.id].status == DeadLetter then 1 else 0
  }

  function Fresh(db: Database, d: Database): Jobs {
    map id | id in d.jobs && id !in db.jobs :: d.jobs[id]
  }

  function Kept(db: Database, d: Database): Jobs
    requires forall id :: id in db.jobs ==> id in d.jobs
  {
    map id | id in db.jobs :: d.jobs[id]
  }

  /** Only claims and dead-letter retries change what a job has left. */
  lemma MoveBudget(e: Event, id: Uuid, j: Job, j': Job)
    requires RowOk(j) && RowMove(e, id, j, j')
    ensures !(e.EClaim? && e.pick == id) && !(e.ERetry? && e.id == id && j.status == DeadLetter) ==> Left(j') == Left(j)
    ensures j'.maxAttempts == j.maxAttempts
            || (e.ERetry? && e.id == id && j.status == DeadLetter && j'.maxAttempts == j.maxAttempts + 1)
  {
  }

  predicate ChangesBudget(db: Database, e: Event, id: Uuid) {
    (e.EClaim? && e.pick == id) || (e.ERetry? && e.id == id && id in db.jobs && db.jobs[id].status == DeadLetter)
  }

  lemma StepBudgetOfJob(db: Database, e: Event, id: Uuid)
    requires RowsMatch(db, e) && Inv(db) && id in db.jobs
    ensures id in Apply(db, e).jobs
    ensures !ChangesBudget(db, e, id) ==> Left(Apply(db, e).jobs[id]) == Left(db.jobs[id])
  {
    assert JobOk(db, id);
    StepMovesRow(db, e, id);
    MoveBudget(e, id, db.jobs[id], Apply(db, e).jobs[id]);
  }

  lemma BudgetOfChangedJob(db: Database, e: Event, id: Uuid)
    requires RowsMatch(db, e) && Inv(db) && id in db.jobs && ChangesBudget(db, e, id)
    ensures id in Apply(db, e).jobs
    ensures Left(Apply(db, e).jobs[id]) == Left(db.jobs[id]) - Spent(db, e) + Regained(db, e)
  {
    assert JobOk(db, id);
  }

  lemma KeptTotal(db: Database, e: Event)
    requires RowsMatch(db, e) && Inv(db)
    requires forall id :: id in db.jobs ==> id in Apply(db, e).jobs
    ensures Total(Kept(db, Apply(db, e))) == Total(db.jobs) - Spent(db, e) + Regained(db, e)
  {
    var kept := Kept(db, Apply(db, e));
    forall id | id in db.jobs && !ChangesBudget(db, e, id) ensures Left(kept[id]) == Left(db.jobs[id]) {
      StepBudgetOfJob(db, e, id);
    }
    if id :| id in db.jobs && ChangesBudget(db, e, id) {
      BudgetOfChangedJob(db, e, id);
      TotalOneChanged(db.jobs, kept, id);
    } else {
      TotalSame(db.jobs, kept);
    }
  }

  lemma KeptAndFresh(db: Database, d: Database)
    requires forall id :: id in db.jobs ==> id in d.jobs
    ensures Total(d.jobs) == Total(Kept(db, d)) + Total(Fresh(db, d))
  {
    TotalUnion(Kept(db, d), Fresh(db, d));
    assert d.jobs == Kept(db, d) + Fresh(db, d);
  }

  /** The total drops by one per claim and rises only by new jobs and dead-letter retries. */
  lemma StepBudget(db: Database, e: Event)
    requires RowsMatch(db, e) && Inv(db)
    ensures Total(Apply(db, e).jobs) == Total(db.jobs) - Spent(db, e) + Regained(db, e) + Total(Fresh(db, Apply(db, e)))
  {
    forall id | id in db.jobs ensures id in Apply(db, e).jobs {
      StepBudgetOfJob(db, e, id);
    }
    KeptTotal(db, e);
    KeptAndFresh(db, Apply(db, e));
  }

  // Whole runs.

  ghost function Claims(states: seq<Database>, events: seq<Event>, m: nat): nat
    requires Run(states, events) && m < |states|
  {
    if m == 0 then 0
    else
      StepOf(states, events, m - 1);
      Claims(states, events, m - 1) + Spent(states[m - 1], events[m - 1])
  }

  /** Attempts granted up to state m: the budgets of the submitted jobs, plus one per dead-letter retry. */
  ghost function Granted(states: seq<Database>, events: seq<Event>, m: nat): int
    requires Run(states, events) && m < |states|
  {
    if m == 0 then 0
    else Granted(states, events, m - 1) + Total(Fresh(states[m - 1], states[m]))
         + Regained(states[m - 1], events[m - 1])
  }

  lemma TotalStaysNonNegative(db: Database)
    requires Inv(db)
    ensures Total(db.jobs) >= 0
  {
    forall id | id in db.jobs ensures Left(db.jobs[id]) >= 0 {
      assert JobOk(db, id);
    }
    TotalNonNegative(db.jobs);
  }

  lemma ConservedByStep(states: seq<Database>, events: seq<Event>, m: nat)
    requires Run(states, events) && 0 < m < |states|
    ensures RowsMatch(states[m - 1], events[m - 1])
    ensures Total(states[m].jobs) == Total(states[m - 1].jobs) - Spent(states[m - 1], events[m - 1])
                                     + Regained(states[m - 1], events[m - 1]) + Total(Fresh(states[m - 1], states[m]))
  {
    RunKeepsInv(states, events, m - 1);
    StepOf(states, events, m - 1);
    StepBudget(states[m - 1], events[m - 1]);
  }

  /** Conservation: attempts granted are attempts claimed plus attempts left; so grants bound the claims of any
      run, although claiming never looks at the maximum. */
  lemma {:induction false} AttemptsConserved(states: seq<Database>, events: seq<Event>, m: nat)
    requires Run(states, events) && m < |states|
    ensures Claims(states, events, m) + Total(states[m].jobs) == Granted(states, events, m)
    ensures Claims(states, events, m) <= Granted(states, events, m)
  {
    RunKeepsInv(states, events, m);
    TotalStaysNonNegative(states[m]);
    if m > 0 {
      AttemptsConserved(states, events, m - 1);
      ConservedByStep(states, events, m);
    }
  }

  /** Retries of job id taken out of the dead letters by steps i up to m. */
  ghost function DeadRetries(states: seq<Database>, events: seq<Event>, i: nat, m: nat, id: Uuid): nat
    requires Run(states, events) && i <= m < |states|
    decreases m - i
  {
    if i == m then 0
    else
      DeadRetries(states, events, i, m - 1, id)
      + if events[m - 1].ERetry? && events[m - 1].id == id then Regained(states[m - 1], events[m - 1]) else 0
  }

  /** max_attempts grows by one per dead-letter retry and in no other way. */
  lemma {:induction false} MaxAttemptsCountsRetries(states: seq<Database>, events: seq<Event>, i: nat, m: nat, id: Uuid)
    requires Run(states, events) && i <= m < |states| && id in states[i].jobs
    ensures id in states[m].jobs
    ensures states[m].jobs[id].maxAttempts == states[i].jobs[id].maxAttempts + DeadRetries(states, events, i, m, id)
    decreases m - i
  {
    if i < m {
      MaxAttemptsCountsRetries(states, events, i, m - 1, id);
      StepOf(states, events, m - 1);
      RunKeepsInv(states, events, m - 1);
      assert JobOk(states[m - 1], id);
      StepMovesRow(states[m - 1], events[m - 1], id);
      MoveBudget(events[m - 1], id, states[m - 1].jobs[id], states[m].jobs[id]);
    }
  }
}
