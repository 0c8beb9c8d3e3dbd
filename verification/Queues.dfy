/** Per-queue views: status counts and queues with due work. */
module Queues {
  import opened Prelude
  import opened Keys
  import opened Tables
  import opened Transactions
  import opened Protocol
  import opened Invariant

  function JobsIn(db: Database, queue: string, status: JobStatus): set<Uuid> {
    set id | id in db.jobs && db.jobs[id].queue == queue && db.jobs[id].status == status
  }

  datatype QueueSummary = QueueSummary(
    total: nat,
    queued: nat,
    running: nat,
    retryScheduled: nat,
    succeeded: nat,
    deadLetter: nat,
    cancelled: nat)

  /** The job counts of one queue; there is no column for failed jobs. */
  function Summary(db: Database, queue: string): QueueSummary {
    QueueSummary(
      |AllIn(db, queue)|,
      |JobsIn(db, queue, Queued)|,
      |JobsIn(db, queue, Running)|,
      |JobsIn(db, queue, RetryScheduled)|,
      |JobsIn(db, queue, Succeeded)|,
      |JobsIn(db, queue, DeadLetter)|,
      |JobsIn(db, queue, Cancelled)|)
  }

  function ColumnSum(s: QueueSummary): nat {
    s.queued + s.running + s.retryScheduled + s.succeeded + s.deadLetter + s.cancelled
  }

  /** Jobs of a queue with one of the statuses from the k-th on. */
  function JobsFrom(db: Database, queue: string, k: nat): set<Uuid> {
    set id | id in db.jobs && db.jobs[id].queue == queue && Ordinal(db.jobs[id].status) >= k
  }

  function Ordinal(s: JobStatus): nat {
    match s
    case Queued => 0
    case Running => 1
    case RetryScheduled => 2
    case Succeeded => 3
    case DeadLetter => 4
    case Cancelled => 5
    case Failed => 6
  }

  lemma OrdinalInjective(s: JobStatus, t: JobStatus)
    requires Ordinal(s) == Ordinal(t)
    ensures s == t
  {
  }

  lemma CountOneStatus(db: Database, queue: string, s: JobStatus)
    ensures |JobsFrom(db, queue, Ordinal(s))| == |JobsIn(db, queue, s)| + |JobsFrom(db, queue, Ordinal(s) + 1)|
  {
    var here, rest := JobsIn(db, queue, s), JobsFrom(db, queue, Ordinal(s) + 1);
    forall id ensures id in JobsFrom(db, queue, Ordinal(s)) <==> id in here || id in rest {
      if id in db.jobs && Ordinal(db.jobs[id].status) == Ordinal(s) {
        OrdinalInjective(db.jobs[id].status, s);
      }
    }
    assert JobsFrom(db, queue, Ordinal(s)) == here + rest;
    assert here !! rest;
  }

  function AllIn(db: Database, queue: string): set<Uuid> {
    set id | id in db.jobs && db.jobs[id].queue == queue
  }

  lemma AllStatuses(db: Database, queue: string)
    ensures JobsFrom(db, queue, 0) == AllIn(db, queue) && JobsFrom(db, queue, 7) == {}
  {
  }

  /** What the columns miss is exactly the number of jobs with status failed. */
  lemma ColumnsMissFailed(db: Database, queue: string)
    ensures Summary(db, queue).total == ColumnSum(Summary(db, queue)) + |JobsIn(db, queue, Failed)|
  {
    CountOneStatus(db, queue, Queued);
    CountOneStatus(db, queue, Running);
    CountOneStatus(db, queue, RetryScheduled);
    CountOneStatus(db, queue, Succeeded);
    CountOneStatus(db, queue, DeadLetter);
    CountOneStatus(db, queue, Cancelled);
    CountOneStatus(db, queue, Failed);
    AllStatuses(db, queue);
  }

  /** In every reachable state the six columns partition the queue: status failed never occurs. */
  lemma ColumnsSumToTotal(states: seq<Database>, events: seq<Event>, m: nat, queue: string)
    requires Run(states, events) && m < |states|
    ensures ColumnSum(Summary(states[m], queue)) == Summary(states[m], queue).total
  {
    RunKeepsInv(states, events, m);
    ColumnsMissFailed(states[m], queue);
    forall id | id in states[m].jobs ensures states[m].jobs[id].status != Failed {
      assert JobOk(states[m], id);
    }
    assert JobsIn(states[m], queue, Failed) == {};
  }

  // Which column counts which jobs.

  /** One for a job that a column counts. */
  function Counts(jobs: map<Uuid, Job>, id: Uuid, queue: string, status: JobStatus): nat {
    if id in jobs && jobs[id].queue == queue && jobs[id].status == status then 1 else 0
  }

  lemma OneElement(before: set<Uuid>, after: set<Uuid>, id: Uuid)
    requires before - {id} == after - {id}
    ensures |after| + (if id in before then 1 else 0) == |before| + (if id in after then 1 else 0)
  {
    var rest := before - {id};
    assert before == if id in before then rest + {id} else rest;
    assert after == if id in after then rest + {id} else rest;
  }

  lemma OneRowCounted(db: Database, d: Database, id: Uuid, queue: string, status: JobStatus)
    requires id in d.jobs && d.jobs == db.jobs[id := d.jobs[id]]
    ensures |JobsIn(d, queue, status)|
         == |JobsIn(db, queue, status)| - Counts(db.jobs, id, queue, status) + Counts(d.jobs, id, queue, status)
  {
    assert JobsIn(db, queue, status) - {id} == JobsIn(d, queue, status) - {id};
    OneElement(JobsIn(db, queue, status), JobsIn(d, queue, status), id);
  }

  /** The columns follow the rows: they are zero in the empty store, and writing one row takes it out of the column of
      its old status and puts it into that of its new one. */
  lemma ColumnsFollowRows(db: Database, d: Database, id: Uuid, queue: string)
    requires id in d.jobs && d.jobs == db.jobs[id := d.jobs[id]]
    ensures Summary(EMPTY, queue) == QueueSummary(0, 0, 0, 0, 0, 0, 0)
    ensures var s, s' := Summary(db, queue), Summary(d, queue);
            && s'.queued == s.queued - Counts(db.jobs, id, queue, Queued) + Counts(d.jobs, id, queue, Queued)
            && s'.running == s.running - Counts(db.jobs, id, queue, Running) + Counts(d.jobs, id, queue, Running)
            && s'.retryScheduled == s.retryScheduled - Counts(db.jobs, id, queue, RetryScheduled)
                                    + Counts(d.jobs, id, queue, RetryScheduled)
            && s'.succeeded == s.succeeded - Counts(db.jobs, id, queue, Succeeded)
                               + Counts(d.jobs, id, queue, Succeeded)
            && s'.deadLetter == s.deadLetter - Counts(db.jobs, id, queue, DeadLetter)
                                + Counts(d.jobs, id, queue, DeadLetter)
            && s'.cancelled == s.cancelled - Counts(db.jobs, id, queue, Cancelled)
                               + Counts(d.jobs, id, queue, Cancelled)
  {
    forall status ensures JobsIn(EMPTY, queue, status) == {} {
    }
    assert AllIn(EMPTY, queue) == {};
    OneRowCounted(db, d, id, queue, Queued);
    OneRowCounted(db, d, id, queue, Running);
    OneRowCounted(db, d, id, queue, RetryScheduled);
    OneRowCounted(db, d, id, queue, Succeeded);
    OneRowCounted(db, d, id, queue, DeadLetter);
    OneRowCounted(db, d, id, queue, Cancelled);
  }

  /** Queues that hold a job ready to be claimed. */
  function DueQueues(db: Database, now: Time): set<string> {
    set id | id in db.jobs && Waiting(db.jobs[id]) && db.jobs[id].availableAt <= now :: db.jobs[id].queue
  }
}
