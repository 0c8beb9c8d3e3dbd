/** Whole interleavings of workers and schedulers: they are runs of the atomic machine, and one clock suffices for
    the progress of cron jobs. */
module Schedulers {
  import opened Prelude
  import opened Keys
  import opened Tables
  import opened Transactions
  import opened Protocol
  import opened CronRuns
  import opened FireWriting
  import opened Firings
  import opened Progress
  import Locks

  ghost predicate ActStep(m: Full, a: Act, n: Full, ev: Evaluator) {
    Can(m, a, ev) && n == Take(m, a, ev)
  }

  /** fulls[i] is the state before acts[i], in any interleaving of job and cron transactions. */
  ghost predicate FullInterleaving(fulls: seq<Full>, acts: seq<Act>, ev: Evaluator) {
    && |fulls| == |acts| + 1
    && fulls[0] == BEGINNING
    && forall i {:trigger ActStep(fulls[i], acts[i], fulls[i + 1], ev)} :: 0 <= i < |acts|
         ==> ActStep(fulls[i], acts[i], fulls[i + 1], ev)
  }

  lemma ActOf(fulls: seq<Full>, acts: seq<Act>, ev: Evaluator, i: nat)
    requires FullInterleaving(fulls, acts, ev) && i < |acts|
    ensures Can(fulls[i], acts[i], ev) && fulls[i + 1] == Take(fulls[i], acts[i], ev)
  {
    assert ActStep(fulls[i], acts[i], fulls[i + 1], ev);
  }

  /** What the i-th act takes effect as. */
  ghost function EffectAt(fulls: seq<Full>, acts: seq<Act>, ev: Evaluator, i: nat): seq<Event>
    requires FullInterleaving(fulls, acts, ev) && i < |acts|
  {
    ActOf(fulls, acts, ev, i);
    ActEffect(fulls[i], acts[i])
  }

  /** The atomic steps of an interleaving, in the order in which they take effect. */
  ghost function Serialized(fulls: seq<Full>, acts: seq<Act>, ev: Evaluator, n: nat): seq<Event>
    requires FullInterleaving(fulls, acts, ev) && n < |fulls|
  {
    if n == 0 then [] else Serialized(fulls, acts, ev, n - 1) + EffectAt(fulls, acts, ev, n - 1)
  }

  /** The tables that the interleaving shows, once before and once after each effect. */
  ghost function StatesOf(fulls: seq<Full>, acts: seq<Act>, ev: Evaluator, n: nat): (states: seq<Database>)
    requires FullInterleaving(fulls, acts, ev) && n < |fulls|
    ensures states != []
  {
    if n == 0 then [EMPTY]
    else if EffectAt(fulls, acts, ev, n - 1) == [] then StatesOf(fulls, acts, ev, n - 1)
    else StatesOf(fulls, acts, ev, n - 1) + [fulls[n].low.db]
  }

  lemma AnsweredRunExtends(states: seq<Database>, events: seq<Event>, e: Event, d: Database, ev: Evaluator)
    requires AnsweredRun(states, events, ev) && Next(states[|states| - 1], e, d)
    requires CronAnswers(states[|states| - 1], e, ev)
    ensures AnsweredRun(states + [d], events + [e], ev)
  {
    Locks.RunExtends(states, events, e, d);
  }

  /** The first n acts amount to a run of the atomic machine. */
  ghost predicate Amounts(fulls: seq<Full>, acts: seq<Act>, ev: Evaluator, n: nat)
    requires FullInterleaving(fulls, acts, ev) && n < |fulls|
  {
    var states := StatesOf(fulls, acts, ev, n);
    AnsweredRun(states, Serialized(fulls, acts, ev, n), ev) && states[|states| - 1] == fulls[n].low.db
  }

  lemma OneActMore(fulls: seq<Full>, acts: seq<Act>, ev: Evaluator, n: nat)
    requires FullInterleaving(fulls, acts, ev) && n < |acts|
    requires FullInv(fulls[n], ev) && Amounts(fulls, acts, ev, n)
    ensures FullInv(fulls[n + 1], ev) && Amounts(fulls, acts, ev, n + 1)
    ensures |EffectAt(fulls, acts, ev, n)| <= 1
  {
    ActOf(fulls, acts, ev, n);
    ActRefines(fulls[n], acts[n], ev);
    var effect := EffectAt(fulls, acts, ev, n);
    var events := Serialized(fulls, acts, ev, n);
    if effect == [] {
      assert events + [] == events;
    } else {
      AnsweredRunExtends(StatesOf(fulls, acts, ev, n), events, effect[0], fulls[n + 1].low.db, ev);
      assert effect == [effect[0]];
    }
  }

  lemma Beginning(fulls: seq<Full>, acts: seq<Act>, ev: Evaluator)
    requires FullInterleaving(fulls, acts, ev)
    ensures FullInv(fulls[0], ev) && Amounts(fulls, acts, ev, 0)
  {
  }

  /** Refinement: every interleaving of any number of workers and schedulers is a run of the atomic machine, whose
      steps are the commits in commit order and get the evaluator's answers. */
  lemma {:induction false} SchedulersRefine(fulls: seq<Full>, acts: seq<Act>, ev: Evaluator, n: nat)
    requires FullInterleaving(fulls, acts, ev) && n < |fulls|
    ensures FullInv(fulls[n], ev) && Amounts(fulls, acts, ev, n)
  {
    if n == 0 {
      Beginning(fulls, acts, ev);
    } else {
      SchedulersRefine(fulls, acts, ev, n - 1);
      OneActMore(fulls, acts, ev, n - 1);
    }
  }

  lemma StatesGrow(fulls: seq<Full>, acts: seq<Act>, ev: Evaluator, n: nat)
    requires FullInterleaving(fulls, acts, ev) && n < |acts|
    ensures Serialized(fulls, acts, ev, n) <= Serialized(fulls, acts, ev, n + 1)
    ensures StatesOf(fulls, acts, ev, n) <= StatesOf(fulls, acts, ev, n + 1)
  {
  }

  lemma {:induction false} StatesAreKept(fulls: seq<Full>, acts: seq<Act>, ev: Evaluator, n: nat, i: nat)
    requires FullInterleaving(fulls, acts, ev) && i <= n < |fulls|
    ensures Serialized(fulls, acts, ev, i) <= Serialized(fulls, acts, ev, n)
    ensures StatesOf(fulls, acts, ev, i) <= StatesOf(fulls, acts, ev, n)
    decreases n - i
  {
    if i < n {
      StatesAreKept(fulls, acts, ev, n - 1, i);
      StatesGrow(fulls, acts, ev, n - 1);
    }
  }

  /** The run passes through the tables that the interleaving shows after each act. */
  lemma RunShowsActs(fulls: seq<Full>, acts: seq<Act>, ev: Evaluator, n: nat, i: nat)
    requires FullInterleaving(fulls, acts, ev) && i <= n < |fulls|
    ensures var k := |Serialized(fulls, acts, ev, i)|;
            && Serialized(fulls, acts, ev, i) <= Serialized(fulls, acts, ev, n)
            && k < |StatesOf(fulls, acts, ev, n)| && StatesOf(fulls, acts, ev, n)[k] == fulls[i].low.db
  {
    SchedulersRefine(fulls, acts, ev, i);
    StatesAreKept(fulls, acts, ev, n, i);
  }

  // One clock for firing and enabling.

  /** The clock reading that an act takes: a firing reads before it locks any row, enabling after it has locked its
      row. When the creation of a cron job reads the clock does not matter. */
  function Reading(a: Act): Option<Time> {
    match a
    case BeginFiring(_, now, _, _, _) => Some(now)
    case Evaluate(_, now, _) => Some(now)
    case _ => None
  }

  /** These readings come from one clock that does not run backwards. */
  ghost predicate OneClock(acts: seq<Act>) {
    forall i, j :: 0 <= i < j < |acts| && Reading(acts[i]).Some? && Reading(acts[j]).Some?
                   ==> Reading(acts[i]).value <= Reading(acts[j]).value
  }

  /** What holds at time t: no recorded run is later, no open firing is dated later, and an open enabling was evaluated
      no earlier than the recorded runs of its cron job. */
  ghost predicate OnTime(m: Full, t: Time) {
    && (forall r :: r in m.low.db.runs ==> r.minute * MINUTE <= t)
    && (forall tx :: tx in m.crons ==> TxOnTime(m.low.db, m.crons[tx], t))
  }

  ghost predicate TxOnTime(db: Database, x: CronTxn, t: Time) {
    match x
    case Firing(now, _, _, _, _, _, _) => now <= t
    case Setting(id, _, _, answer) => answer.Some? ==> answer.value.now <= t && RunsUpTo(db, id, answer.value.now)
  }

  lemma QuietActOnTime(m: Full, a: Act, ev: Evaluator, t0: Time, t: Time)
    requires Can(m, a, ev) && !a.JobStep? && !a.CommitCron?
    requires OnTime(m, t0) && t0 <= t && (Reading(a).Some? ==> Reading(a).value == t0)
    ensures OnTime(Take(m, a, ev), t)
  {
    var n := Take(m, a, ev);
    forall tx | tx in n.crons ensures TxOnTime(n.low.db, n.crons[tx], t) {
      assert tx in m.crons ==> TxOnTime(m.low.db, m.crons[tx], t0);
    }
  }

  lemma JobStepOnTime(m: Full, s: Locks.Step, ev: Evaluator, t0: Time, t: Time)
    requires FullInv(m, ev) && Can(m, JobStep(s), ev) && OnTime(m, t0) && t0 <= t
    ensures OnTime(Take(m, JobStep(s), ev), t)
  {
    Locks.StepRefines(m.low, s);
    var n := Take(m, JobStep(s), ev);
    if s.Commit? {
      CronsUntouched(m.low.db, Locks.EventOf(m.low.txns[s.tx]));
    } else if s.Single? {
      SingleKeepsRuns(m.low.db, s.event);
    }
    forall tx | tx in n.crons ensures TxOnTime(n.low.db, n.crons[tx], t) {
      assert TxOnTime(m.low.db, m.crons[tx], t0);
    }
  }

  lemma SingleKeepsRuns(db: Database, e: Event)
    requires e.EInsert? || e.ECreateCron? || e.ERegister?
    ensures Apply(db, e).runs == db.runs
  {
  }

  /** The runs that a firing records are those of its fires. */
  lemma {:induction false} WrittenRuns(db: Database, now: Time, scheduler: string, fires: seq<Fire>, r: RunKey)
    requires FireAll(db, now, scheduler, fires).Some? && r in FireWrites(db, now, scheduler, fires).runs
    ensures exists f :: f in fires && r == RunKey(f.cron, f.minute)
    decreases |fires|
  {
    if fires != [] {
      var n := |fires| - 1;
      FireLast(db, now, scheduler, fires);
      OneWriteIsFireOne(FireAll(db, now, scheduler, fires[..n]).value, now, scheduler, fires[n]);
      if r in FireWrites(db, now, scheduler, fires[..n]).runs {
        WrittenRuns(db, now, scheduler, fires[..n], r);
      } else {
        assert fires[n] in fires && r == RunKey(fires[n].cron, fires[n].minute);
      }
    }
  }

  /** A committing firing records runs of rows that it has locked, dated no later than itself. */
  lemma FiringRecords(db: Database, x: CronTxn, ev: Evaluator, r: RunKey)
    requires x.Firing? && CronOk(db, x, ev) && r in x.writes.runs
    ensures r.cron in x.rows && r.minute * MINUTE <= x.now
  {
    WrittenRuns(db, x.dbNow, x.scheduler, x.fires, r);
    var f :| f in x.fires && r == RunKey(f.cron, f.minute);
    assert FireReads(x, f, ev);
  }

  lemma CommitOnTime(m: Full, tx: Locks.TxId, ev: Evaluator, t0: Time, t: Time)
    requires FullInv(m, ev) && Can(m, CommitCron(tx), ev) && OnTime(m, t0) && t0 <= t
    ensures OnTime(Take(m, CommitCron(tx), ev), t)
  {
    var x := m.crons[tx];
    var n := Take(m, CommitCron(tx), ev);
    assert CronOk(m.low.db, x, ev) && TxOnTime(m.low.db, x, t0);
    forall r | r in n.low.db.runs && r !in m.low.db.runs ensures r.cron in x.rows && r.minute * MINUTE <= t0 {
      FiringRecords(m.low.db, x, ev, r);
    }
    forall u | u in n.crons ensures TxOnTime(n.low.db, n.crons[u], t) {
      assert TxOnTime(m.low.db, m.crons[u], t0) && Apart(x, m.crons[u]) && CronOk(m.low.db, m.crons[u], ev);
    }
  }

  lemma ActOnTime(m: Full, a: Act, ev: Evaluator, t0: Time, t: Time)
    requires FullInv(m, ev) && Can(m, a, ev)
    requires OnTime(m, t0) && t0 <= t && (Reading(a).Some? ==> Reading(a).value == t0)
    ensures OnTime(Take(m, a, ev), t)
  {
    match a
    case JobStep(s) => JobStepOnTime(m, s, ev, t0, t);
    case CommitCron(tx) => CommitOnTime(m, tx, ev, t0, t);
    case _ => QuietActOnTime(m, a, ev, t0, t);
  }

  lemma ActAtOnTime(fulls: seq<Full>, acts: seq<Act>, ev: Evaluator, n: nat, t0: Time, t: Time)
    requires FullInterleaving(fulls, acts, ev) && n < |acts| && OnTime(fulls[n], t0)
    requires t0 <= t && (Reading(acts[n]).Some? ==> Reading(acts[n]).value == t0)
    ensures OnTime(fulls[n + 1], t)
  {
    SchedulersRefine(fulls, acts, ev, n);
    ActOf(fulls, acts, ev, n);
    ActOnTime(fulls[n], acts[n], ev, t0, t);
  }

  lemma BeginningOnTime(t: Time)
    ensures OnTime(BEGINNING, t)
  {
  }

  lemma {:induction false} AlwaysOnTime(fulls: seq<Full>, acts: seq<Act>, ev: Evaluator, n: nat, t: Time)
    requires FullInterleaving(fulls, acts, ev) && n < |fulls| && OneClock(acts)
    requires forall i :: 0 <= i < n && Reading(acts[i]).Some? ==> Reading(acts[i]).value <= t
    ensures OnTime(fulls[n], t)
  {
    if n == 0 {
      BeginningOnTime(t);
    } else {
      var t0 := if Reading(acts[n - 1]).Some? then Reading(acts[n - 1]).value else t;
      AlwaysOnTime(fulls, acts, ev, n - 1, t0);
      ActAtOnTime(fulls, acts, ev, n - 1, t0, t);
    }
  }

  lemma OnTimeAtLatest(fulls: seq<Full>, acts: seq<Act>, ev: Evaluator, n: nat) returns (t: Time)
    requires FullInterleaving(fulls, acts, ev) && n < |fulls| && OneClock(acts)
    ensures OnTime(fulls[n], t)
  {
    t := LatestReading(acts, n);
    AlwaysOnTime(fulls, acts, ev, n, t);
  }

  lemma EffectNotEarly(m: Full, a: Act, ev: Evaluator, t: Time, c: Uuid)
    requires FullInv(m, ev) && Can(m, a, ev) && OnTime(m, t) && ActEffect(m, a) != []
    ensures !EarlyEnable(m.low.db, ActEffect(m, a)[0], c)
  {
    if a.CommitCron? {
      assert TxOnTime(m.low.db, m.crons[a.tx], t);
    }
  }

  ghost predicate NeverEarly(states: seq<Database>, events: seq<Event>, c: Uuid)
    requires |states| == |events| + 1
  {
    forall i :: 0 <= i < |events| ==> !EarlyEnable(states[i], events[i], c)
  }

  lemma NeverEarlyExtends(states: seq<Database>, events: seq<Event>, d: Database, e: Event, c: Uuid)
    requires |states| == |events| + 1 && NeverEarly(states, events, c) && !EarlyEnable(states[|events|], e, c)
    ensures NeverEarly(states + [d], events + [e], c)
  {
    var s, v := states + [d], events + [e];
    forall i | 0 <= i < |v| ensures !EarlyEnable(s[i], v[i], c) {
      assert i < |events| ==> s[i] == states[i] && v[i] == events[i];
    }
  }

  /** The run of the first n acts, in which no enabling of c is early. */
  ghost predicate NoneEarly(fulls: seq<Full>, acts: seq<Act>, ev: Evaluator, n: nat, c: Uuid)
    requires FullInterleaving(fulls, acts, ev) && n < |fulls|
  {
    Amounts(fulls, acts, ev, n) && NeverEarly(StatesOf(fulls, acts, ev, n), Serialized(fulls, acts, ev, n), c)
  }

  lemma NoneEarlyAct(fulls: seq<Full>, acts: seq<Act>, ev: Evaluator, n: nat, t: Time, c: Uuid)
    requires FullInterleaving(fulls, acts, ev) && n < |acts| && OnTime(fulls[n], t) && NoneEarly(fulls, acts, ev, n, c)
    ensures NoneEarly(fulls, acts, ev, n + 1, c)
  {
    SchedulersRefine(fulls, acts, ev, n);
    OneActMore(fulls, acts, ev, n);
    ActOf(fulls, acts, ev, n);
    var states, events, effect := StatesOf(fulls, acts, ev, n), Serialized(fulls, acts, ev, n),
        EffectAt(fulls, acts, ev, n);
    if effect == [] {
      assert events + [] == events;
    } else {
      assert effect == [effect[0]];
      EffectNotEarly(fulls[n], acts[n], ev, t, c);
      NeverEarlyExtends(states, events, fulls[n + 1].low.db, effect[0], c);
    }
  }

  lemma NoneEarlyAtFirst(fulls: seq<Full>, acts: seq<Act>, ev: Evaluator, c: Uuid)
    requires FullInterleaving(fulls, acts, ev)
    ensures NoneEarly(fulls, acts, ev, 0, c)
  {
    SchedulersRefine(fulls, acts, ev, 0);
  }

  /** If firing and enabling read one clock, then, in whatever order transactions commit, none enables a cron job at an
      instant before one of its recorded runs. */
  lemma {:induction false} OneClockNeverEnablesEarly(fulls: seq<Full>, acts: seq<Act>, ev: Evaluator, n: nat, c: Uuid)
    requires FullInterleaving(fulls, acts, ev) && n < |fulls| && OneClock(acts)
    ensures NoneEarly(fulls, acts, ev, n, c)
  {
    if n == 0 {
      NoneEarlyAtFirst(fulls, acts, ev, c);
    } else {
      OneClockNeverEnablesEarly(fulls, acts, ev, n - 1, c);
      var t := OnTimeAtLatest(fulls, acts, ev, n - 1);
      NoneEarlyAct(fulls, acts, ev, n - 1, t, c);
    }
  }

  /** Progress under interleaving: with any number of schedulers and operators on one clock, the run that a committing
      transaction fires is not recorded yet and lies after all recorded runs of its cron job, and its minute matches
      the schedule; so insertCronRun never meets a conflict. */
  lemma NoConflictOnOneClock(fulls: seq<Full>, acts: seq<Act>, n: nat, f: Fire)
    requires FullInterleaving(fulls, acts, CRON) && n < |acts| && OneClock(acts)
    requires acts[n].CommitCron? && acts[n].tx in fulls[n].crons && fulls[n].crons[acts[n].tx].Firing?
    requires f in fulls[n].crons[acts[n].tx].fires
    ensures RunKey(f.cron, f.minute) !in fulls[n].low.db.runs
    ensures forall r :: r in fulls[n].low.db.runs && r.cron == f.cron ==> r.minute < f.minute
    ensures f.cron in fulls[n].low.db.crons && MinuteMatches(fulls[n].low.db.crons[f.cron].schedule, f.minute)
  {
    OneClockNeverEnablesEarly(fulls, acts, CRON, n + 1, f.cron);
    RunShowsActs(fulls, acts, CRON, n + 1, n);
    ActOf(fulls, acts, CRON, n);
    var states, events := StatesOf(fulls, acts, CRON, n + 1), Serialized(fulls, acts, CRON, n + 1);
    var i := |Serialized(fulls, acts, CRON, n)|;
    assert events[i] == CronEventOf(fulls[n].crons[acts[n].tx]);
    CronProgress(states, events, i, f);
  }

  lemma {:induction false} LatestReading(acts: seq<Act>, n: nat) returns (t: Time)
    requires n <= |acts|
    ensures forall i :: 0 <= i < n && Reading(acts[i]).Some? ==> Reading(acts[i]).value <= t
  {
    if n == 0 {
      t := 0;
    } else {
      t := LatestReading(acts, n - 1);
      if Reading(acts[n - 1]).Some? {
        t := Max(t, Reading(acts[n - 1]).value);
      }
    }
  }
}
