# PulseQueue: a verified model of the job protocol

PulseQueue is a job queue on top of PostgreSQL. Workers claim jobs under time-limited leases, report success or
failure, and extend their leases with heartbeats; a scheduler fires cron jobs and takes expired leases back. Nothing
in the code checks the safety of this protocol in one place: `ClaimJob` never looks at `max_attempts`, `CompleteJob`
never looks at `locked_until`, and `HeartbeatWorker` extends leases that have expired. This project models the
store, the cron evaluator, the backoff arithmetic and the worker and scheduler loops, and proves what holds of every
run. `dafny verify dfyconfig.toml` checks all of it.

## How the model is built

* `Store.dfy` is the store as a class. Its fields are the tables, and its methods run each transaction statement by
  statement, with saved copies where the database would roll back. Every method is proved to have the effect that a
  function of `Transactions.dfy` gives to the tables.
* `Protocol.dfy` makes those functions into a state machine: one atomic step per transaction, in any order, with any
  arguments, clock readings and identifiers. A run starts from an empty database. Lease tokens come from an arbitrary
  source that may repeat.
* `Invariant.dfy` holds the agreement of jobs, attempts and leases, kept by every step. `Steps.dfy` says what a step
  can do to a single row. `History.dfy`, `Budget.dfy`, `Leases.dfy`, `CronRuns.dfy` and `Queues.dfy` prove facts
  about whole runs. `Progress.dfy` says exactly when cron jobs progress, `EarlyEnabling.dfy` holds a run in which one
  does not, and `LeapGap.dfy` says when firing fails and what that does to the ticks.
* `Locks.dfy` splits the job transactions into begin, lock, write and commit or abort. Any number of them interleave
  under row locks. `Firings.dfy`, with `FireWriting.dfy`, does the same for the cron transactions, on top of that
  machine, and `Schedulers.dfy` takes whole interleavings of workers and schedulers. Every interleaving is shown to be
  a run of the atomic machine whose steps are the commits in commit order, each dated when its transaction began. So a
  fact about runs holds of interleavings too; one that assumes an order of clock readings assumes it in commit order,
  which an ordered database clock does not give. `Overlap.dfy` shows what that means for the intervals of attempts.
* `Backoff.dfy` is the retry delay in 64-bit arithmetic, checked against overflow.
* `Calendar.dfy`, `CronSchedule.dfy`, `CronWindow.dfy`, `CronSyntax.dfy`, `Text.dfy` and `Keys.dfy` are the cron
  evaluator over a concrete Gregorian calendar, its parser, and the idempotency keys of cron runs. `CronTexts.dfy`
  says what some particular texts mean.
* `Queries.dfy` is `ORDER BY ... LIMIT`, `Worker.dfy` the wake channel and the drain loop, and `Scheduler.dfy` the tick.

Instants are nanoseconds since the Unix epoch, as integers. A function of the specification that has no contract of
its own (`Transactions.Claim`, say) is the meaning of the store method and of the lemmas named beside it. What it
writes is stated once more in the store methods' contracts, field by field and without these functions.

## Where the code does not do what one would expect

* Attempts can overlap under a database clock that never runs backwards: a manual retry that begins, waits for the row
  of a failing job, and then writes its own earlier date makes the job due before its last attempt ended
  (`Overlap.OverlapWitness`). A retry dated before that end is the only way (`History.AttemptsNeverOverlap`,
  `Overlap.InterleavedAttemptsNeverOverlap`), and each such retry allows it (`History.EarlyRetryOverlaps`).
* A cron job can be fired again into a recorded minute, and meet the conflict branch (`EarlyEnabling.EarlyEnableRepeats`
  is such a run). After an enabling, the next run lies after all recorded runs of the job if and only if none of these
  lies after the instant of enabling (`Progress.EnablingExactly`), and over a whole run, on any clocks, it always does
  if and only if no enabling is dated before a recorded run (`Progress.ProgressExactlyWhen`). Enabling reads the clock
  after locking the row, so one clock for all schedulers and operators excludes it (`Schedulers.NoConflictOnOneClock`).
* Backoff: the overflow guard compares with the truncated half of `MaxDelay`, so the delay is one nanosecond above
  the capped exponential when the exponential lands on `MaxDelay - 1` (`Backoff.DelayExactlyWhen`,
  `Backoff.RoundUpWitness`).
* Cron steps: `value += step` wraps at 64 bits, so `5/9223372036854775807` also collects 3 and 1. The exact condition
  is that `start + step` overflows (`CronSyntax.FieldMeansItsText`, `CronTexts.WrapWitness`).
* Cron window: a schedule whose only dates are 29 February has no next run inside the eight-year gap around a common
  century year, although it was accepted earlier. `CronWindow.NextSucceedsExactlyWhen` is the exact condition.
* One cron job without a next run rolls back the firing of all due cron jobs and ends the tick before any lease is
  recovered. A due, enabled cron job of 29 February alone therefore stops every tick while the clocks are in its gap,
  and its row stays due until it is disabled (`LeapGap.LeapGapStopsTicks`); `LeapGap.FiringFailsOnlyInLeapGap` says
  when a stored cron job can do that, and `LeapGap.LeapDayCronStopsTicks` is an instance.
* Leases: a claim renews only the lease of the claimed job. Frequent claims without heartbeats therefore do not keep
  a worker's other jobs (`Leases.ClaimsDoNotProtect`); heartbeats that come before the renewed leases end do
  (`Leases.HeartbeatsProtect`).

## Model

| member | source | states |
|---|---|---|
| Invariant.StepKeepsInv | internal/storage/storage.go:340-1383 | every transaction, whatever its arguments and outcome, keeps the agreement of jobs, attempts, leases, timestamps, budgets and unique keys |
| Invariant.RunKeepsInv | internal/storage/storage.go:1098-1383 | in every reachable state attempts are numbered 1 to attempt_count, a job runs iff its three lease columns are set, and then its last attempt alone is open and carries its token; status failed never occurs; completed_at and dead_lettered_at follow the status; a job that waits or is cancelled has an attempt left, and a dead-lettered one has none |
| Invariant.LeaseHasOneOpenAttempt | internal/storage/storage.go:1285-1299 | under a held lease exactly the last attempt is open, so the second row-count check can never fire |
| Invariant.AcceptedExactlyForHolder | internal/storage/storage.go:1265-1322 | completing and failing are accepted if and only if the token is the one the running job holds |
| Invariant.RejectedExactlyForUsedToken | migrations/0002_reliable_execution.sql:28-29 | a claim is rolled back if and only if the job has had an attempt under that token; attempt numbers never collide |
| Invariant.ClaimKeepsInv | internal/storage/storage.go:1213-1256 | a claim keeps the invariant without looking at max_attempts |
| Invariant.EndLeaseKeepsInv | internal/storage/storage.go:1258-1383 | ending a lease by success or failure keeps it |
| Invariant.RecoverKeepsInv | internal/storage/storage.go:1138-1191 | a whole recovery batch keeps it |
| Invariant.HeartbeatKeepsInv | internal/storage/storage.go:1039-1050 | extending any of the worker's leases keeps it, expired ones included |
| Invariant.FireKeepsInv | internal/storage/storage.go:893-946 | a whole firing transaction keeps it |
| Steps.StepMovesRow | internal/storage/storage.go:340-1383 | no step deletes a job, and each change of a job row is one of seven listed moves with its guard |
| Steps.NewRowsAreQueued | internal/storage/storage.go:360-365 | jobs appear only by submission or a cron fire, queued and without attempts |
| Steps.StepKeepsClosed | internal/storage/storage.go:1138-1353 | a finished attempt is never written again |
| Steps.RecoverRows | internal/storage/storage.go:1138-1191 | a recovery loop rewrites exactly its rows, each from its own old value |
| History.FencedForever | internal/storage/storage.go:1265-1322 | once a held lease is no longer held, every later completion or failure under its token is rejected and changes no table, over all continuations and even if tokens repeat |
| History.AttemptsForever | internal/storage/storage.go:1242-1249 | attempts are never deleted, their token and start never change, and a finished one never changes at all |
| History.SuccessIsFinal | internal/storage/storage.go:1258-1302 | no later step of any kind changes a succeeded job, its attempts, or how many it has |
| History.SuccessIsUnique | internal/storage/storage.go:1258-1302 | an attempt has succeeded if and only if its job has and it is the job's last attempt |
| History.SubmissionIsIdempotent | internal/storage/storage.go:360-381 | once a job has a key, every later insert with it does nothing, a lookup at any still later moment finds that job alone, and every fire of a cron transaction that derives the key gets that job, which the transaction leaves alone |
| History.BackoffIsHonoured | internal/storage/storage.go:1219-1339 | after a reported failure of attempt n, with no manual retry in between, attempt n + 1 starts no earlier than that failure plus the delay for n, for arbitrary clocks |
| History.DueTimeKept | internal/storage/storage.go:1213-1339 | a waiting job keeps its due time until it is claimed, retried by hand or cancelled |
| History.RetryIsDueExactly | internal/storage/storage.go:1324-1339 | after a reported failure with attempts left, and until the job is claimed, retried by hand or cancelled, it can be claimed at t if and only if t is at least the failure's time plus the delay |
| History.RecoveredIsDueExactly | internal/storage/storage.go:1158-1173 | in the same way a recovered job with attempts left can be claimed from the time of the recovery on |
| History.SubmittedIsDueExactly | internal/storage/storage.go:362-365 | a submitted job can be claimed in its queue, "default" if none was named, if and only if the delay asked for has passed since its submission |
| History.DeadStaysDead | internal/storage/storage.go:470-488 | a dead-lettered job changes only by a manual retry |
| History.AttemptsNeverOverlap | internal/storage/storage.go:477-1220 | for arbitrary clocks, attempt n + 1 of a job starts no earlier than attempt n finished, unless a manual retry in between takes effect although it is dated before that finish |
| History.EarlyRetryOverlaps | internal/storage/storage.go:477-1220 | such a retry does allow an overlap: a claim at its own instant starts before the last attempt finished |
| History.AttemptsEndAfterStart | internal/storage/storage.go:1098-1383 | if transactions commit in the order of their clocks, no attempt ends before it started |
| History.NoStrandedJob | internal/storage/storage.go:1111-1220 | every unfinished job has a moment from which on, and only from which on, it is claimable or its lease is recoverable |
| Budget.StepBudget | internal/storage/storage.go:470-1383 | the sum of max_attempts - attempt_count drops by one per committed claim and rises only by new jobs and dead-letter retries |
| Budget.AttemptsConserved | internal/storage/storage.go:1213-1233 | over any run, attempts granted equal attempts claimed plus attempts left, so the grants bound the claims |
| Budget.MaxAttemptsCountsRetries | internal/storage/storage.go:490-504 | max_attempts is its initial value plus the number of manual retries out of the dead letters |
| Leases.ExpiryIsLastRenewalPlusTerm | internal/storage/storage.go:1012-1120 | a running job is recoverable if and only if the lease asked for by its own claim, or by the last heartbeat that extended it, has passed since then |
| Leases.HeartbeatsProtect | internal/storage/storage.go:1039-1120 | before the end of the leases that a heartbeat of the worker and its later claims and heartbeats ask for, no recovery pass takes any of its jobs |
| Leases.ClaimsDoNotProtect | internal/storage/storage.go:1213-1233 | a worker that claimed another job less than a term ago can still lose a job it holds |
| Leases.SilenceExpires | internal/storage/storage.go:1012-1120 | once the leases that a worker's claims and heartbeats asked for are over, all its jobs are recoverable |
| Leases.PassShrinks | internal/storage/storage.go:1111-1197 | an undisturbed pass removes exactly its rows from the expired jobs; and of those that were expired at any earlier instant it removes as many as the batch takes, since leases that ended later are not taken before them |
| StoreModel.SelectedPassIsFull | internal/storage/storage.go:1111-1120 | the rows that the recovery query selects are such an undisturbed pass: as many as the batch takes, the longest expired first |
| Leases.SilentWorkerIsRecovered | internal/storage/storage.go:1098-1197 | once the leases that a worker asked for are over, enough undisturbed passes for the jobs expired by then leave no running job locked by it, whatever other clients do between the passes, as long as the leases they take or renew end later |
| Locks.StepRefines | internal/storage/storage.go:1012-1383 | every lock-level step keeps the lock discipline; a commit is the atomic step of its transaction on the tables at that moment, and other steps leave the tables alone |
| Locks.CommitIsAtomic | internal/storage/storage.go:1012-1383 | the rows written under locks are exactly those the atomic transaction writes at the moment of the commit |
| Locks.CommitKeepsLowInv | internal/storage/storage.go:1213-1233 | a commit leaves the rows that other open transactions have locked, and their attempts, as those transactions read them |
| Locks.InterleavingRefines | internal/storage/storage.go:1012-1383 | every interleaving of any number of job transactions is a run of the atomic machine whose steps are the commits in commit order, matching it state by state |
| Locks.NoTwoLiveClaims | internal/storage/storage.go:1213-1233 | in every interleaving at most one open transaction holds a job, no lease is live while a claim on the job is under way, and no job has two open attempts |
| Overlap.InterleavedAttemptsNeverOverlap | internal/storage/storage.go:477-1220 | in every interleaving, attempt n + 1 starts no earlier than attempt n finished, unless a manual retry dated before that finish commits in between |
| Overlap.OverlapWitness | internal/storage/storage.go:477-1220 | an interleaving whose transactions begin in the order of their clocks, and in which two attempts of one job overlap |
| FireWriting.FiringIsStable | internal/storage/storage.go:892-946 | the writes of a firing transaction do not depend on what others commit, as long as its cron rows, their runs and its keys stay |
| Firings.CronCommitIsAtomic | internal/storage/storage.go:803-948 | what a firing or enabling transaction has written under its locks is what the atomic transaction writes at the moment of the commit |
| Firings.ActRefines | internal/storage/storage.go:803-948 | every act of a job or cron transaction keeps the lock discipline, with distinct cron rows, uncommitted identifiers and uncommitted keys; each commit is one atomic step with the evaluator's answers |
| Schedulers.SchedulersRefine | internal/storage/storage.go:803-1383 | every interleaving of any number of workers, schedulers and operators is a run of the atomic machine whose steps are the commits in commit order |
| Schedulers.OneClockNeverEnablesEarly | internal/storage/storage.go:815-857 | if the clock readings of firing and enabling come from one clock, then in whatever order transactions commit, none enables a cron job at an instant before one of its recorded runs |
| Schedulers.NoConflictOnOneClock | internal/storage/storage.go:892-946 | on one clock, with any number of schedulers and operators, the run that a transaction fires is not recorded yet, lies after all recorded runs of its cron job, and matches its schedule |
| CronRuns.CronRunsAtMostOnce | internal/storage/storage.go:893-948 | for arbitrary clocks, each (cron job, minute) has at most one run, its job carries that pair's key, and distinct runs have distinct jobs |
| CronRuns.AlwaysEvaluated | internal/storage/storage.go:803-946 | whatever the clocks do, every stored next run is the evaluator's answer for the job's last evaluation |
| Progress.RunsAlwaysAdmitted | internal/storage/storage.go:892-946 | for arbitrary clocks, every recorded run of a cron job is a minute that its schedule admits |
| Progress.NextAfterRunsExactly | internal/storage/storage.go:929-946 | after an evaluation, the stored next run lies after all recorded runs of the job if and only if none of these lies after the instant of the evaluation |
| Progress.EnablingExactly | internal/storage/storage.go:815-836 | after enabling, the next run lies after all recorded runs of the job if and only if none of these lies after the instant of enabling |
| Progress.RunsPrecedeEvaluation | internal/storage/storage.go:803-946 | no recorded run of a cron job lies after its last evaluation, unless the job was enabled at an instant before a recorded run; firing clocks are arbitrary |
| Progress.ProgressExactlyWhen | internal/storage/storage.go:803-946 | over a whole run on any clocks, the next run of a cron job lies after its recorded runs in every state if and only if no enabling was dated before a recorded run |
| Progress.CronProgress | internal/storage/storage.go:892-946 | on any clocks, a fire's minute matches the schedule and is the first match after the job's previous evaluation; it lies strictly after all recorded runs if and only if none of these lies after that evaluation; and if no enabling was dated before a recorded run, the conflict branch of insertCronRun is not taken |
| EarlyEnabling.EarlyEnableRepeats | internal/storage/storage.go:820-836 | a reachable run of four transactions: create, fire, enable at an instant before that fire's minute, and fire that minute once more |
| CronRuns.AnswerIsNextMatch | internal/cronexpr/cronexpr.go:54-71 | an evaluator's answer is a whole minute after the instant, matches the parsed schedule, and nothing in between does |
| CronRuns.FireThisCron | internal/storage/storage.go:893-946 | firing a batch stores each cron job's next run and adds at most that minute's run |
| CronRuns.FiresWritten | internal/storage/storage.go:893-943 | for each fire, a committed transaction leaves the job that has the key alone, or queues one with the cron job's queue, priority and attempts, due at the transaction's time; it records the run unless it was recorded; and it stores the fired minute and the next run |
| CronRuns.FireWritesOnly | internal/storage/storage.go:893-943 | it writes nothing else |
| LeapGap.FiringFailsOnlyInLeapGap | internal/storage/storage.go:892-948 | a firing transaction in a reachable state fails, undoing all its fires, if and only if one of its cron jobs names only 29 February and the evaluating clock lies in the leap-day gap, or the identifier drawn for a new job is taken |
| LeapGap.StoredScheduleFailsOnlyInLeapGap | internal/storage/storage.go:929-932 | whatever the clocks do, a stored cron job has no next run at an instant if and only if it is in that gap |
| LeapGap.StaysStuck | internal/storage/storage.go:803-948 | while the clocks of cron transactions find a due cron job without a next run, nothing but disabling changes its row, and no other cron job comes to be due before it |
| LeapGap.LeapGapStopsTicks | internal/scheduler/scheduler.go:76-144 | once such a cron job is enabled and among the first batch, every tick fails in every later state of the run, changing nothing and recovering no lease, while the clocks are in the gap |
| LeapGap.LeapDayCronStopsTicks | internal/scheduler/scheduler.go:76-100 | with the one cron job "0 0 29 2 *", every tick fails from 29 February four years before a common century until 1 March three years later |
| CronRuns.CronNamesUnique | migrations/0004_cron_cli_logs.sql:23 | in every reachable state a cron job's name belongs to it alone |
| Backoff.Normalize | internal/storage/storage.go:1385-1396 | the result has 0 < InitialDelay <= MaxDelay, a policy that already has is unchanged, and missing delays become 2 s and 30 s |
| Backoff.DelayForAttempt | internal/storage/storage.go:1398-1414 | the guarded doubling loop never overflows 64 bits; its result is the capped exponential if and only if the exponential is not MaxDelay - 1, and is MaxDelay in that case |
| Backoff.ExponentialClosedForm | internal/storage/storage.go:1403-1409 | the exponential is InitialDelay * 2^(n-1) |
| Backoff.HalvedGuard | internal/storage/storage.go:1405-1407 | once the guard holds, every later delay is exactly MaxDelay |
| Backoff.DelayBoundedAndMonotone | internal/storage/storage.go:1398-1414 | delays lie between the normalized bounds and never shrink with the attempt number |
| Backoff.DelayExactlyWhen | internal/storage/storage.go:1403-1413 | the delay is min(MaxDelay, InitialDelay * 2^(n-1)) if and only if n = 1 or that power is not MaxDelay - 1; an even MaxDelay is always exact |
| Backoff.RoundUpWitness | internal/storage/storage.go:1405-1407 | 1 ns doubling towards 3 ns waits 3 ns where the capped exponential is 2 |
| CronSchedule.MatchesClock | internal/cronexpr/cronexpr.go:73-90 | the computed match agrees with the calendar; at a listed minute, hour and month it holds always if both day fields are literal stars, by the other field alone if one is, and if neither is, exactly when the day of the month or the weekday is listed |
| CronSchedule.Search | internal/cronexpr/cronexpr.go:65-70 | the minute loop returns the least matching minute of the closed window |
| CronSchedule.Next | internal/cronexpr/cronexpr.go:62-71 | the method returns that minute's instant for the window of five calendar years |
| CronSchedule.NextIsLeastMatch | internal/cronexpr/cronexpr.go:62-71 | success is minute-aligned, strictly later, a match and the least one; failure holds iff no minute from start to deadline matches |
| CronSchedule.NextSkipsNoListedDay | internal/cronexpr/cronexpr.go:62-90 | up to the answer, a minute at a listed time falls on a day listed by either day field that is not a star, or both are stars, if and only if it is the answer |
| CronSchedule.NextMonotone | internal/cronexpr/cronexpr.go:62-71 | a later argument never gives an earlier answer |
| CronSchedule.DeadlineMonotone | internal/cronexpr/cronexpr.go:63-64 | deadlines are ordered like starts, except from 29 February to the following day |
| CronWindow.NextSucceedsExactlyWhen | internal/cronexpr/cronexpr.go:62-90 | for every well-formed schedule and instant, success iff the weekday can decide, or a listed day exists every year, or 29 February is listed and the start lies outside the gap around a common century |
| CronWindow.AcceptedScheduleKeepsFiring | internal/cronexpr/cronexpr.go:62-71 | a schedule with an answer once has one at any other instant, except inside that gap |
| CronWindow.NextComesSoon | internal/cronexpr/cronexpr.go:62-71 | the answer comes by the end of the next calendar year or is a 29 February |
| CronWindow.NextStable | internal/cronexpr/cronexpr.go:62-71 | Next(b) = Next(a) for a <= b < Next(a), although the deadline can move backwards |
| CronTexts.LeapDayTextGoesSilent | internal/cronexpr/cronexpr.go:62-71 | the text "0 0 29 2 *" has a next run on 1 January four years before every common century, and none from that run until 1 March three years later |
| CronSyntax.ItemGrammar | internal/cronexpr/cronexpr.go:102-178 | an item is accepted with given bounds and step iff a declarative grammar derives it with that meaning |
| CronSyntax.AtoiReadsNumerals | internal/cronexpr/cronexpr.go:169-178 | Atoi reads exactly the unsigned or plus-signed numerals that fit 64 bits, when no minus sign occurs |
| CronSyntax.LoopStep | internal/cronexpr/cronexpr.go:125-131 | the value loop terminates even when its variable wraps around |
| CronSyntax.ItemExactlyWhen | internal/cronexpr/cronexpr.go:125-131 | an item's loop collects exactly start + k * step up to end iff start + step does not overflow; otherwise it adds a negative value |
| CronTexts.WrapWitness | internal/cronexpr/cronexpr.go:92-138 | the minute field of the text "5/9223372036854775807" is accepted and holds 3 and 1, which the text does not stand for |
| CronSyntax.FieldExactlyWhen | internal/cronexpr/cronexpr.go:102-132 | the set of a list of items is the union of their normalized progressions iff no item's first step overflows |
| CronSyntax.FieldMeansItsText | internal/cronexpr/cronexpr.go:92-138 | an accepted field holds exactly the values that its text stands for under the grammar, iff no list item's first step overflows |
| CronSyntax.DenotedInRange | internal/cronexpr/cronexpr.go:125-131 | every denoted value lies in the field's range, weekdays from 0 to 6 |
| CronSyntax.FieldHoldsStart | internal/cronexpr/cronexpr.go:134-136 | the first item's start is always collected, so "field has no values" is never returned |
| CronSyntax.FieldAccepted | internal/cronexpr/cronexpr.go:92-138 | a field is accepted iff each list item is derived by the grammar, and it then holds a value of its range |
| CronSyntax.AddItemValues | internal/cronexpr/cronexpr.go:125-131 | the inner loop adds exactly the item's loop values, normalized |
| CronSyntax.ParseField | internal/cronexpr/cronexpr.go:92-138 | the nested loops compute the field that the specification gives, or reject |
| CronSyntax.Parse | internal/cronexpr/cronexpr.go:24-52 | the method computes the schedule that the expression stands for, or rejects |
| CronSyntax.ExpressionMeansItsTokens | internal/cronexpr/cronexpr.go:24-138 | an expression is accepted iff it has five tokens whose list items are in the grammar for 0-59, 0-23, 1-31, 1-12 and 0-7, in this order; minute, hour, day, month and weekday then stand for their own tokens: exactly their values iff no first step overflows, and a star iff the token is one |
| CronSyntax.ScheduleOfTokens | internal/cronexpr/cronexpr.go:24-138 | the same for five tokens with single spaces between them |
| CronSyntax.ParsedIsWellFormed | internal/cronexpr/cronexpr.go:24-52 | every accepted expression satisfies the hypothesis of the window theorem |
| Calendar.CivilDate | internal/cronexpr/cronexpr.go:73-79 | the computed date is valid and has the given day number, for every day, before and after the epoch |
| Calendar.DateRoundTrip | internal/cronexpr/cronexpr.go:73-79 | day numbers and valid dates correspond one to one |
| Calendar.YearStartClosedForm | internal/cronexpr/cronexpr.go:73-79 | the day count of a year's start, defined year by year, has the usual closed form |
| Calendar.AddFiveYears | internal/cronexpr/cronexpr.go:64 | AddDate(5, 0, 0) keeps month, day and time of day, and turns 29 February into 1 March |
| Calendar.EpochIsThursday | internal/cronexpr/cronexpr.go:73-79 | minute 0 is midnight on Thursday, 1 January 1970, and every minute has its day, hour, minute and weekday counted from there |
| Calendar.NextDay | internal/cronexpr/cronexpr.go:73-79 | the date after a date is the next of its month, the first of the next month, or the next 1 January |
| Calendar.MonthTable | internal/cronexpr/cronexpr.go:73-79 | month lengths agree with the table of days before each month |
| Text.JoinSplit | internal/cronexpr/cronexpr.go:102-109 | joining the pieces of a split gives the string back |
| Text.SplitJoin | internal/cronexpr/cronexpr.go:102-109 | splitting recovers joined pieces free of the separator |
| Text.FieldsOfTokens | internal/cronexpr/cronexpr.go:25-28 | tokens written with single spaces between them are found again |
| Text.FieldsOneToken | internal/cronexpr/cronexpr.go:25-28 | a token at the end of the text or before white space is the next field, whatever follows |
| Text.FieldsSkipSpace | internal/cronexpr/cronexpr.go:25-28 | white space before the tokens does not matter |
| Text.TrimSpaceCuts | internal/storage/storage.go:744-747 | trimming takes white space off both ends and nothing else |
| Text.AtoiOfDecimal | internal/cronexpr/cronexpr.go:169-178 | decimal numerals, padded or not, are read back |
| Keys.CronKeyInjective | internal/storage/storage.go:1600-1602 | two keys are equal iff cron job and minute are |
| Keys.Rfc3339Injective | internal/storage/storage.go:1600-1602 | the time text determines the minute |
| Keys.UuidTextInjective | internal/storage/storage.go:1600-1602 | the canonical text determines the identifier |
| Queries.Select | internal/storage/storage.go:1111-1120 | the answer of a sorted, limited query: distinct candidates, sorted, as many as allowed, none passed over |
| Queries.SelectNames | internal/storage/storage.go:954-961 | the first names of a set in a total order, as many as the limit allows, each before the next and before those left out |
| Queues.ColumnsMissFailed | internal/storage/storage.go:571-590 | total_jobs is the sum of the six columns plus the number of failed jobs |
| Queues.ColumnsSumToTotal | internal/storage/storage.go:571-590 | in every reachable state the six columns sum to total_jobs |
| Queues.ColumnsFollowRows | internal/storage/storage.go:571-590 | the columns of the empty store are zero, and writing a row takes it out of the column of its old status and puts it into that of its new one |
| StoreModel.Store.CreateJob | internal/storage/storage.go:340-381 | creates, finds the job of the key, or rejects, each under its exact condition; the new row is given field by field, it can be claimed from now plus the delay on, and nothing else changes |
| StoreModel.Store.ClaimJob | internal/storage/storage.go:1199-1256 | claims a due job of the queue before which no other comes, by priority descending, available_at and created_at, and gives it the lease and a new attempt, field by field; reports that nothing is due; or rolls back when the token is rejected |
| StoreModel.FirstInClaimOrder | internal/storage/storage.go:1215-1223 | a job is first in the model's claim order if and only if it is due and no due job of the queue has a higher priority, is due earlier at the same priority, or is older at the same priority and due time |
| StoreModel.Store.CompleteJob | internal/storage/storage.go:1258-1302 | succeeds exactly when the transaction does, with the job's and the attempt's new fields, and otherwise undoes the job update |
| StoreModel.Store.FailJob | internal/storage/storage.go:1304-1383 | under the fencing conditions a job with attempts left is scheduled for exactly now plus its delay, another is a dead letter, both with the message; the open attempt fails with it; or nothing changes |
| StoreModel.Store.RecoverExpiredJobs | internal/storage/storage.go:1098-1197 | takes the leases that ended first, the older job first of two that ended together, up to the batch; each job with attempts left is due at once, another is a dead letter, and their open attempts fail, field by field; the rows are an undisturbed pass |
| StoreModel.Store.HeartbeatWorker | internal/storage/storage.go:1012-1052 | rejects blank and unknown workers; else updates the worker row and extends every lease it holds if the term is positive |
| StoreModel.Store.RegisterWorker | internal/storage/storage.go:978-1010 | rejects a blank identifier; else records the worker as running |
| StoreModel.Store.RetryJob | internal/storage/storage.go:470-520 | succeeds iff the job is failed, dead-lettered or cancelled, and requeues it with at least one attempt left |
| StoreModel.Store.CancelJob | internal/storage/storage.go:522-569 | succeeds iff the job waits, and cancels it |
| StoreModel.Store.CreateCronJob | internal/storage/storage.go:743-779 | with its texts trimmed, succeeds iff the parameters are valid, the name is new and the schedule has a next run; the stored row is given field by field |
| StoreModel.Store.FindCron | internal/storage/storage.go:1558-1573 | finds the cron job with the identifier that the reference reads as, or else one with that name, or reports that there is none |
| StoreModel.Store.SetCronJobEnabled | internal/storage/storage.go:803-843 | rejects a blank or unknown reference; enabling needs and stores a new next run, disabling clears the flag and keeps the old one |
| StoreModel.Store.FireRows | internal/storage/storage.go:893-943 | the loop's effect is that of the fires in order, each answered from the rows as first read |
| StoreModel.Store.FireDueCronJobs | internal/storage/storage.go:845-948 | fires the earliest due cron jobs up to the batch, all or none, and reports exactly the runs it inserted |
| StoreModel.FiringOrder | internal/storage/storage.go:868-876 | the cron jobs fired are due and enabled, each once, the earliest next run first, as many as the batch allows, and none left out comes before one of them |
| StoreModel.FiringOnFields | internal/storage/storage.go:892-943 | each fire is for the minute of the stored next run, under that minute's key; its rows are written and the next run after the evaluating clock is stored |
| StoreModel.Store.ListDueQueues | internal/storage/storage.go:950-976 | returns queues that hold a waiting job whose time has come, the first in collation order, as many as the limit allows, and all of them when they are fewer |
| Worker.WakeChannel.SignalWake | internal/worker/worker.go:157-165 | whatever slots take between the separate sends, what is buffered afterwards and what was taken make up at least a full buffer |
| Worker.TokensBecomeClaims | internal/worker/worker.go:157-195 | over all interleavings of slots and of the separate sends of signals, tokens leave the buffer only into drains, and each drain begins with a claim |
| Worker.NoLostWakeup | internal/worker/worker.go:157-195 | once a signal is over, the drains started since it began and the tokens still buffered are at least as many as the buffer holds; with an empty buffer and no slot about to claim, so are the claims |
| Worker.ExecutedIsNotDue | internal/worker/worker.go:184-200 | a job whose execution is reported at or after an instant is not due at that instant, whatever its outcome |
| Worker.Execute | internal/worker/worker.go:246-257 | under a held lease the report of the outcome is accepted and changes only that job's row |
| Worker.ClaimAndExecute | internal/worker/worker.go:186-193 | a claim followed by its execution turns the first due job into its executed form, and changes no other job |
| Worker.Drain | internal/worker/worker.go:184-200 | with no other actor, on any clock and whatever the handlers' outcomes: each turn executes the job that is first in claim order at that moment; the attempts left to all jobs bound the turns, so the drain ends, with nothing due or at a rejected token |
| Worker.DrainInOrder | internal/worker/worker.go:184-193 | the job that a turn executes was due in the queue then, and no due job came before it by priority descending, available_at and created_at |
| Worker.FixedDueSet | internal/worker/worker.go:184-200 | a drain whose claims see one instant executes jobs that were due then, each once, and any two of them in the order priority descending, available_at, created_at; when nothing is due any more it has executed them all |
| Scheduler.AddFired | internal/scheduler/scheduler.go:88-100 | collects the queues of the newly fired jobs |
| Scheduler.AddRecovered | internal/scheduler/scheduler.go:103-132 | collects the queues of recovered jobs that wait, not of dead letters |
| Scheduler.AddDue | internal/scheduler/scheduler.go:134-142 | adds only queues with due work, and all of them when they fit the limit |
| Scheduler.Tick | internal/scheduler/scheduler.go:76-144 | with other clients acting between its transactions: fires, then recovers, then signals exactly the queues with a reason when those due fit the batch; a firing error changes nothing and ends the tick |

## Left out

- HTTP routes, the command line, authentication, JSON, metrics, tracing and job logs: plumbing around the store.
- NATS delivery: a published signal is a call of `SignalWake`; failed publishing is not modelled.
- Job type, payload, timeout and trace columns, row identifiers of attempts and runs, `duration_ms`, and the creation and update times of cron jobs: no modelled decision reads them.
- Interval literals are exact: the `%f` formatting of durations, which rounds to microseconds, is not modelled.
- `attempt_count`, `max_attempts` and instants are unbounded integers; `FailJob` therefore uses the delay function that `Backoff.DelayForAttempt` is proved to compute rather than calling the 32-bit method.
- Whether a payload is valid JSON is a parameter, and so is the reading of identifiers from text; a worker's queue list is taken as already normalized.
- Connection errors and cancelled contexts: an aborted transaction changes nothing, which the lock-level machines allow at every moment.
- Ties in the sort orders of the claim and recovery queries, and the order of names among cron jobs due at one instant, are left open.
- StoreModel.Store.FireDueCronJobs: takes the identifiers of new jobs as a parameter, at least as many as the largest batch.
- Worker.Drain: no other actor acts on the store meanwhile; a handler is a success or a message.
- Leases.HeartbeatsProtect: speaks of heartbeats that reach every lease of the worker; a heartbeat racing with an open claim can miss that claim's row, whose lease is then as fresh as the claim.
- Leases.SilentWorkerIsRecovered: counts the passes whose query skips no locked row.
- LeapGap.LeapGapStopsTicks: speaks of ticks whose firing query skips no locked row; one that skips the cron job because another transaction has it locked may go through.
- Locks.InterleavingRefines: a query with SKIP LOCKED may return any free row that qualifies; claim order is stated for the store method.
- Firings.ActRefines: the three statements of one fire are one act, and the upsert's lock on the row of a known job is not modelled, which only allows more interleavings; submissions, worker registration and the creation of cron jobs are single statements and single steps.
- `active_workers` and `oldest_available_at` of the queue summaries.
- Recovery under a reused worker identifier, worker shutdown statuses and the listing queries for jobs, workers and cron jobs.
