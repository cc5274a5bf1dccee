# Kindling, modelled and proved in Dafny

Kindling runs applications as micro-VMs on a small cluster of servers that share one database. This
project models the parts of it where correctness is hardest to see from the code, and proves what each
of them promises. `dafny verify dfyconfig.toml` checks everything.

| module | what it models |
|---|---|
| `Migration` | live migration of an instance: the database row, both servers' handlers, every interleaving |
| `Scheduler` | the reconcile scheduler: tick loop, bounded work channel, worker pool |
| `Instances`, `Deployer` | convergence of a deployment's instance rows: surge, warm pool, evacuation |
| `TieBreaks` | what the cuts by age may do with rows that were created at the same time |
| `RowFields` | what a pass does to a single row, field by field |
| `JobOrder`, `JobRun` | CI workflows: ordering jobs by `needs`, compiling a plan and running it |
| `BoolExpr` | the tokenizer and evaluator of `if:` conditions |
| `Interpolate` | `${{ ... }}` substitution |
| `Autoscale` | replica targets from HTTP and CPU signals |
| `RateLimit` | the fixed-window request limiter |
| `Routes` | the edge proxy's route table |
| `HttpFraming`, `ShellQuote` | the builder VM's exec endpoint: reading a request, quoting a command line |
| `Text`, `Options` | the Go string functions and the optional value that the others use |

Concurrency is modelled as step systems: a state, the steps that are possible in it, and runs that take
any possible step at any time. Objects that the source updates in place are classes whose methods are
proved against functions on values, and the theorems are about those functions. Clocks, metrics, probes,
runtime calls, expression values and the order in which Go yields map keys are parameters or arbitrary
choices, so every theorem holds for all of them.

## What turned out not to hold

Where the code, its comments or the obvious expectation fail, the model follows the code, a lemma gives a
case, and an if-and-only-if says exactly when the property does hold.

- A migration that has ended may still move the instance. The status updates are unconditional, so a
  transfer in flight revives an aborted or fallen-back row (`EndedMigrationStillMovesIff`,
  `TimedOutMigrationStillMoves`), and an abort in flight overwrites a completed one
  (`CompletedIsFinalIff`, `CompletedIsOverwritten`).
- The comment on `Schedule` says the latest schedule always wins. After a failed reconcile the retry time
  replaces it (`RescheduledInFlight`).
- A warm-pool row is counted as if it could take over from an instance on a draining server, yet is
  promoted only when too few rows are active. A deployment in that position is never evacuated
  (`StalledForever`, `StallHappens`, `AlwaysCoversIff`).
- Excess rows are cut by age alone, so a ready row may be deleted while an older one that is not ready
  stays: in the surge of a pass (`SurgeCutsReadyRow`) and in its retirement (`RetirementCutsReadyRow`).
  Rows created in one transaction share their creation time and may be cut in either order; the
  conditions say when every order leaves enough ready rows (`SurgeKeepsReadyIff`,
  `RetirementKeepsReadyIff`, `PassKeepsReadyIff`).
- A condition whose left operand is the literal `(` or `always` is rejected, because token texts are
  compared without their kinds (`PrintedMeansTreeIff`, `ParenLiteralRejected`).
- Substituted values are scanned again. On an input that a single pass expands to a text, the code agrees
  exactly when that text holds no opening `${{` (`AgreesIff`); inert values on the input suffice
  (`MetAgrees`). On an input that ends in an error the same condition suffices (`OpenFreeAgrees`) but is not
  needed (`ErrorsMayCoincide`). A self-reference never ends (`SelfReferenceNeverEnds`).
- The limiter admits up to twice its quota less one within one window's length (`IntervalAdmitsAtMost`,
  `BoundIsMet`). A limit below one admits one request and reports a negative number remaining
  (`RemainingIff`). Its clock is read before its lock is taken. Readings that are used late exceed that bound
  (`LateReadingsExceed`) and let a cleanup change an answer (`LateReadingsShowCleanup`). While they are less
  than a window late another bound holds (`DelayedIntervalAdmitsAtMost`); readings a whole window late leave
  none (`NoBoundWhenVeryLate`).
- Whether a large HTTP request is accepted depends on how its bytes are split into reads, exactly in a band
  just below the size limit (`ChunkingIrrelevantIff`, `RequestIsFramedIff`, `BandHappens`), and on whether
  the last read also reports the end of the stream (`EofWithDataIff`). A `Content-Length` near the largest
  integer overflows (`CrashesIff`, `CrashHappens`).

## Model

| member | source | states |
|---|---|---|
| Migration.StepKeepsInv | internal/migrationreconcile/reconcile.go:42-399 | every step of either server, in any interleaving, keeps the relation between row state, handlers, instance and VM rows |
| Migration.InstanceAlwaysLive | internal/migrationreconcile/reconcile.go:185-399 | after any run the instance points to a live VM row on its own server, with the workload and status it started with |
| Migration.LiveVmsConserved | internal/migrationreconcile/reconcile.go:314-399 | no run leaks or loses a live VM row: the instance's old one is exchanged for its new one and all others stay |
| Migration.StepExchangesLiveVm | internal/migrationreconcile/reconcile.go:314-399 | a single step either leaves the live VM rows alone or exchanges the instance's row for a fresh one |
| Migration.SourceVmDiesOnlyInMove | internal/migrationreconcile/reconcile.go:340-399 | the source VM row dies in exactly the step that moves the instance, which is the commit and completes the migration |
| Migration.AtMostOneCommit | internal/migrationreconcile/reconcile.go:314-399 | no run commits twice, and the instance has moved if and only if a commit happened |
| Migration.TerminalIsFinalIff | internal/migrationreconcile/reconcile.go:42-90 | a reachable terminal state stays terminal on every continuation exactly when the source is not transferring |
| Migration.CompletedIsFinalIff | internal/migrationreconcile/reconcile.go:165-183 | a completed migration stays completed on every continuation exactly when no server has an abort in flight |
| Migration.CompletedIsOverwritten | internal/migrationreconcile/reconcile.go:42-90 | every migration can complete with another server's abort in flight and then not stay completed |
| Migration.EndedMigrationStillMovesIff | internal/migrationreconcile/reconcile.go:285-399 | an ended migration can still move the instance exactly when a transfer is in flight or the destination has already read the received state |
| Migration.TimedOutMigrationStillMoves | internal/migrationreconcile/reconcile.go:42-90 | every migration can reach the state where it has fallen back and yet still moves |
| Migration.NeverAbortedOnTime | internal/migrationreconcile/reconcile.go:63-75 | in every run in which no reading of the row comes after a stored deadline, no server has an abort in flight, the row is never aborted, and it falls back only after a failed finalize |
| Migration.ReadingBegins | internal/migrationreconcile/reconcile.go:42-90 | from every reachable state an idle server that reads the row begins an abort exactly when it reads sending with a stored deadline that has passed, and prepares, sends or commits exactly by state and server; reading writes nothing |
| Migration.RowIsLastWrite | internal/migrationreconcile/reconcile.go:92-399 | whatever the interleaving, the row's state and deadline are those written last, going by the outcomes of the steps alone |
| Migration.RootfsAfterMove | internal/migrationreconcile/reconcile.go:314-399 | in every run the instance has the root file system that the commit reported, or its old one if that was blank or nothing was committed |
| Scheduler.StepKeepsExclusive | internal/reconciler/reconciler.go:86-177 | every step keeps queued and busy ids distinct, disjoint and equal to the running set, within capacity |
| Scheduler.NeverTwiceAtOnce | internal/reconciler/reconciler.go:127-177 | in every run no id is reconciled by two workers, or queued while being reconciled, and no more workers are busy than exist |
| Scheduler.StepLosesIff | internal/reconciler/reconciler.go:86-177 | a step drops a tracked id exactly when it schedules an idle id at the zero time |
| Scheduler.NeverLost | internal/reconciler/reconciler.go:127-177 | an id once scheduled stays scheduled or running through every run that does not schedule it at the zero time |
| Scheduler.InFlightScheduleKept | internal/reconciler/reconciler.go:127-150 | a due time set while its id is being reconciled survives ticks and every other id's steps |
| Scheduler.RescheduledInFlight | internal/reconciler/reconciler.go:83-91 | the due time after an in-flight reschedule, for success and failure, and exactly when it is the requested one |
| Scheduler.DueAfterFinish | internal/reconciler/reconciler.go:152-177 | the due time after a reconcile, from the one held at any time in flight: retry time, re-check time or the time asked for |
| Scheduler.ScheduleWaits | internal/reconciler/reconciler.go:83-91 | for idle and running ids alike the time asked for is the due time through every run that neither reschedules nor finishes the id nor begins a tick when it is due |
| Scheduler.ScheduledIsRun | internal/reconciler/reconciler.go:83-150 | the first tick at or after that time, with room, runs an idle id |
| Scheduler.FirstInFirstOut | internal/reconciler/reconciler.go:127-177 | over every run workers receive ids in the order in which ticks had them begin |
| Scheduler.ClosedOnlyDrains | internal/reconciler/reconciler.go:99-125 | after shutdown no tick begins and workers receive exactly what was queued, in order |
| Scheduler.TickHandlesAllDue | internal/reconciler/reconciler.go:127-150 | a tick leaves every due idle id running or put off one second, and no other id's due time changed, in any visiting order and with workers interfering |
| Scheduler.TickWithRoomRunsAllDue | internal/reconciler/reconciler.go:127-150 | with room for all entries a tick puts nothing off |
| Scheduler.ReconcileScheduler.constructor | internal/reconciler/reconciler.go:61-81 | starts in the initial state with the documented defaults |
| Scheduler.ReconcileScheduler.Reschedule | internal/reconciler/reconciler.go:86-91 | stores the time asked for, whatever was there, changes nothing else, and performs the schedule step |
| Scheduler.ReconcileScheduler.Receive | internal/reconciler/reconciler.go:155-155 | performs the take step: a worker receives the next id |
| Scheduler.ReconcileScheduler.Complete | internal/reconciler/reconciler.go:161-175 | performs the finish step: retry time on failure, re-check time only if none was set |
| Scheduler.ReconcileScheduler.VisitEntry | internal/reconciler/reconciler.go:131-148 | performs the visit step for one id, with a full channel handled |
| Scheduler.ReconcileScheduler.DispatchDue | internal/reconciler/reconciler.go:127-150 | the scan is a run that begins a tick, visits every id once and ends it, with worker steps in between |
| Instances.SurgeCounts | internal/deploy/deploy.go:331-374 | the exact number of active, warm and promoted rows after a surge, from the numbers before it |
| Instances.SurgeBounds | internal/deploy/deploy.go:331-374 | at least the wanted number active, at most one more per draining row, the surge target reached with warm rows, draining rows untouched |
| Instances.SurgeCoversIff | internal/deploy/deploy.go:331-374 | with distinct creation times, the wanted number lies off draining servers after a surge exactly under a condition on the rows before it: enough active ones, or no warm one that counts, or none draining and none of the warm rows next for promotion on a draining server |
| Instances.SurgeCoversIffCounts | internal/deploy/deploy.go:331-374 | without warm rows on draining servers the numbers of active, warm and draining rows decide that, whatever the ages |
| Instances.PromotedWereWarm | internal/deploy/deploy_scaling.go:176-228 | promotion puts no active row on a draining server unless a warm row was there |
| Instances.SurgeFixedIff | internal/deploy/deploy.go:331-374 | a surge leaves the rows unchanged exactly on idle tables, described by their counts |
| Instances.SurgeTwice | internal/deploy/deploy.go:331-374 | a second surge changes nothing unless the first promoted rows on draining servers |
| Instances.RetirementLeaves | internal/deploy/deploy.go:378-411 | otherwise no draining row is left and the active rows are the off-draining ones cut to the wanted number |
| Instances.StrengthKeptIff | internal/deploy/deploy_evacuation.go:86-142 | the wanted number is still ready after retirement exactly when every spared row was ready |
| Instances.StrengthKeptIffOldestReady | internal/deploy/deploy_evacuation.go:97-122 | with distinct creation times the outcome is determined: exactly when every row with fewer older ones than the wanted number is ready |
| Instances.SurgeKeepsStrengthIff | internal/deploy/deploy_evacuation.go:86-142 | with distinct creation times a surge keeps the wanted number ready exactly when that many ready rows are on draining servers or among the oldest elsewhere |
| Instances.PassReadyIff | internal/deploy/deploy.go:279-411 | with distinct creation times, after a pass the wanted number is ready off draining servers exactly when it was before retirement and the oldest rows there were all ready |
| Instances.SurgeCutsReadyRow | internal/deploy/deploy_evacuation.go:97-122 | for every pair of an older pending and a newer ready row a whole pass whose surge deletes the ready one |
| Instances.RetirementCutsReadyRow | internal/deploy/deploy.go:378-411 | for every such pair with the older row on a draining server a whole pass whose retirement does |
| TieBreaks.OldestIff | internal/deploy/deploy_evacuation.go:97-122 | whatever the creation times, the choices of the n oldest rows are exactly the sets of n rows with every row that has at most n rows as old or older and no row that has n strictly older ones |
| TieBreaks.ContestedShareAge | internal/deploy/deploy_scaling.go:86-113 | the rows that some choices hold and others do not were created at the same time |
| TieBreaks.RetirementKeepsReadyIff | internal/deploy/deploy.go:378-411 | every retirement leaves the wanted number ready exactly when every row off draining servers with fewer strictly older ones than that is ready |
| TieBreaks.SurgeKeepsReadyIff | internal/deploy/deploy_evacuation.go:86-142 | every surge keeps the wanted number ready exactly when that many are ready on draining servers, among the rows that every cut spares, and among those of the contested age when its unready rows are spared first |
| TieBreaks.PassKeepsReadyIff | internal/deploy/deploy.go:279-411 | a pass that is not deferred ends with the wanted number ready off draining servers, whichever rows of one age its retirement takes, exactly when that many were ready before and the oldest rows there, ties included, all were |
| TieBreaks.AlwaysCoversIff | internal/deploy/deploy.go:331-374 | every surge leaves the wanted number off draining servers exactly when enough rows are active, or no warm one counts, or none is draining and no warm row that pruning and promotion could choose is on a draining server |
| Instances.RepairFrees | internal/deploy/deploy_scaling.go:17-46 | repair loses no row, leaves none on an unavailable server, makes the stuck ones active, and is idle exactly when none is stuck |
| RowFields.ZeroCleansUp | internal/deploy/deploy_scaling.go:48-83 | scaling to zero keeps, beside the earlier warm rows, exactly the active rows whose undeleted VM ran on this server and was suspended, with server and age, the newest up to the budget; the others are gone |
| RowFields.CutCleansUp | internal/deploy/deploy_evacuation.go:86-142 | a scale-down does the same to the rows that it takes and leaves all other rows as they are |
| RowFields.SurgeRowByRow | internal/deploy/deploy.go:331-374 | each row after a surge, field by field: new, suspended, promoted or as it was |
| RowFields.RepairRowByRow | internal/deploy/deploy_scaling.go:17-46 | a row on a dead or drained server starts afresh at its age; any other row is kept |
| RowFields.RetiresIffServedElsewhere | internal/deploy/deploy.go:378-411 | draining servers end without active rows exactly when they had none or the wanted number of rows with a running undeleted VM and an answering host is elsewhere |
| RowFields.ReadyIffServed | internal/deploy/deploy.go:279-327 | the count that marks a deployment running, by the fields of the rows it counts |
| Instances.ZeroLeavesNoneActive | internal/deploy/deploy_scaling.go:48-83 | scaling to zero leaves no active row and warm rows within the budget |
| Instances.HealthyRowLeavesWhenCovered | internal/deploy/deploy.go:279-411 | over a whole pass a healthy row leaves a draining server only while the wanted number is ready elsewhere |
| Instances.EvacuationCompletes | internal/deploy/deploy.go:279-411 | when the surge covers and off-draining rows become ready, one pass evacuates and ends with exactly the wanted number, all ready |
| Instances.SurgeNotUndone | internal/deploy/deploy.go:331-374 | the per-instance steps of a pass cannot restore what its surge changed |
| Instances.PassFixedIff | internal/deploy/deploy.go:279-411 | a pass over a quiet table with a draining server changes nothing exactly when the surge is idle and the pass is deferred or too few rows are ready elsewhere |
| Instances.StalledForever | internal/deploy/deploy.go:279-411 | however many passes run, a stalled deployment is never evacuated |
| Instances.StalledHasPass | internal/deploy/deploy.go:279-411 | passes over a stalled table exist |
| Instances.StallHappens | internal/deploy/deploy_scaling.go:166-174 | a stalled deployment with one wanted instance |
| Deployer.Rows.CleanupInstance | internal/deploy/deploy_instance.go:506-566 | the row becomes suspended warm capacity, with server and age, exactly if its undeleted VM runs on this server and the suspension succeeds; otherwise it is deleted; no other row changes |
| Deployer.Rows.PruneWarmPool | internal/deploy/deploy_scaling.go:263-286 | deletes exactly the oldest warm rows beyond the number to keep |
| Deployer.Rows.ScaleDownExcess | internal/deploy/deploy_evacuation.go:86-142 | terminates with the active rows cut to the target; with room for the draining rows, by cleaning up the newest others |
| Deployer.ChooseVictim | internal/deploy/deploy_evacuation.go:93-122 | the newest active row off draining servers, or the newest row of any kind |
| Deployer.Rows.EnsureInstanceCountUp | internal/deploy/deploy_scaling.go:85-131 | adds exactly the missing number of fresh rows |
| Deployer.Rows.ActivateWarmPool | internal/deploy/deploy_scaling.go:176-228 | promotes exactly the oldest warm rows that the deficit asks for |
| Deployer.Rows.SurgeRows | internal/deploy/deploy.go:331-360 | the sequence of calls is a surge |
| Deployer.Rows.RemoveInstancesOnDrainingServers | internal/deploy/deploy_evacuation.go:144-182 | deletes all active rows on draining servers or, with too few ready, none |
| Deployer.Rows.RetireDrainingInstances | internal/deploy/deploy.go:378-411 | the sequence of calls is a retirement |
| Deployer.Rows.RepairInstancesOnBadServers | internal/deploy/deploy_scaling.go:17-46 | every row on a dead or drained server is reset and no other row changes |
| Deployer.Rows.ScaleDownInstancesToZero | internal/deploy/deploy_scaling.go:48-83 | every active row is cleaned up and the warm rows are pruned |
| Deployer.Rows.ReconcileInstances | internal/deploy/deploy.go:279-327 | one call is one pass, and marks the deployment running exactly when nothing is wanted or the wanted number is ready |
| JobOrder.SortedUnique | internal/ci/compile.go:135-192 | the ascending listing of a multiset of names is unique, so the sorting algorithm does not matter |
| JobOrder.SucceedsIff | internal/ci/compile.go:150-192 | ordering succeeds exactly when no job reachable from the roots is unknown or on a cycle |
| JobOrder.OutputIsDependencyOrder | internal/ci/compile.go:150-192 | the order holds exactly the reachable jobs, each once, each after everything it needs |
| JobOrder.OrderIgnoresListing | internal/ci/compile.go:150-192 | the order does not depend on the order in which needs are listed |
| JobOrder.LeqIff | internal/ci/compile.go:143-168 | names are ordered by their first difference, and a proper prefix comes first |
| JobOrder.ErrorIsTrue | internal/ci/compile.go:159-166 | a refused order names a reachable job that needs itself in the end, or one that is not defined, as it says |
| JobOrder.RootsInOrder | internal/ci/compile.go:180-191 | a root that no earlier root reaches comes after all that the earlier ones reach |
| JobOrder.NeedsInNameOrder | internal/ci/compile.go:166-173 | a need of the selected job that no need of a smaller name reaches comes after all that those reach |
| JobOrder.VisitOrders | internal/ci/compile.go:155-178 | a successful visit extends the order with jobs reachable from its own, dependencies first |
| JobOrder.VisitErrs | internal/ci/compile.go:155-178 | a failing visit implies an unknown or cyclic job below it |
| JobOrder.Sorter.VisitJob | internal/ci/compile.go:155-178 | the recursive visit on shared marks computes the specified marks and error |
| JobOrder.Sorter.VisitJobs | internal/ci/compile.go:169-190 | the loop over roots or needs does so in turn and stops at the first error |
| JobOrder.ResolveJobOrder | internal/ci/compile.go:135-148 | selected job, unknown job and no selection; the result does not depend on the order of map keys |
| JobRun.Compile | internal/ci/compile.go:99-123 | a plan results exactly when every step of every ordered job compiles, and lists the jobs in that order |
| JobRun.CompiledPlanWellOrdered | internal/ci/compile.go:99-123 | a compiled plan holds every job after all it needs |
| JobRun.NeedsSettleFirst | internal/ci/runner.go:156-216 | in every run whatever happens to a job happens after each job it needs succeeded or was skipped |
| JobRun.CompiledRunIsGrounded | internal/ci/runner.go:156-216 | the same from the workflow on, through ordering, compiling and running |
| JobRun.ResultsArePrefix | internal/ci/runner.go:156-216 | the results are an initial part of the plan, all of it on success, and only the last can be a failure |
| JobRun.NothingRunsAfterFailure | internal/ci/runner.go:156-216 | a failed step is followed by its job's failure record and nothing else |
| JobRun.JobIsAccounted | internal/ci/runner.go:171-211 | a started job is a success exactly when all its steps in order, each judged on the log so far, were skipped or done and its outputs evaluate, a failure exactly when one failed after that; its log holds one entry per step and nothing else |
| JobRun.JobSkippedIff | internal/ci/runner.go:158-172 | a job is skipped exactly when its own condition says no, and is started only when it says yes |
| JobRun.BlankLets | internal/ci/runner.go:482-492 | a condition that trims to nothing lets its job or step run, and any other is evaluated |
| JobRun.RunTakesJobsInOrder | internal/ci/runner.go:156-219 | a run takes the jobs in order, goes on exactly while they are successes or skipped, and returns the outcomes that its log records, or none if a job had no outcome |
| JobRun.NeedsMapIff | internal/ci/runner.go:158-211 | the needs map holds exactly the jobs on record, each with the outcome recorded last |
| JobRun.RunPlan | internal/ci/runner.go:156-216 | the job loop performs the specified run, and its needs map is the last recorded result of each job |
| JobRun.RunJobSteps | internal/ci/runner.go:172-204 | the step loop performs the specified steps |
| BoolExpr.Tokenize | internal/ci/runner.go:719-763 | the index loop yields the tokens of the suffix-wise definition, or an error for the same inputs |
| BoolExpr.LexLayout | internal/ci/runner.go:719-763 | any words separated by any white space are read back as those words |
| BoolExpr.LexIff | internal/ci/runner.go:719-763 | a text has exactly the tokens that spell it, written one after the other with white space in between, and is refused exactly when none do |
| BoolExpr.PrimaryParses | internal/ci/runner.go:650-689 | a printed operand, comparison or parenthesised expression is evaluated to its meaning and consumed exactly |
| BoolExpr.AndReaches | internal/ci/runner.go:635-648 | a printed conjunction is folded to its meaning |
| BoolExpr.OrReaches | internal/ci/runner.go:620-633 | a printed disjunction is folded to its meaning |
| BoolExpr.PrintedMeansTreeIff | internal/ci/runner.go:594-763 | any expression tree in any layout evaluates to its meaning exactly when no literal is mistaken for a symbol, and is rejected otherwise |
| BoolExpr.AcceptsIff | internal/ci/runner.go:594-717 | a token list evaluates to a value exactly when all of it reads as a tree with that value, both operators grouping to the left and conjunction binding tighter |
| BoolExpr.EvaluatesIff | internal/ci/runner.go:594-768 | from text to result: a condition has a value exactly when it spells tokens that read as a tree with that value |
| BoolExpr.ParenLiteralRejected | internal/ci/runner.go:650-660 | a true comparison that is rejected in every layout |
| BoolExpr.FalsyIff | internal/ci/runner.go:765-768 | a value counts as false exactly when it is blank, false, 0 or null in any capitalisation and white space |
| BoolExpr.BoolParser.ParsePrimaryHere | internal/ci/runner.go:650-689 | the parser object consumes and returns what the specification does |
| BoolExpr.BoolParser.ParseOrHere | internal/ci/runner.go:620-633 | likewise for disjunctions |
| BoolExpr.BoolParser.ParseAndHere | internal/ci/runner.go:635-648 | likewise for conjunctions |
| BoolExpr.EvaluateCondition | internal/ci/runner.go:594-608 | tokenizing, parsing and the check for leftover tokens together evaluate the text |
| Interpolate.InterpolateString | internal/ci/runner.go:461-480 | the loop replaces the first expression and scans again from the start, for any number of rounds |
| Interpolate.CutIs | internal/ci/runner.go:461-480 | a string is cut around its first expression, from its first opening mark to the first closing mark after it, and otherwise has no opening or no end |
| Interpolate.RescanIsExpand | internal/ci/runner.go:461-480 | if the single pass completes no opening, scanning again from the start is the same as going on after the value, errors included |
| Interpolate.AgreesIff | internal/ci/runner.go:461-480 | on an input that the single pass expands to a text, the code ends with that text exactly when it holds no opening |
| Interpolate.OpenFreeAgrees | internal/ci/runner.go:461-480 | whenever the single pass completes no opening before it ends, the code ends the same way within as many rounds as the input has characters |
| Interpolate.MetAgrees | internal/ci/runner.go:461-480 | that is so when every value met on this input is inert, whatever other expressions evaluate to |
| Interpolate.ErrorsMayCoincide | internal/ci/runner.go:461-480 | inputs on which both end in the same error although a value was scanned again |
| Interpolate.SinglePassIff | internal/ci/runner.go:461-480 | the code ends with the result of a single pass on every input exactly when every value is inert |
| Interpolate.LiveValueDisagrees | internal/ci/runner.go:461-480 | for every value that is not inert there is an input on which the two differ |
| Interpolate.SelfReferenceNeverEnds | internal/ci/runner.go:461-480 | an expression that evaluates to itself is unfinished after any number of rounds |
| Interpolate.TrimmingSees | internal/ci/runner.go:455-480 | white space around an expression makes no difference and none reaches the evaluator |
| Text.TrimCuts | internal/ci/runner.go:765-768 | trimming removes nothing but white space, and leaves none at either end |
| Text.TrimOf | internal/ci/runner.go:765-768 | a text without white space at its ends is what trimming makes of it in any padding |
| RateLimit.Limiter.Allow | internal/ratelimit/ratelimit.go:90-113 | the bucket and answer after a request, with all other buckets unchanged |
| RateLimit.Limiter.Cleanup | internal/ratelimit/ratelimit.go:130-144 | exactly the expired buckets are removed |
| RateLimit.CleanupIsInvisible | internal/ratelimit/ratelimit.go:130-144 | with clock readings used in order, cleanups at any times change no answer |
| RateLimit.IntervalAdmitsAtMost | internal/ratelimit/ratelimit.go:90-113 | with clock readings used in order, no interval of one window's length admits more than twice the quota less one, for any traffic and cleanups |
| RateLimit.DelayedIntervalAdmitsAtMost | internal/ratelimit/ratelimit.go:90-144 | with readings less than a window late, for any traffic and cleanups, no such interval admits more than the quota of as many windows as the lateness lets share it |
| RateLimit.NoBoundWhenVeryLate | internal/ratelimit/ratelimit.go:90-144 | readings a whole window late admit any number in one interval |
| RateLimit.LateReadingsShowCleanup | internal/ratelimit/ratelimit.go:130-144 | a late reading with which a cleanup changes an answer |
| RateLimit.LateReadingsExceed | internal/ratelimit/ratelimit.go:90-93 | late readings that exceed the bound for readings in order |
| RateLimit.BoundIsMet | internal/ratelimit/ratelimit.go:90-113 | for every quota and window some traffic meets that bound |
| RateLimit.WindowAdmitsExactly | internal/ratelimit/ratelimit.go:90-113 | from the request that opens it a window admits the smaller of the quota and what is asked |
| RateLimit.RemainingIsAdmitted | internal/ratelimit/ratelimit.go:104-112 | the remaining number of an answer is what the same window still admits, if asked |
| RateLimit.RemainingIff | internal/ratelimit/ratelimit.go:90-112 | it is what the quota leaves exactly if the limit admits anything or after the first request |
| RateLimit.ResetIsWindowEnd | internal/ratelimit/ratelimit.go:90-112 | the reset time is the second in which the window ends, from whose end on requests open a new one |
| Autoscale.StepDownIff | internal/autoscale/autoscale.go:99-109 | stepping down is due exactly above a single holding count determined by the load |
| Autoscale.UpNeverAboveHold | internal/autoscale/autoscale.go:76-97 | scaling up never overshoots what scaling down would keep, so there is no oscillation |
| Autoscale.ConstantLoadSettles | internal/autoscale/autoscale.go:115-136 | under constant load the target jumps once, then descends by one per sweep to a fixed point it reaches within the maximum |
| Autoscale.TargetIsLeast | internal/autoscale/autoscale.go:76-97 | the load's target is the least allowed number that bears it at 60 requests a minute and 65 percent CPU each, or the maximum |
| Autoscale.DecisionIs | internal/autoscale/autoscale.go:47-136 | the stored target, brought within the limits, is raised to that least number if it does not bear the load, lowered by one if one less would see under 25 requests a minute and 35 percent CPU each, and kept otherwise |
| Autoscale.DecisionCovers | internal/autoscale/autoscale.go:115-136 | after one decision the target bears the load or is the maximum |
| Autoscale.DecisionOutsideLimits | internal/autoscale/autoscale.go:115-136 | with contradictory limits the minimum is returned, and without any replica allowed none |
| Autoscale.ConstantLoadIsCovered | internal/autoscale/autoscale.go:115-136 | under constant load the target bears it from the first step on and ends with none to spare |
| Autoscale.InRangeIff | internal/autoscale/autoscale.go:115-136 | the result lies in the project's range exactly when minimum and maximum are in order |
| Autoscale.OneSweep | internal/autoscale/autoscale.go:244-259 | a sweep stores only targets that take effect unchanged, a fast or held sweep never lowers them, and no sweep lowers them by more than one |
| Autoscale.SweepIs | internal/autoscale/autoscale.go:241-262 | what one sweep does to the target in force: raised, lowered by one or kept, exactly when; it wakes no dormant service, only raises when fast and does not lower in the cooldown |
| Autoscale.SweepCovers | internal/autoscale/autoscale.go:241-262 | a sweep whose write succeeds leaves a target in force that bears its load or is the maximum |
| Autoscale.SleepingIsUntouched | internal/autoscale/autoscale.go:154-262 | no sequence of sweeps touches a project that sleeps or may have no replica |
| Autoscale.RunsNothingIff | internal/deploy/deploy.go:80-144 | a deployment runs nothing exactly when it sleeps and is not woken or may have no replica |
| Autoscale.AnySweepsKeepTargetInForce | internal/autoscale/autoscale.go:244-259 | over any sequence of sweeps the stored target stays the one the deployer uses and falls by at most one per slow sweep |
| Autoscale.ClampsAgree | internal/deploy/deploy.go:80-144 | the autoscaler and the deployer clamp a target to the same number |
| Autoscale.TargetStore.SweepServices | internal/autoscale/autoscale.go:190-263 | one sweep updates each listed service by its own decision, skips those without a deployment or metrics, and changes no other |
| Routes.SelectedIff | internal/edgeproxy/edgeproxy.go:298-338 | a row supplies a backend exactly when it is its domain's first to name its VM |
| Routes.EveryVmSelected | internal/edgeproxy/edgeproxy.go:298-338 | every reachable VM of a domain has a backend |
| Routes.NoVmTwice | internal/edgeproxy/edgeproxy.go:316-324 | no VM has two backends in a domain |
| Routes.RouteByPositions | internal/edgeproxy/edgeproxy.go:299-375 | each domain's route by row positions: the last redirect, or one backend per VM from the first row that names it, in row order, over loopback exactly on the row's own server |
| Routes.EdgeService.LoadRoutes | internal/edgeproxy/edgeproxy.go:284-361 | for every row list the new table has exactly the described domains and routes, redirects before backends |
| Routes.ReadRows | internal/edgeproxy/edgeproxy.go:290-338 | the row loop keeps, for every domain, what the rows describe |
| Routes.MergeRoutes | internal/edgeproxy/edgeproxy.go:340-357 | the merging loops give redirects precedence and drop domains without backends, in any key order |
| HttpFraming.ReadFullRequest | cmd/guest-agent/builder_mode_linux.go:289-320 | the read loop yields the specified outcome for every sequence of reads, errors and end of input |
| HttpFraming.EnoughIff | cmd/guest-agent/builder_mode_linux.go:293-304 | a prefix suffices exactly when it holds the whole framed request, judged on the whole stream |
| HttpFraming.ChunkingIrrelevantIff | cmd/guest-agent/builder_mode_linux.go:289-320 | the outcome is the same for every way of splitting a stream into reads exactly outside the band below the limit |
| HttpFraming.RequestChunkingIrrelevantIff | cmd/guest-agent/builder_mode_linux.go:289-339 | the same with the code's own reading of the header |
| HttpFraming.BandLargeRead | cmd/guest-agent/builder_mode_linux.go:306-318 | for every stream in the band some splitting is refused as too large |
| HttpFraming.CrashesIff | cmd/guest-agent/builder_mode_linux.go:297-303 | some splitting makes the slice bound negative exactly when the announced length overflows and the header ends within the limit; every one does unless it ends in the band |
| HttpFraming.CrashHappens | cmd/guest-agent/builder_mode_linux.go:297-303 | a stream for which it does |
| HttpFraming.BandHappens | cmd/guest-agent/builder_mode_linux.go:306-318 | a stream in the band, measured as the code does |
| HttpFraming.EofWithDataIff | cmd/guest-agent/builder_mode_linux.go:306-315 | a last read that also reports the end changes the outcome exactly when the loop was still waiting and the stream is over the limit, goes on after the request or overflows |
| HttpFraming.RequestIsFramedIff | cmd/guest-agent/builder_mode_linux.go:289-347 | a request of any CRLF lines with its Content-Length field anywhere among them, followed by anything, is returned exactly under every splitting if and only if it is within the limit and so is all that follows or one full read past it; its body is what follows the header |
| HttpFraming.HeadIsFramedIff | cmd/guest-agent/builder_mode_linux.go:289-347 | the same without such a field: the lines and the empty line are returned and nothing of what follows |
| HttpFraming.ContentLengthReadsBack | cmd/guest-agent/builder_mode_linux.go:322-339 | after any lines that are not that field, a Content-Length field with any capitalisation and white space is read back as its number |
| HttpFraming.NoLengthNoBody | cmd/guest-agent/builder_mode_linux.go:322-339 | a request without such a field announces no body |
| HttpFraming.LengthFieldIff | cmd/guest-agent/builder_mode_linux.go:322-339 | an ASCII line is the field exactly if the name before its first colon is content-length in any capitalisation and white space |
| HttpFraming.AtoiIff | cmd/guest-agent/builder_mode_linux.go:333-336 | a text is read as a number exactly if it is a decimal numeral, with or without sign and leading zeros, of a number that 64 bits hold |
| HttpFraming.FieldNumberIs | cmd/guest-agent/builder_mode_linux.go:322-339 | a field gives the numeral after its colon, or 0 if there is none |
| HttpFraming.LengthByLines | cmd/guest-agent/builder_mode_linux.go:322-339 | the length of any header is that of its first field line by line, and 0 if there is none or a line of 64 KiB comes first |
| ShellQuote.QuoteArgs | cmd/guest-agent/builder_mode_linux.go:278-287 | the builder loop writes the quoted arguments separated by single spaces |
| ShellQuote.QuotedArgsReadBackIff | cmd/guest-agent/builder_mode_linux.go:274-287 | a shell splits the quoted line into exactly the arguments if and only if none holds a NUL |
| ShellQuote.ExecLineReadsBack | cmd/guest-agent/builder_mode_linux.go:253-253 | the whole command line reads as a change of directory and then the arguments, for all texts without a NUL byte |

## Left out

- Instances, Deployer: database errors, which end a pass early, and deletions that fail.
- Deployer.Rows.ReconcileInstances: models promotion as the running mark only, without rerouting domains and stopping older deployments.
- Instances, Deployer: persistent volumes, which pin rows to one server that may itself be draining.
- Instances, Deployer: what one per-instance step does; any outcome is allowed that keeps resting rows, deletes only from draining servers and does not move a row to one.
- Instances, Deployer: server states and probe results that change within a pass.
- Migration: a destination that reads an ended row also tells its runtime to drop the prepared target; the model lets a finalize that was already decided succeed after that.
- Migration: the transport of memory and disks, and the checks that decide whether a step fails; both outcomes are always possible.
- Scheduler: fairness and real time; clocks are arbitrary positive numbers.
- JobRun: what steps execute, artifacts and environment variables; step and expression outcomes are arbitrary functions of the log.
- BoolExpr: how identifiers are looked up; their values are an arbitrary function.
- Interpolate.InterpolateString: takes a number of rounds after which it reports itself unfinished, because the loop need not end; the theorems hold for every number.
- Autoscale: rounding of floating-point rates; loads are non-negative reals.
- Autoscale: 32-bit overflow of replica counts.
- HttpFraming: header lines with white space outside ASCII are not trimmed as Go trims them.
- ShellQuote: the shell is modelled as splitting a line into words and the operator between them; the fixed mount commands before the line are not modelled.
- Routes: the parallel maps of the row loop are one map of records, and the lock around the swap is not modelled.
- Image builds, certificates, DNS, the web console, authentication, usage metering and the runtimes themselves.
