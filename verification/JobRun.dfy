/**
 Compiling a workflow into a plan and running the plan's jobs one after the other.

 What the outside world answers (conditions, step outcomes, output expressions) is an oracle that
 may look at everything that has happened so far. What happens is a log: the lines the runner
 prints and the results it records.
 */
module JobRun {
  import opened Text
  import opened JobOrder
  import opened Options

  datatype Step = Step(name: string, cond: string)

  datatype Job = Job(id: JobId, needs: seq<JobId>, cond: string, steps: seq<Step>)

  type Workflow = map<JobId, Job>

  datatype Outcome = Success | Skipped | Failure

  datatype Event =
    | Considered(job: JobId)
    | Started(job: JobId)
    | StepSkipped(job: JobId, step: nat)
    | StepStarted(job: JobId, step: nat)
    | StepDone(job: JobId, step: nat)
    | StepFailed(job: JobId, step: nat)
    | Recorded(job: JobId, outcome: Outcome)

  type Log = seq<Event>

  datatype Answer = Yes | No | Malformed

  datatype StepOutcome = Done | Fails | Unprepared

  /** The outside world. */
  datatype Oracle = Oracle(
    compiles: Step -> bool,
    condition: (string, Log) -> Answer,
    step: (Step, Log) -> StepOutcome,
    outputs: (JobId, Log) -> bool)
  {
    /** Whether a condition lets its job or step run; a blank condition always does. */
    function Lets(cond: string, log: Log): Answer {
      if Blank(cond) then Yes else condition(cond, log)
    }
  }

  // ---- compiling -------------------------------------------------------------------------------

  function Needs(wf: Workflow): Jobs { map id | id in wf :: wf[id].needs }

  datatype Plan = Plan(jobs: seq<Job>) | NoPlan

  predicate StepsCompile(o: Oracle, steps: seq<Step>) {
    forall i :: 0 <= i < |steps| ==> o.compiles(steps[i])
  }

  /** Lowers the jobs of a resolved order, stopping at the first step that does not compile. */
  method Compile(o: Oracle, wf: Workflow, order: seq<JobId>) returns (plan: Plan)
    requires forall i :: 0 <= i < |order| ==> order[i] in wf
    ensures plan.Plan? <==> forall i :: 0 <= i < |order| ==> StepsCompile(o, wf[order[i]].steps)
    ensures plan.Plan? ==>
              |plan.jobs| == |order| && forall i :: 0 <= i < |order| ==> plan.jobs[i] == wf[order[i]]
  {
    var compiled: seq<Job> := [];
    for i := 0 to |order|
      invariant |compiled| == i
      invariant forall k :: 0 <= k < i ==> compiled[k] == wf[order[k]]
      invariant forall k :: 0 <= k < i ==> StepsCompile(o, wf[order[k]].steps)
    {
      var job := wf[order[i]];
      for s := 0 to |job.steps|
        invariant forall k :: 0 <= k < s ==> o.compiles(job.steps[k])
      {
        if !o.compiles(job.steps[s]) {
          return NoPlan;
        }
      }
      compiled := compiled + [job];
    }
    plan := Plan(compiled);
  }

  /** Every job comes after the jobs it needs, and no two jobs share an id. */
  ghost predicate WellOrdered(plan: seq<Job>) {
    && (forall i, j :: 0 <= i < j < |plan| ==> plan[i].id != plan[j].id)
    && (forall i, d :: 0 <= i < |plan| && d in plan[i].needs ==>
          exists j :: 0 <= j < i && plan[j].id == d)
  }

  /** A plan compiled from a resolved order is well ordered, if the map keys are the job ids. */
  lemma CompiledPlanWellOrdered(wf: Workflow, roots: seq<JobId>, plan: seq<Job>)
    requires forall id :: id in wf ==> wf[id].id == id
    requires TopoSort(Needs(wf), roots).Ok?
    requires var order := TopoSort(Needs(wf), roots).marks.out;
             |plan| == |order| && forall i :: 0 <= i < |order| ==> order[i] in wf && plan[i] == wf[order[i]]
    ensures WellOrdered(plan)
  {
    OutputIsDependencyOrder(Needs(wf), roots);
    var order := TopoSort(Needs(wf), roots).marks.out;
    forall i, d | 0 <= i < |plan| && d in plan[i].needs
      ensures exists j :: 0 <= j < i && plan[j].id == d
    {
      assert d in Needs(wf)[order[i]];
      assert d in order[..i];
      var j :| 0 <= j < i && order[..i][j] == d;
      assert plan[j].id == d;
    }
  }

  // ---- running ---------------------------------------------------------------------------------

  datatype StepsStatus = AllDone | OneFailed | Broken

  /** The rest of a job's steps from `k` on: the log they leave and how they end. */
  function RunSteps(o: Oracle, job: Job, k: nat, log: Log): (Log, StepsStatus)
    requires k <= |job.steps|
    decreases |job.steps| - k
  {
    if k == |job.steps| then (log, AllDone)
    else
      match o.Lets(job.steps[k].cond, log)
      case Malformed => (log, Broken)
      case No => RunSteps(o, job, k + 1, log + [StepSkipped(job.id, k)])
      case Yes =>
        var begun := log + [StepStarted(job.id, k)];
        match o.step(job.steps[k], begun)
        case Unprepared => (begun, Broken)
        case Fails => (begun + [StepFailed(job.id, k)], OneFailed)
        case Done => RunSteps(o, job, k + 1, begun + [StepDone(job.id, k)])
  }

  datatype JobResult = JobResult(id: JobId, outcome: Outcome)

  /** How a run ends: its log, the results it returns, and whether it returns an error. */
  datatype Ending = Ending(log: Log, results: seq<JobResult>, failed: bool)

  /** One job: the extended log, the outcome to record, or no outcome if an expression is broken. */
  function RunJob(o: Oracle, job: Job, log: Log): (Log, Option<Outcome>) {
    var seen := log + [Considered(job.id)];
    match o.Lets(job.cond, seen)
    case Malformed => (seen, None)
    case No => (seen + [Recorded(job.id, Skipped)], Some(Skipped))
    case Yes =>
      var (after, status) := RunSteps(o, job, 0, seen + [Started(job.id)]);
      if status.OneFailed? then (after + [Recorded(job.id, Failure)], Some(Failure))
      else if status.Broken? || !o.outputs(job.id, after) then (after, None)
      else (after + [Recorded(job.id, Success)], Some(Success))
  }

  /** The rest of a plan. A broken expression discards the results; a failed step keeps them. */
  function RunJobs(o: Oracle, plan: seq<Job>, log: Log, results: seq<JobResult>): Ending
    decreases |plan|
  {
    if plan == [] then Ending(log, results, false)
    else
      var (after, outcome) := RunJob(o, plan[0], log);
      if outcome.None? then Ending(after, [], true)
      else
        var more := results + [JobResult(plan[0].id, outcome.value)];
        if outcome.value.Failure? then Ending(after, more, true)
        else RunJobs(o, plan[1..], after, more)
  }

  /** The result recorded last for each job: the `needs` map that expressions read. */
  function NeedsMap(log: Log): map<JobId, Outcome> {
    if log == [] then map[]
    else
      var last := log[|log| - 1];
      var before := NeedsMap(log[..|log| - 1]);
      if last.Recorded? then before[last.job := last.outcome] else before
  }

  // ---- what holds of every run -----------------------------------------------------------------

  ghost predicate Settled(log: Log, d: JobId) {
    exists j :: 0 <= j < |log| && (log[j] == Recorded(d, Success) || log[j] == Recorded(d, Skipped))
  }

  /** Whatever the log says about a job was said after everything that job needs had settled. */
  ghost predicate Grounded(plan: seq<Job>, log: Log) {
    forall k, p, d ::
      0 <= k < |log| && 0 <= p < |plan| && plan[p].id == log[k].job && d in plan[p].needs ==>
        Settled(log[..k], d)
  }

  /** `after` extends `log` with events about `id` only. */
  ghost predicate Extends(log: Log, after: Log, id: JobId) {
    log <= after && forall k :: |log| <= k < |after| ==> after[k].job == id
  }

  /** No step failed in this part of the log, and no failure was recorded. */
  predicate Clean(log: Log) {
    forall k :: 0 <= k < |log| ==> !log[k].StepFailed? && !(log[k].Recorded? && log[k].outcome.Failure?)
  }

  lemma {:induction false} StepsExtend(o: Oracle, job: Job, k: nat, log: Log)
    requires k <= |job.steps|
    ensures Extends(log, RunSteps(o, job, k, log).0, job.id)
    decreases |job.steps| - k
  {
    if k < |job.steps| {
      var begun := log + [StepStarted(job.id, k)];
      match o.Lets(job.steps[k].cond, log)
      case Malformed =>
      case No => StepsExtend(o, job, k + 1, log + [StepSkipped(job.id, k)]);
      case Yes =>
        if o.step(job.steps[k], begun).Done? {
          StepsExtend(o, job, k + 1, begun + [StepDone(job.id, k)]);
        }
    }
  }

  /** Steps either leave the log clean or end it with the step that failed. */
  ghost predicate StepsEnd(after: Log, status: StepsStatus) {
    if status.OneFailed? then after != [] && Clean(after[..|after| - 1]) && after[|after| - 1].StepFailed?
    else Clean(after)
  }

  lemma CleanSnoc(log: Log, e: Event)
    requires Clean(log) && !e.StepFailed? && !e.Recorded?
    ensures Clean(log + [e])
  {
  }

  lemma {:induction false} StepsStop(o: Oracle, job: Job, k: nat, log: Log)
    requires k <= |job.steps| && Clean(log)
    ensures StepsEnd(RunSteps(o, job, k, log).0, RunSteps(o, job, k, log).1)
    decreases |job.steps| - k
  {
    if k < |job.steps| {
      var begun := log + [StepStarted(job.id, k)];
      CleanSnoc(log, StepStarted(job.id, k));
      match o.Lets(job.steps[k].cond, log)
      case Malformed =>
      case No =>
        CleanSnoc(log, StepSkipped(job.id, k));
        StepsStop(o, job, k + 1, log + [StepSkipped(job.id, k)]);
      case Yes =>
        if o.step(job.steps[k], begun).Done? {
          CleanSnoc(begun, StepDone(job.id, k));
          StepsStop(o, job, k + 1, begun + [StepDone(job.id, k)]);
        } else if o.step(job.steps[k], begun).Fails? {
          assert (begun + [StepFailed(job.id, k)])[..|begun|] == begun;
        }
    }
  }

  lemma JobExtends(o: Oracle, job: Job, log: Log)
    ensures Extends(log, RunJob(o, job, log).0, job.id)
  {
    StepsExtend(o, job, 0, log + [Considered(job.id)] + [Started(job.id)]);
  }

  lemma SettledExtends(log: Log, after: Log, d: JobId)
    requires log <= after && Settled(log, d)
    ensures Settled(after, d)
  {
    var j :| 0 <= j < |log| && (log[j] == Recorded(d, Success) || log[j] == Recorded(d, Skipped));
    assert after[j] == log[j];
  }

  lemma GroundedExtends(plan: seq<Job>, i: nat, log: Log, after: Log)
    requires WellOrdered(plan) && i < |plan| && Grounded(plan, log)
    requires Extends(log, after, plan[i].id)
    requires forall d :: d in plan[i].needs ==> Settled(log, d)
    ensures Grounded(plan, after)
  {
    forall k, p, d | 0 <= k < |after| && 0 <= p < |plan| && plan[p].id == after[k].job && d in plan[p].needs
      ensures Settled(after[..k], d)
    {
      if k < |log| {
        assert after[k] == log[k] && after[..k] == log[..k];
      } else {
        assert p == i;
        assert log <= after[..k];
        SettledExtends(log, after[..k], d);
      }
    }
  }

  lemma JobSettles(o: Oracle, job: Job, log: Log)
    requires RunJob(o, job, log).1 in {Some(Success), Some(Skipped)}
    ensures Settled(RunJob(o, job, log).0, job.id)
  {
    var after := RunJob(o, job, log).0;
    assert after[|after| - 1] == Recorded(job.id, RunJob(o, job, log).1.value);
  }

  /** All jobs before position `i` have settled. */
  ghost predicate SettledUpTo(plan: seq<Job>, i: nat, log: Log)
    requires i <= |plan|
  {
    forall p :: 0 <= p < i ==> Settled(log, plan[p].id)
  }

  lemma JobGrounded(o: Oracle, plan: seq<Job>, i: nat, log: Log)
    requires WellOrdered(plan) && i < |plan| && Grounded(plan, log) && SettledUpTo(plan, i, log)
    ensures var (after, outcome) := RunJob(o, plan[i], log);
            && Grounded(plan, after)
            && (outcome in {Some(Success), Some(Skipped)} ==> SettledUpTo(plan, i + 1, after))
  {
    var (after, outcome) := RunJob(o, plan[i], log);
    JobExtends(o, plan[i], log);
    forall d | d in plan[i].needs ensures Settled(log, d) {
      var j :| 0 <= j < i && plan[j].id == d;
    }
    GroundedExtends(plan, i, log, after);
    if outcome in {Some(Success), Some(Skipped)} {
      JobSettles(o, plan[i], log);
      forall p | 0 <= p < i ensures Settled(after, plan[p].id) {
        SettledExtends(log, after, plan[p].id);
      }
    }
  }

  lemma {:induction false} JobsGrounded(o: Oracle, plan: seq<Job>, i: nat, log: Log, results: seq<JobResult>)
    requires WellOrdered(plan) && i <= |plan| && Grounded(plan, log) && SettledUpTo(plan, i, log)
    ensures Grounded(plan, RunJobs(o, plan[i..], log, results).log)
    decreases |plan| - i
  {
    if i < |plan| {
      assert plan[i..][0] == plan[i] && plan[i..][1..] == plan[i + 1..];
      var (after, outcome) := RunJob(o, plan[i], log);
      JobGrounded(o, plan, i, log);
      if outcome in {Some(Success), Some(Skipped)} {
        JobsGrounded(o, plan, i + 1, after, results + [JobResult(plan[i].id, outcome.value)]);
      }
    }
  }

  function Run(o: Oracle, plan: seq<Job>): Ending { RunJobs(o, plan, [], []) }

  /**
   Whenever the runner considers, starts or does anything for a job, every job it needs has
   already been recorded as a success or as skipped.
   */
  lemma NeedsSettleFirst(o: Oracle, plan: seq<Job>)
    requires WellOrdered(plan)
    ensures Grounded(plan, Run(o, plan).log)
  {
    assert plan[0..] == plan;
    JobsGrounded(o, plan, 0, [], []);
  }

  /** From workflow to run: the two halves together. */
  lemma CompiledRunIsGrounded(o: Oracle, wf: Workflow, roots: seq<JobId>, plan: seq<Job>)
    requires forall id :: id in wf ==> wf[id].id == id
    requires TopoSort(Needs(wf), roots).Ok?
    requires var order := TopoSort(Needs(wf), roots).marks.out;
             |plan| == |order| && forall i :: 0 <= i < |order| ==> order[i] in wf && plan[i] == wf[order[i]]
    ensures Grounded(plan, Run(o, plan).log)
  {
    CompiledPlanWellOrdered(wf, roots, plan);
    NeedsSettleFirst(o, plan);
  }

  function Ids(plan: seq<Job>): seq<JobId> {
    seq(|plan|, i requires 0 <= i < |plan| => plan[i].id)
  }

  function ResultIds(results: seq<JobResult>): seq<JobId> {
    seq(|results|, i requires 0 <= i < |results| => results[i].id)
  }

  lemma {:induction false} JobsResults(o: Oracle, plan: seq<Job>, i: nat, log: Log, results: seq<JobResult>)
    requires i <= |plan| && ResultIds(results) == Ids(plan)[..i]
    requires forall k :: 0 <= k < |results| ==> !results[k].outcome.Failure?
    ensures var e := RunJobs(o, plan[i..], log, results);
            && ResultIds(e.results) <= Ids(plan)
            && (forall k :: 0 <= k < |e.results| - 1 ==> !e.results[k].outcome.Failure?)
            && (!e.failed ==> ResultIds(e.results) == Ids(plan)
                              && forall k :: 0 <= k < |e.results| ==> !e.results[k].outcome.Failure?)
            && (e.failed && e.results != [] ==> e.results[|e.results| - 1].outcome.Failure?)
    decreases |plan| - i
  {
    if i < |plan| {
      assert plan[i..][0] == plan[i] && plan[i..][1..] == plan[i + 1..];
      var (after, outcome) := RunJob(o, plan[i], log);
      if outcome.Some? {
        var more := results + [JobResult(plan[i].id, outcome.value)];
        assert ResultIds(more) == ResultIds(results) + [plan[i].id] == Ids(plan)[..i + 1];
        if !outcome.value.Failure? {
          JobsResults(o, plan, i + 1, after, more);
        }
      }
    } else {
      assert Ids(plan)[..i] == Ids(plan);
    }
  }

  /**
   The returned results name a prefix of the plan; all of it when the run succeeds, and only the
   last of them can be a failure.
   */
  lemma ResultsArePrefix(o: Oracle, plan: seq<Job>)
    ensures var e := Run(o, plan);
            && ResultIds(e.results) <= Ids(plan)
            && (forall k :: 0 <= k < |e.results| - 1 ==> !e.results[k].outcome.Failure?)
            && (!e.failed ==> ResultIds(e.results) == Ids(plan)
                              && forall k :: 0 <= k < |e.results| ==> !e.results[k].outcome.Failure?)
            && (e.failed && e.results != [] ==> e.results[|e.results| - 1].outcome.Failure?)
  {
    assert plan[0..] == plan;
    JobsResults(o, plan, 0, [], []);
  }

  /** A job either leaves the log clean or ends it with a failed step and its failure record. */
  lemma JobStops(o: Oracle, job: Job, log: Log)
    requires Clean(log)
    ensures var (after, outcome) := RunJob(o, job, log);
            if outcome == Some(Failure) then StopsAtFailure(after) else Clean(after)
  {
    var begun := log + [Considered(job.id)] + [Started(job.id)];
    StepsStop(o, job, 0, begun);
    StepsExtend(o, job, 0, begun);
    var (steps, status) := RunSteps(o, job, 0, begun);
    var after := RunJob(o, job, log).0;
    if RunJob(o, job, log).1 == Some(Failure) {
      assert after == steps + [Recorded(job.id, Failure)];
      assert after[..|after| - 2] == steps[..|steps| - 1];
    }
  }

  lemma {:induction false} JobsStop(o: Oracle, plan: seq<Job>, log: Log, results: seq<JobResult>)
    requires Clean(log)
    ensures StopsAtFailure(RunJobs(o, plan, log, results).log)
    decreases |plan|
  {
    if plan != [] {
      JobStops(o, plan[0], log);
      var (after, outcome) := RunJob(o, plan[0], log);
      if outcome.Some? && outcome != Some(Failure) {
        JobsStop(o, plan[1..], after, results + [JobResult(plan[0].id, outcome.value)]);
      }
    }
  }

  /** A failed step, if there is one, is followed by its job's failure record and by nothing else. */
  predicate StopsAtFailure(log: Log) {
    || Clean(log)
    || (|log| >= 2 && Clean(log[..|log| - 2])
        && log[|log| - 2].StepFailed? && log[|log| - 1] == Recorded(log[|log| - 2].job, Failure))
  }

  lemma NothingRunsAfterFailure(o: Oracle, plan: seq<Job>)
    ensures StopsAtFailure(Run(o, plan).log)
  {
    JobsStop(o, plan, [], []);
  }

  // ---- what a job's log says ---------------------------------------------------------------------

  function Flat(entries: seq<Log>): Log {
    if entries == [] then [] else Flat(entries[..|entries| - 1]) + entries[|entries| - 1]
  }

  /** The entry for step `k` after `log`: skipped by its condition, or started and done. */
  predicate PassedStep(o: Oracle, job: Job, k: nat, log: Log, entry: Log)
    requires k < |job.steps|
  {
    || (o.Lets(job.steps[k].cond, log) == No && entry == [StepSkipped(job.id, k)])
    || (&& o.Lets(job.steps[k].cond, log) == Yes
        && o.step(job.steps[k], log + [StepStarted(job.id, k)]) == Done
        && entry == [StepStarted(job.id, k)] + [StepDone(job.id, k)])
  }

  /** One entry for each of the first steps, in order, each judged on the log that it found. */
  predicate Passed(o: Oracle, job: Job, log: Log, entries: seq<Log>) {
    var k := |entries| - 1;
    entries == [] ||
    (&& k < |job.steps|
     && Passed(o, job, log, entries[..k])
     && PassedStep(o, job, k, log + Flat(entries[..k]), entries[k]))
  }

  lemma {:induction false} PassedEach(o: Oracle, job: Job, log: Log, entries: seq<Log>, k: nat)
    requires Passed(o, job, log, entries) && k < |entries|
    ensures |entries| <= |job.steps| && PassedStep(o, job, k, log + Flat(entries[..k]), entries[k])
    decreases |entries|
  {
    var n := |entries| - 1;
    if k < n {
      PassedEach(o, job, log, entries[..n], k);
      assert entries[..n][..k] == entries[..k];
    }
  }

  lemma PassedMore(o: Oracle, job: Job, log: Log, entries: seq<Log>, entry: Log)
    requires Passed(o, job, log, entries) && |entries| < |job.steps|
    requires PassedStep(o, job, |entries|, log + Flat(entries), entry)
    ensures Passed(o, job, log, entries + [entry])
    ensures log + Flat(entries + [entry]) == log + Flat(entries) + entry
  {
    assert (entries + [entry])[..|entries|] == entries;
  }

  lemma OnePassed(o: Oracle, job: Job, k: nat, log: Log, entry: Log)
    requires k < |job.steps| && PassedStep(o, job, k, log, entry)
    ensures RunSteps(o, job, k, log) == RunSteps(o, job, k + 1, log + entry)
  {
    assert log + ([StepStarted(job.id, k)] + [StepDone(job.id, k)])
        == log + [StepStarted(job.id, k)] + [StepDone(job.id, k)];
  }

  /** Steps that passed are behind the run. */
  lemma {:induction false} RunAfterPassed(o: Oracle, job: Job, log: Log, entries: seq<Log>)
    requires Passed(o, job, log, entries)
    ensures |entries| <= |job.steps|
    ensures RunSteps(o, job, 0, log) == RunSteps(o, job, |entries|, log + Flat(entries))
    decreases |entries|
  {
    if entries == [] {
      assert log + [] == log;
    } else {
      var n := |entries| - 1;
      RunAfterPassed(o, job, log, entries[..n]);
      OnePassed(o, job, n, log + Flat(entries[..n]), entries[n]);
      assert log + Flat(entries) == log + Flat(entries[..n]) + entries[n];
    }
  }

  /** How the step after the passed ones ends the job, if it does. */
  datatype Stop = Through | StopsFailing | StopsBroken

  predicate StopsAs(o: Oracle, job: Job, k: nat, log: Log, stop: Stop) {
    if k >= |job.steps| then stop == Through
    else
      var answer, begun := o.Lets(job.steps[k].cond, log), log + [StepStarted(job.id, k)];
      || (stop == StopsFailing && answer == Yes && o.step(job.steps[k], begun) == Fails)
      || (stop == StopsBroken && (answer == Malformed || (answer == Yes && o.step(job.steps[k], begun) == Unprepared)))
  }

  /** Every job passes some of its steps and then stops. */
  lemma {:induction false} StepsAccounted(o: Oracle, job: Job, log: Log, entries: seq<Log>)
    returns (all: seq<Log>, stop: Stop)
    requires Passed(o, job, log, entries) && |entries| <= |job.steps|
    ensures Passed(o, job, log, all) && StopsAs(o, job, |all|, log + Flat(all), stop)
    decreases |job.steps| - |entries|
  {
    all, stop := entries, Through;
    var k, now := |entries|, log + Flat(entries);
    if k < |job.steps| {
      var begun := now + [StepStarted(job.id, k)];
      match o.Lets(job.steps[k].cond, now)
      case Malformed => stop := StopsBroken;
      case No =>
        PassedMore(o, job, log, entries, [StepSkipped(job.id, k)]);
        all, stop := StepsAccounted(o, job, log, entries + [[StepSkipped(job.id, k)]]);
      case Yes =>
        match o.step(job.steps[k], begun)
        case Unprepared => stop := StopsBroken;
        case Fails => stop := StopsFailing;
        case Done =>
          var entry := [StepStarted(job.id, k)] + [StepDone(job.id, k)];
          PassedMore(o, job, log, entries, entry);
          all, stop := StepsAccounted(o, job, log, entries + [entry]);
    }
  }

  /** The log with which the steps of a job begin. */
  function Opened(job: Job, log: Log): Log { log + [Considered(job.id)] + [Started(job.id)] }

  /**
   A job that is let run is a success exactly when all its steps, one by one and each judged on the log so
   far, were skipped by their conditions or done and its outputs evaluate; a failure exactly when one was
   started and failed after that; and without an outcome otherwise. Its log holds just that.
   */
  ghost predicate Accounted(o: Oracle, job: Job, log: Log, entries: seq<Log>, stop: Stop) {
    var first := Opened(job, log);
    var reached := first + Flat(entries);
    var (after, outcome) := RunJob(o, job, log);
    && Passed(o, job, first, entries) && StopsAs(o, job, |entries|, reached, stop)
    && (outcome == Some(Success) <==> stop == Through && o.outputs(job.id, reached))
    && (outcome == Some(Failure) <==> stop == StopsFailing)
    && (outcome == Some(Success) ==> |entries| == |job.steps| && after == reached + [Recorded(job.id, Success)])
    && (outcome == Some(Failure) ==>
          after == reached + [StepStarted(job.id, |entries|)] + [StepFailed(job.id, |entries|)]
                   + [Recorded(job.id, Failure)])
    && (outcome == None ==> after == reached || after == reached + [StepStarted(job.id, |entries|)])
  }

  lemma JobIsAccounted(o: Oracle, job: Job, log: Log) returns (entries: seq<Log>, stop: Stop)
    requires o.Lets(job.cond, log + [Considered(job.id)]) == Yes
    ensures Accounted(o, job, log, entries, stop)
  {
    var begun := Opened(job, log);
    entries, stop := StepsAccounted(o, job, begun, []);
    RunAfterPassed(o, job, begun, entries);
  }

  /** A job is skipped exactly when its own condition says no, and has no outcome before one is malformed. */
  lemma JobSkippedIff(o: Oracle, job: Job, log: Log)
    ensures var answer := o.Lets(job.cond, log + [Considered(job.id)]);
            && (RunJob(o, job, log).1 == Some(Skipped) <==> answer == No)
            && (answer == Malformed ==> RunJob(o, job, log).1 == None)
            && (answer != Yes ==> Started(job.id) !in RunJob(o, job, log).0[|log|..])
  {
  }

  /** A blank condition lets its job or step run, and any other is evaluated. */
  lemma BlankLets(o: Oracle, cond: string, log: Log)
    ensures TrimSpace(cond) == "" ==> o.Lets(cond, log) == Yes
    ensures TrimSpace(cond) != "" ==> o.Lets(cond, log) == o.condition(cond, log)
  {
    TrimmedAwayIff(cond);
  }

  // ---- what a run's log says ---------------------------------------------------------------------

  function Outcomes(log: Log): seq<JobResult> {
    if log == [] then []
    else
      var last := log[|log| - 1];
      Outcomes(log[..|log| - 1]) + if last.Recorded? then [JobResult(last.job, last.outcome)] else []
  }

  lemma OutcomesSnoc(log: Log, e: Event)
    ensures Outcomes(log + [e]) == Outcomes(log) + if e.Recorded? then [JobResult(e.job, e.outcome)] else []
  {
    assert (log + [e])[..|log|] == log;
  }

  lemma {:induction false} StepsRecordNothing(o: Oracle, job: Job, k: nat, log: Log)
    requires k <= |job.steps|
    ensures Outcomes(RunSteps(o, job, k, log).0) == Outcomes(log)
    decreases |job.steps| - k
  {
    if k < |job.steps| {
      var begun := log + [StepStarted(job.id, k)];
      OutcomesSnoc(log, StepStarted(job.id, k));
      OutcomesSnoc(log, StepSkipped(job.id, k));
      OutcomesSnoc(begun, StepDone(job.id, k));
      OutcomesSnoc(begun, StepFailed(job.id, k));
      if o.Lets(job.steps[k].cond, log) == No {
        StepsRecordNothing(o, job, k + 1, log + [StepSkipped(job.id, k)]);
      } else if o.Lets(job.steps[k].cond, log) == Yes && o.step(job.steps[k], begun) == Done {
        StepsRecordNothing(o, job, k + 1, begun + [StepDone(job.id, k)]);
      }
    }
  }

  lemma StartedJobRecords(o: Oracle, job: Job, log: Log)
    requires o.Lets(job.cond, log + [Considered(job.id)]) == Yes
    ensures var (after, outcome) := RunJob(o, job, log);
            Outcomes(after) == Outcomes(log) + if outcome.Some? then [JobResult(job.id, outcome.value)] else []
  {
    var seen := log + [Considered(job.id)];
    OutcomesSnoc(log, Considered(job.id));
    OutcomesSnoc(seen, Started(job.id));
    StepsRecordNothing(o, job, 0, seen + [Started(job.id)]);
    var (after, status) := RunSteps(o, job, 0, seen + [Started(job.id)]);
    var outcome := RunJob(o, job, log).1;
    if outcome.Some? {
      OutcomesSnoc(after, Recorded(job.id, outcome.value));
    }
  }

  lemma JobRecordsOutcome(o: Oracle, job: Job, log: Log)
    ensures var (after, outcome) := RunJob(o, job, log);
            Outcomes(after) == Outcomes(log) + if outcome.Some? then [JobResult(job.id, outcome.value)] else []
  {
    var seen := log + [Considered(job.id)];
    if o.Lets(job.cond, seen) == Yes {
      StartedJobRecords(o, job, log);
    } else {
      OutcomesSnoc(log, Considered(job.id));
      OutcomesSnoc(seen, Recorded(job.id, Skipped));
    }
  }

  /** A run goes from job to job while they are successes or skipped. */
  ghost predicate GoesThrough(o: Oracle, plan: seq<Job>, logs: seq<Log>) {
    && 0 < |logs| <= |plan| + 1
    && (forall i :: 0 <= i < |logs| - 1 ==> logs[i + 1] == RunJob(o, plan[i], logs[i]).0)
    && (forall i :: 0 <= i < |logs| - 1 ==>
          RunJob(o, plan[i], logs[i]).1 == Some(Success) || RunJob(o, plan[i], logs[i]).1 == Some(Skipped))
  }

  lemma {:induction false} RunGoesThrough(o: Oracle, plan: seq<Job>, log: Log, results: seq<JobResult>)
    returns (logs: seq<Log>)
    requires results == Outcomes(log)
    ensures GoesThrough(o, plan, logs) && logs[0] == log
    ensures RunEnds(o, plan, logs, RunJobs(o, plan, log, results))
    decreases |plan|
  {
    logs := [log];
    if plan != [] {
      var (after, outcome) := RunJob(o, plan[0], log);
      JobRecordsOutcome(o, plan[0], log);
      if outcome == Some(Success) || outcome == Some(Skipped) {
        logs := RunGoesThrough(o, plan[1..], after, results + [JobResult(plan[0].id, outcome.value)]);
        logs := [log] + logs;
      }
    }
  }

  /** After the last log the plan is through, or its next job fails or has no outcome. */
  ghost predicate RunEnds(o: Oracle, plan: seq<Job>, logs: seq<Log>, e: Ending)
    requires 0 < |logs| <= |plan| + 1
  {
    var n := |logs| - 1;
    if n == |plan| then e == Ending(logs[n], Outcomes(logs[n]), false)
    else
      var (after, outcome) := RunJob(o, plan[n], logs[n]);
      && (outcome == Some(Failure) || outcome == None)
      && e == Ending(after, if outcome == None then [] else Outcomes(after), true)
  }

  /**
   A run takes the jobs of its plan in order. It goes on exactly while they are successes or skipped, and
   returns the outcomes that its log records, or none of them if a job had no outcome.
   */
  lemma RunTakesJobsInOrder(o: Oracle, plan: seq<Job>) returns (logs: seq<Log>)
    ensures GoesThrough(o, plan, logs) && logs[0] == [] && RunEnds(o, plan, logs, Run(o, plan))
  {
    logs := RunGoesThrough(o, plan, [], []);
  }

  /** Position `j` holds the last record of `d`. */
  predicate LastRecord(log: Log, j: nat, d: JobId) {
    && j < |log| && log[j].Recorded? && log[j].job == d
    && forall i :: j < i < |log| ==> !(log[i].Recorded? && log[i].job == d)
  }

  /** The `needs` map holds the outcome recorded last. */
  lemma {:induction false} NeedsMapIff(log: Log, d: JobId)
    ensures d in NeedsMap(log) <==> exists j: nat :: LastRecord(log, j, d)
    ensures forall j: nat :: LastRecord(log, j, d) ==> d in NeedsMap(log) && NeedsMap(log)[d] == log[j].outcome
  {
    if log != [] {
      var n := |log| - 1;
      var before := log[..n];
      NeedsMapIff(before, d);
      if log[n].Recorded? && log[n].job == d {
        assert LastRecord(log, n, d);
      } else {
        forall j: nat ensures LastRecord(log, j, d) <==> LastRecord(before, j, d) {
        }
      }
    }
  }

  // ---- the loop itself -------------------------------------------------------------------------

  /** The job loop of the local runner, with its `needs` map and result list updated in place. */
  method RunPlan(o: Oracle, plan: seq<Job>) returns (end: Ending, needs: map<JobId, Outcome>)
    ensures end == Run(o, plan)
    ensures needs == NeedsMap(end.log)
  {
    var log: Log := [];
    var results: seq<JobResult> := [];
    needs := map[];
    var i := 0;
    while i < |plan|
      invariant 0 <= i <= |plan|
      invariant Run(o, plan) == RunJobs(o, plan[i..], log, results)
      invariant needs == NeedsMap(log)
    {
      var job := plan[i];
      assert plan[i..][0] == job && plan[i..][1..] == plan[i + 1..];
      i := i + 1;
      NeedsUnchanged(log, [Considered(job.id)]);
      log := log + [Considered(job.id)];
      var answer := o.Lets(job.cond, log);
      if answer == Malformed {
        return Ending(log, [], true), needs;
      }
      if answer == No {
        NeedsRecorded(log, job.id, Skipped);
        needs := needs[job.id := Skipped];
        log := log + [Recorded(job.id, Skipped)];
        results := results + [JobResult(job.id, Skipped)];
        continue;
      }
      NeedsUnchanged(log, [Started(job.id)]);
      log := log + [Started(job.id)];
      StepsKeepNeeds(o, job, 0, log);
      var status;
      log, status := RunJobSteps(o, job, log);
      if status == OneFailed {
        NeedsRecorded(log, job.id, Failure);
        needs := needs[job.id := Failure];
        log := log + [Recorded(job.id, Failure)];
        results := results + [JobResult(job.id, Failure)];
        return Ending(log, results, true), needs;
      }
      if status == Broken || !o.outputs(job.id, log) {
        return Ending(log, [], true), needs;
      }
      NeedsRecorded(log, job.id, Success);
      needs := needs[job.id := Success];
      log := log + [Recorded(job.id, Success)];
      results := results + [JobResult(job.id, Success)];
    }
    end := Ending(log, results, false);
  }

  method RunJobSteps(o: Oracle, job: Job, log0: Log) returns (log: Log, status: StepsStatus)
    ensures (log, status) == RunSteps(o, job, 0, log0)
  {
    log := log0;
    var k := 0;
    while k < |job.steps|
      invariant 0 <= k <= |job.steps|
      invariant RunSteps(o, job, 0, log0) == RunSteps(o, job, k, log)
    {
      var answer := o.Lets(job.steps[k].cond, log);
      if answer == Malformed {
        return log, Broken;
      }
      if answer == No {
        log := log + [StepSkipped(job.id, k)];
      } else {
        log := log + [StepStarted(job.id, k)];
        var outcome := o.step(job.steps[k], log);
        if outcome == Unprepared {
          return log, Broken;
        }
        if outcome == Fails {
          return log + [StepFailed(job.id, k)], OneFailed;
        }
        log := log + [StepDone(job.id, k)];
      }
      k := k + 1;
    }
    status := AllDone;
  }

  lemma {:induction false} StepsKeepNeeds(o: Oracle, job: Job, k: nat, log: Log)
    requires k <= |job.steps|
    ensures NeedsMap(RunSteps(o, job, k, log).0) == NeedsMap(log)
    decreases |job.steps| - k
  {
    if k < |job.steps| {
      var begun := log + [StepStarted(job.id, k)];
      NeedsUnchanged(log, [StepStarted(job.id, k)]);
      match o.Lets(job.steps[k].cond, log)
      case Malformed =>
      case No =>
        NeedsUnchanged(log, [StepSkipped(job.id, k)]);
        StepsKeepNeeds(o, job, k + 1, log + [StepSkipped(job.id, k)]);
      case Yes =>
        match o.step(job.steps[k], begun)
        case Unprepared =>
        case Fails => NeedsUnchanged(begun, [StepFailed(job.id, k)]);
        case Done =>
          NeedsUnchanged(begun, [StepDone(job.id, k)]);
          StepsKeepNeeds(o, job, k + 1, begun + [StepDone(job.id, k)]);
    }
  }

  lemma NeedsUnchanged(log: Log, e: Log)
    requires |e| == 1 && !e[0].Recorded?
    ensures NeedsMap(log + e) == NeedsMap(log)
  {
    assert (log + e)[..|log|] == log;
  }

  lemma NeedsRecorded(log: Log, id: JobId, outcome: Outcome)
    ensures NeedsMap(log + [Recorded(id, outcome)]) == NeedsMap(log)[id := outcome]
  {
    var e := [Recorded(id, outcome)];
    assert (log + e)[..|log|] == log;
  }
}
