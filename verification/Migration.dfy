/**
 Live migration of one deployment instance, as a step system.

 Every server of the cluster runs the same reconcile handler on the same migration row. A
 handler reads the row once, and issues its writes later, each an unconditional update of one
 row; other servers may act between any two of those actions. The only ordering the cluster
 guarantees is that one server never has two handlers on the same migration at once.
 */
module Migration {
  import opened Options
  import opened Text

  type ServerId = nat
  type VmId = nat

  /** The `state` column of the migration row. */
  datatype RowState =
    | Pending | DestinationPrepared | Sending | Received
    | Completed | Failed | Aborted | FallbackEvacuating
  {
    /** The states that no handler reacts to by writing the row. */
    predicate Terminal() { Completed? || Failed? || Aborted? || FallbackEvacuating? }
  }

  datatype Vm = Vm(server: ServerId, live: bool, workload: string, rootfs: string)

  datatype Instance = Instance(server: ServerId, vm: VmId, status: string)

  /** The columns of the migration row that never change. */
  datatype Migration = Migration(source: ServerId, destination: ServerId, sourceVm: VmId)

  /** Where a server's handler stands between two of its actions. */
  datatype Handler =
    | Idle
    | Preparing
    | Checking
    | Transferring
    | AbortMarking
    | AbortFallingBack
    | Finalizing
    | Committing(status: string, source: Vm)
  {
    predicate Aborts() { AbortMarking? || AbortFallingBack? }
    predicate Sends() { Checking? || Transferring? }
    predicate Commits() { Finalizing? || Committing? }
  }

  datatype Cluster = Cluster(
    state: RowState,
    deadline: Option<int>,
    inst: Instance,
    vms: map<VmId, Vm>,
    handlers: map<ServerId, Handler>)
  {
    function At(v: ServerId): Handler { if v in handlers then handlers[v] else Idle }
    function With(v: ServerId, h: Handler): Cluster { this.(handlers := handlers[v := h]) }
  }

  /** One atomic action of one server. */
  datatype Step =
    | Reconcile(at: ServerId, clock: int)                   // read the row, choose a handler
    | PrepareFails(at: ServerId)                            // persist `failed`
    | PrepareDone(at: ServerId, deadline: int)              // persist `destination_prepared`
    | SendRefused(at: ServerId)                             // persist `failed` before sending
    | SendStarts(at: ServerId)                              // persist `sending`
    | SendFails(at: ServerId)                               // persist `failed` after sending
    | SendDone(at: ServerId)                                // persist `received`
    | AbortMarks(at: ServerId)                              // persist `aborted`
    | AbortFallsBack(at: ServerId)                          // persist `fallback_evacuating`
    | FinalizeFails(at: ServerId)                           // persist `fallback_evacuating`
    | FinalizeDone(at: ServerId)                            // read instance and source VM
    | Commit(at: ServerId, newVm: VmId, rootfs: string)     // the transaction, committed
    | GiveUp(at: ServerId)                                  // error return, rollback or crash

  /** The handler that `Reconcile` chooses from what it read. */
  function Dispatch(m: Migration, s: Cluster, v: ServerId, clock: int): Handler {
    match s.state
    case Pending => if v == m.destination then Preparing else Idle
    case DestinationPrepared => if v == m.source then Checking else Idle
    case Sending => if s.deadline.Some? && clock > s.deadline.value then AbortMarking else Idle
    case Received => if v == m.destination then Finalizing else Idle
    case _ => Idle
  }

  predicate Enabled(m: Migration, s: Cluster, step: Step) {
    match step
    case Reconcile(v, _) => s.At(v).Idle?
    case PrepareFails(v) => s.At(v).Preparing?
    case PrepareDone(v, _) => s.At(v).Preparing?
    case SendRefused(v) => s.At(v).Checking?
    case SendStarts(v) => s.At(v).Checking?
    case SendFails(v) => s.At(v).Transferring?
    case SendDone(v) => s.At(v).Transferring?
    case AbortMarks(v) => s.At(v).AbortMarking?
    case AbortFallsBack(v) => s.At(v).AbortFallingBack?
    case FinalizeFails(v) => s.At(v).Finalizing?
    case FinalizeDone(v) => s.At(v).Finalizing? && m.sourceVm in s.vms
    case Commit(v, id, _) => s.At(v).Committing? && id !in s.vms && m.sourceVm in s.vms
    case GiveUp(v) => !s.At(v).Idle?
  }

  function ChooseSharedRootfsRef(primary: string, fallback: string): string {
    if TrimSpace(primary) != "" then primary else fallback
  }

  function Apply(m: Migration, s: Cluster, step: Step): Cluster
    requires Enabled(m, s, step)
  {
    match step
    case Reconcile(v, clock) => s.With(v, Dispatch(m, s, v, clock))
    case PrepareFails(v) => s.With(v, Idle).(state := Failed)
    case PrepareDone(v, deadline) =>
      s.With(v, Idle).(state := DestinationPrepared, deadline := Some(deadline))
    case SendRefused(v) => s.With(v, Idle).(state := Failed)
    case SendStarts(v) => s.With(v, Transferring).(state := Sending)
    case SendFails(v) => s.With(v, Idle).(state := Failed)
    case SendDone(v) => s.With(v, Idle).(state := Received)
    case AbortMarks(v) => s.With(v, AbortFallingBack).(state := Aborted)
    case AbortFallsBack(v) => s.With(v, Idle).(state := FallbackEvacuating)
    case FinalizeFails(v) => s.With(v, Idle).(state := FallbackEvacuating)
    case FinalizeDone(v) => s.With(v, Committing(s.inst.status, s.vms[m.sourceVm]))
    case Commit(v, id, rootfs) =>
      var read := s.At(v);
      var created := Vm(m.destination, true, read.source.workload,
                        ChooseSharedRootfsRef(rootfs, read.source.rootfs));
      s.With(v, Idle).(
        state := Completed,
        inst := Instance(m.destination, id, read.status),
        vms := s.vms[id := created][m.sourceVm := s.vms[m.sourceVm].(live := false)])
    case GiveUp(v) => s.With(v, Idle)
  }

  /** The state after `steps` from `s`, or `None` if some step is not possible where it stands. */
  function Run(m: Migration, s: Cluster, steps: seq<Step>): Option<Cluster>
    decreases |steps|
  {
    if steps == [] then Some(s)
    else if Enabled(m, s, steps[0]) then Run(m, Apply(m, s, steps[0]), steps[1..])
    else None
  }

  /** A freshly created migration of a live instance between two different servers. */
  predicate Init(m: Migration, s: Cluster) {
    && m.source != m.destination
    && s.state == Pending
    && s.handlers == map[]
    && s.inst.server == m.source
    && s.inst.vm == m.sourceVm
    && m.sourceVm in s.vms
    && s.vms[m.sourceVm].live
    && s.vms[m.sourceVm].server == m.source
  }

  ghost predicate Reachable(m: Migration, s: Cluster) {
    exists s0: Cluster, steps: seq<Step> {:trigger Run(m, s0, steps)} ::
      Init(m, s0) && Run(m, s0, steps) == Some(s)
  }

  predicate Moved(m: Migration, s: Cluster) { s.inst.vm != m.sourceVm }

  // ---- what every step keeps ------------------------------------------------------------------

  /** How far the row can be while a given handler is under way at `v`. */
  predicate HandlerInv(m: Migration, s: Cluster, v: ServerId) {
    var h := s.At(v);
    && (h.Preparing? ==> v == m.destination && s.state == Pending)
    && (h.Checking? ==> v == m.source && s.state == DestinationPrepared)
    && (h.Transferring? ==>
          v == m.source && !s.state.Pending? && !s.state.DestinationPrepared?
          && !s.state.Received? && !s.state.Completed?)
    && (h.Aborts() ==> !s.state.Pending? && !s.state.DestinationPrepared?)
    && (h.Commits() ==>
          && v == m.destination
          && !s.At(m.source).Sends()
          && !s.state.Pending? && !s.state.DestinationPrepared? && !s.state.Sending?)
    && (h.Committing? ==>
          h.status == s.inst.status && m.sourceVm in s.vms && h.source == s.vms[m.sourceVm])
  }

  predicate RowInv(m: Migration, s: Cluster) {
    && m.source != m.destination
    && m.sourceVm in s.vms
    && s.inst.vm in s.vms
    && s.vms[s.inst.vm].live
    && s.vms[s.inst.vm].server == s.inst.server
    && s.vms[s.inst.vm].workload == s.vms[m.sourceVm].workload
    && s.inst.server == (if Moved(m, s) then m.destination else m.source)
    && s.vms[m.sourceVm].live == !Moved(m, s)
    && (s.state.Received? ==> !s.At(m.source).Sends())
    && (s.state.Completed? ==> Moved(m, s))
    && (Moved(m, s) ==>
          && (s.state.Completed? || s.state.Aborted? || s.state.FallbackEvacuating?)
          && !s.At(m.source).Sends()
          && !s.At(m.destination).Commits())
  }

  ghost predicate Inv(m: Migration, s: Cluster) {
    && RowInv(m, s)
    && forall v: ServerId :: HandlerInv(m, s, v)
  }

  lemma StepKeepsRow(m: Migration, s: Cluster, step: Step)
    requires Inv(m, s) && Enabled(m, s, step)
    ensures RowInv(m, Apply(m, s, step))
  {
    assert HandlerInv(m, s, step.at);
    assert HandlerInv(m, s, m.source) && HandlerInv(m, s, m.destination);
  }

  lemma StepKeepsHandler(m: Migration, s: Cluster, step: Step, v: ServerId)
    requires Inv(m, s) && Enabled(m, s, step)
    ensures HandlerInv(m, Apply(m, s, step), v)
  {
    assert HandlerInv(m, s, v) && HandlerInv(m, s, step.at);
    assert HandlerInv(m, s, m.source) && HandlerInv(m, s, m.destination);
  }

  lemma StepKeepsInv(m: Migration, s: Cluster, step: Step)
    requires Inv(m, s) && Enabled(m, s, step)
    ensures Inv(m, Apply(m, s, step))
  {
    StepKeepsRow(m, s, step);
    forall v: ServerId ensures HandlerInv(m, Apply(m, s, step), v) {
      StepKeepsHandler(m, s, step, v);
    }
  }

  lemma {:induction false} RunKeepsInv(m: Migration, s: Cluster, steps: seq<Step>)
    requires Inv(m, s) && Run(m, s, steps).Some?
    ensures Inv(m, Run(m, s, steps).value)
    decreases |steps|
  {
    if steps != [] {
      StepKeepsInv(m, s, steps[0]);
      RunKeepsInv(m, Apply(m, s, steps[0]), steps[1..]);
    }
  }

  lemma InitImpliesInv(m: Migration, s: Cluster)
    requires Init(m, s)
    ensures Inv(m, s)
  {
  }

  lemma ReachableImpliesInv(m: Migration, s: Cluster)
    requires Reachable(m, s)
    ensures Inv(m, s)
  {
    var s0, steps :| Init(m, s0) && Run(m, s0, steps) == Some(s);
    InitImpliesInv(m, s0);
    RunKeepsInv(m, s0, steps);
  }

  lemma {:induction false} RunSnoc(m: Migration, s: Cluster, steps: seq<Step>, step: Step)
    requires Run(m, s, steps).Some? && Enabled(m, Run(m, s, steps).value, step)
    ensures Run(m, s, steps + [step]) == Some(Apply(m, Run(m, s, steps).value, step))
    decreases |steps|
  {
    if steps == [] {
      assert steps + [step] == [step] && [step][1..] == [];
    } else {
      RunSnoc(m, Apply(m, s, steps[0]), steps[1..], step);
      assert (steps + [step])[1..] == steps[1..] + [step];
    }
  }

  lemma ReachStep(m: Migration, s: Cluster, step: Step)
    requires Reachable(m, s) && Enabled(m, s, step)
    ensures Reachable(m, Apply(m, s, step))
  {
    var s0, steps :| Init(m, s0) && Run(m, s0, steps) == Some(s);
    RunSnoc(m, s0, steps, step);
  }

  // ---- safety over whole runs -----------------------------------------------------------------

  /**
   In every reachable state the instance points to a live VM row on the instance's own server,
   running the same workload, and its status is the one it had before the migration.
   */
  lemma {:induction false} InstanceAlwaysLive(m: Migration, s0: Cluster, steps: seq<Step>)
    requires Init(m, s0) && Run(m, s0, steps).Some?
    ensures var s := Run(m, s0, steps).value;
            && s.inst.vm in s.vms
            && s.vms[s.inst.vm].live
            && s.vms[s.inst.vm].server == s.inst.server
            && s.vms[s.inst.vm].workload == s0.vms[s0.inst.vm].workload
            && s.inst.status == s0.inst.status
  {
    InitImpliesInv(m, s0);
    RunKeepsInv(m, s0, steps);
    RunKeepsWorkload(m, s0, steps);
  }

  lemma {:induction false} RunKeepsWorkload(m: Migration, s: Cluster, steps: seq<Step>)
    requires Inv(m, s) && Run(m, s, steps).Some?
    ensures var s' := Run(m, s, steps).value;
            && m.sourceVm in s'.vms
            && s'.vms[m.sourceVm].workload == s.vms[m.sourceVm].workload
            && s'.inst.status == s.inst.status
    decreases |steps|
  {
    if steps != [] {
      assert HandlerInv(m, s, steps[0].at);
      StepKeepsInv(m, s, steps[0]);
      RunKeepsWorkload(m, Apply(m, s, steps[0]), steps[1..]);
    }
  }

  function LiveVms(s: Cluster): set<VmId> { set v | v in s.vms && s.vms[v].live }

  /** A migration neither leaks nor loses a VM row: it exchanges at most one for one. */
  lemma {:induction false} LiveVmsConserved(m: Migration, s: Cluster, steps: seq<Step>)
    requires Inv(m, s) && Run(m, s, steps).Some?
    ensures var s' := Run(m, s, steps).value;
            && LiveVms(s') == LiveVms(s) - {s.inst.vm} + {s'.inst.vm}
            && |LiveVms(s')| == |LiveVms(s)|
    decreases |steps|
  {
    if steps == [] {
      assert LiveVms(s) == LiveVms(s) - {s.inst.vm} + {s.inst.vm};
    } else {
      var t := Apply(m, s, steps[0]);
      StepExchangesLiveVm(m, s, steps[0]);
      StepKeepsInv(m, s, steps[0]);
      LiveVmsConserved(m, t, steps[1..]);
      assert LiveVms(t) - {t.inst.vm} == LiveVms(s) - {s.inst.vm};
    }
  }

  lemma StepExchangesLiveVm(m: Migration, s: Cluster, step: Step)
    requires Inv(m, s) && Enabled(m, s, step)
    ensures var t := Apply(m, s, step);
            && s.inst.vm in LiveVms(s) && t.inst.vm in LiveVms(t)
            && LiveVms(t) == LiveVms(s) - {s.inst.vm} + {t.inst.vm}
            && (t.inst.vm == s.inst.vm || t.inst.vm !in LiveVms(s))
            && |LiveVms(t)| == |LiveVms(s)|
  {
    assert HandlerInv(m, s, step.at);
    StepKeepsInv(m, s, step);
    var t := Apply(m, s, step);
    if !step.Commit? {
      assert t.vms == s.vms && t.inst == s.inst;
      assert LiveVms(t) == LiveVms(s);
    } else {
      assert s.inst.vm == m.sourceVm;
      assert LiveVms(t) == LiveVms(s) - {s.inst.vm} + {t.inst.vm};
    }
  }

  /**
   The source VM row dies exactly in the transaction that moves the instance: a step deletes it
   if and only if it changes the instance row, and then the instance goes from the source VM on
   the source server to a row that did not exist before, on the destination.
   */
  lemma SourceVmDiesOnlyInMove(m: Migration, s: Cluster, step: Step)
    requires Reachable(m, s) && Enabled(m, s, step)
    ensures var t := Apply(m, s, step);
            && m.sourceVm in s.vms && m.sourceVm in t.vms
            && ((s.vms[m.sourceVm].live && !t.vms[m.sourceVm].live) <==> t.inst != s.inst)
            && (t.vms[m.sourceVm].live ==> s.vms[m.sourceVm].live)
            && (t.inst != s.inst ==>
                  && step.Commit? && t.state.Completed?
                  && s.inst.server == m.source && s.inst.vm == m.sourceVm
                  && t.inst.server == m.destination && t.inst.vm !in s.vms)
  {
    ReachableImpliesInv(m, s);
    assert HandlerInv(m, s, step.at);
    StepKeepsInv(m, s, step);
  }

  function CommitCount(steps: seq<Step>): nat {
    if steps == [] then 0 else (if steps[0].Commit? then 1 else 0) + CommitCount(steps[1..])
  }

  /** At most one commit succeeds in any run, and the instance has moved iff one did. */
  lemma AtMostOneCommit(m: Migration, s0: Cluster, steps: seq<Step>)
    requires Init(m, s0) && Run(m, s0, steps).Some?
    ensures CommitCount(steps) <= 1
    ensures CommitCount(steps) == 1 <==> Moved(m, Run(m, s0, steps).value)
  {
    InitImpliesInv(m, s0);
    CommitsCountMoves(m, s0, steps);
  }

  lemma {:induction false} CommitsCountMoves(m: Migration, s: Cluster, steps: seq<Step>)
    requires Inv(m, s) && Run(m, s, steps).Some?
    ensures var s' := Run(m, s, steps).value;
            CommitCount(steps) + (if Moved(m, s) then 1 else 0) == (if Moved(m, s') then 1 else 0)
    decreases |steps|
  {
    if steps != [] {
      assert HandlerInv(m, s, steps[0].at);
      StepKeepsInv(m, s, steps[0]);
      CommitsCountMoves(m, Apply(m, s, steps[0]), steps[1..]);
    }
  }

  // ---- what the row tells -----------------------------------------------------------------------

  /** What a step writes to the `state` column, going by its outcome alone. */
  function Written(before: RowState, step: Step): RowState {
    if step.PrepareFails? || step.SendRefused? || step.SendFails? then Failed
    else if step.AbortFallsBack? || step.FinalizeFails? then FallbackEvacuating
    else if step.PrepareDone? then DestinationPrepared
    else if step.SendStarts? then Sending
    else if step.SendDone? then Received
    else if step.AbortMarks? then Aborted
    else if step.Commit? then Completed
    else before
  }

  function LastWritten(before: RowState, steps: seq<Step>): RowState
    decreases |steps|
  {
    if steps == [] then before else LastWritten(Written(before, steps[0]), steps[1..])
  }

  /** The deadline is the one stored when the destination was prepared. */
  function LastDeadline(before: Option<int>, steps: seq<Step>): Option<int>
    decreases |steps|
  {
    if steps == [] then before
    else LastDeadline(if steps[0].PrepareDone? then Some(steps[0].deadline) else before, steps[1..])
  }

  /** Whatever the interleaving, the row holds what was written last. */
  lemma {:induction false} RowIsLastWrite(m: Migration, s: Cluster, steps: seq<Step>)
    requires Run(m, s, steps).Some?
    ensures Run(m, s, steps).value.state == LastWritten(s.state, steps)
    ensures Run(m, s, steps).value.deadline == LastDeadline(s.deadline, steps)
    decreases |steps|
  {
    if steps != [] {
      RowIsLastWrite(m, Apply(m, s, steps[0]), steps[1..]);
    }
  }

  /** The root file system that the commit of the run reported, if there is one. */
  function Reported(steps: seq<Step>): Option<string> {
    if steps == [] then None
    else if steps[0].Commit? then Some(steps[0].rootfs)
    else Reported(steps[1..])
  }

  /** A moved instance has the reported root file system, or its old one if that was blank. */
  lemma RootfsAfterMove(m: Migration, s0: Cluster, steps: seq<Step>)
    requires Init(m, s0) && Run(m, s0, steps).Some?
    ensures var s := Run(m, s0, steps).value;
            && s.inst.vm in s.vms
            && var reported, was := Reported(steps), s0.vms[s0.inst.vm].rootfs;
               s.vms[s.inst.vm].rootfs
               == if reported.Some? && !Blank(reported.value) then reported.value else was
  {
    InitImpliesInv(m, s0);
    RunKeepsInv(m, s0, steps);
    RootfsInRun(m, s0, steps);
  }

  lemma CommitRootfs(m: Migration, s: Cluster, step: Step)
    requires Inv(m, s) && Enabled(m, s, step)
    ensures var t := Apply(m, s, step);
            && t.inst.vm in t.vms && s.inst.vm in s.vms
            && if !step.Commit? then t.inst == s.inst && t.vms == s.vms
               else !Moved(m, s) && Moved(m, t)
                    && t.vms[t.inst.vm].rootfs == if Blank(step.rootfs) then s.vms[s.inst.vm].rootfs else step.rootfs
  {
    assert HandlerInv(m, s, step.at);
    StepKeepsInv(m, s, step);
    if step.Commit? {
      TrimmedAwayIff(step.rootfs);
    }
  }

  lemma {:induction false} RootfsInRun(m: Migration, s: Cluster, steps: seq<Step>)
    requires Inv(m, s) && Run(m, s, steps).Some?
    ensures var t := Run(m, s, steps).value;
            && s.inst.vm in s.vms && t.inst.vm in t.vms
            && var reported, was := Reported(steps), s.vms[s.inst.vm].rootfs;
               t.vms[t.inst.vm].rootfs
               == if reported.Some? && !Blank(reported.value) then reported.value else was
    ensures Moved(m, s) ==> Reported(steps).None?
    decreases |steps|
  {
    if steps != [] {
      CommitRootfs(m, s, steps[0]);
      StepKeepsInv(m, s, steps[0]);
      RootfsInRun(m, Apply(m, s, steps[0]), steps[1..]);
    }
  }

  // ---- time-outs --------------------------------------------------------------------------------

  ghost predicate SomeoneAborts(s: Cluster) { exists v: ServerId :: s.At(v).Aborts() }

  /** Whenever a server reads the row in this run, no stored deadline has passed. */
  ghost predicate OnTime(m: Migration, s: Cluster, steps: seq<Step>)
    decreases |steps|
  {
    steps != [] && Enabled(m, s, steps[0]) ==>
      && (steps[0].Reconcile? && s.deadline.Some? ==> steps[0].clock <= s.deadline.value)
      && OnTime(m, Apply(m, s, steps[0]), steps[1..])
  }

  predicate FinalizeFailed(steps: seq<Step>) {
    steps != [] && (steps[0].FinalizeFails? || FinalizeFailed(steps[1..]))
  }

  lemma {:induction false} OnTimeRun(m: Migration, s: Cluster, steps: seq<Step>)
    requires Run(m, s, steps).Some? && OnTime(m, s, steps) && !SomeoneAborts(s)
    ensures var t := Run(m, s, steps).value;
            && !SomeoneAborts(t)
            && (t.state.Aborted? ==> s.state.Aborted?)
            && (t.state.FallbackEvacuating? ==> s.state.FallbackEvacuating? || FinalizeFailed(steps))
    decreases |steps|
  {
    if steps != [] {
      var t := Apply(m, s, steps[0]);
      assert !s.At(steps[0].at).Aborts();
      forall v: ServerId ensures !t.At(v).Aborts() {
        assert !s.At(v).Aborts();
      }
      OnTimeRun(m, t, steps[1..]);
    }
  }

  /**
   While no deadline passes unnoticed by the clock, no server ever aborts the migration: no abort is in
   flight, the row is never `aborted`, and it falls back only because the destination failed to finalize.
   */
  lemma NeverAbortedOnTime(m: Migration, s0: Cluster, steps: seq<Step>)
    requires Init(m, s0) && Run(m, s0, steps).Some? && OnTime(m, s0, steps)
    ensures var s := Run(m, s0, steps).value;
            && !SomeoneAborts(s) && !s.state.Aborted?
            && (s.state.FallbackEvacuating? ==> FinalizeFailed(steps))
  {
    OnTimeRun(m, s0, steps);
  }

  /**
   A server that reads the row begins an abort exactly when it reads `sending` with a stored deadline that
   has passed; what else it begins depends on the state and on which server it is. Reading writes nothing.
   */
  lemma ReadingBegins(m: Migration, s: Cluster, v: ServerId, clock: int)
    requires Reachable(m, s) && s.At(v).Idle?
    ensures var t := Apply(m, s, Reconcile(v, clock));
            && (t.At(v).Aborts() <==> s.state.Sending? && s.deadline.Some? && clock > s.deadline.value)
            && (t.At(v).Preparing? <==> s.state.Pending? && v == m.destination)
            && (t.At(v).Sends() <==> s.state.DestinationPrepared? && v == m.source)
            && (t.At(v).Commits() <==> s.state.Received? && v == m.destination)
            && t.(handlers := s.handlers) == s && forall w :: w != v ==> t.At(w) == s.At(w)
  {
    ReachableImpliesInv(m, s);
  }

  // ---- which rows are final -------------------------------------------------------------------

  /** No run from `s` ever leaves the terminal states. */
  ghost predicate StaysTerminal(m: Migration, s: Cluster) {
    forall steps: seq<Step> {:trigger Run(m, s, steps)} ::
      Run(m, s, steps).Some? ==> Run(m, s, steps).value.state.Terminal()
  }

  lemma {:induction false} TerminalWithoutSendStays(m: Migration, s: Cluster, steps: seq<Step>)
    requires Inv(m, s) && s.state.Terminal() && !s.At(m.source).Transferring?
    requires Run(m, s, steps).Some?
    ensures Run(m, s, steps).value.state.Terminal()
    decreases |steps|
  {
    if steps != [] {
      assert HandlerInv(m, s, steps[0].at) && HandlerInv(m, s, m.source);
      StepKeepsInv(m, s, steps[0]);
      TerminalWithoutSendStays(m, Apply(m, s, steps[0]), steps[1..]);
    }
  }

  /**
   A terminal row is final exactly when the source has no transfer in flight: a transfer that
   ends after the migration was timed out still writes `received` over the terminal state.
   */
  lemma TerminalIsFinalIff(m: Migration, s: Cluster)
    requires Reachable(m, s) && s.state.Terminal()
    ensures StaysTerminal(m, s) <==> !s.At(m.source).Transferring?
  {
    ReachableImpliesInv(m, s);
    if s.At(m.source).Transferring? {
      RunOne(m, s, SendDone(m.source));
      assert !Run(m, s, [SendDone(m.source)]).value.state.Terminal();
    } else {
      forall more: seq<Step> | Run(m, s, more).Some?
        ensures Run(m, s, more).value.state.Terminal()
      {
        TerminalWithoutSendStays(m, s, more);
      }
    }
  }

  lemma RunOne(m: Migration, s: Cluster, step: Step)
    requires Enabled(m, s, step)
    ensures Run(m, s, [step]) == Some(Apply(m, s, step))
  {
    assert [step][1..] == [];
  }

  lemma RunCons(m: Migration, s: Cluster, step: Step, rest: seq<Step>)
    requires Enabled(m, s, step)
    ensures Run(m, s, [step] + rest) == Run(m, Apply(m, s, step), rest)
  {
    assert ([step] + rest)[1..] == rest;
  }

  ghost predicate StaysCompleted(m: Migration, s: Cluster) {
    forall steps: seq<Step> {:trigger Run(m, s, steps)} ::
      Run(m, s, steps).Some? ==> Run(m, s, steps).value.state.Completed?
  }

  lemma {:induction false} CompletedWithoutAbortStays(m: Migration, s: Cluster, steps: seq<Step>)
    requires Inv(m, s) && s.state.Completed? && !SomeoneAborts(s)
    requires Run(m, s, steps).Some?
    ensures Run(m, s, steps).value.state.Completed?
    decreases |steps|
  {
    if steps != [] {
      var t := Apply(m, s, steps[0]);
      assert HandlerInv(m, s, steps[0].at) && !s.At(steps[0].at).Aborts();
      StepKeepsInv(m, s, steps[0]);
      forall v: ServerId ensures !t.At(v).Aborts() {
        assert !s.At(v).Aborts();
      }
      CompletedWithoutAbortStays(m, t, steps[1..]);
    }
  }

  /**
   `completed` is final exactly when no server is still carrying out a time-out that it decided
   before the commit: such a server later overwrites the row, although the instance has moved.
   */
  lemma CompletedIsFinalIff(m: Migration, s: Cluster)
    requires Reachable(m, s) && s.state.Completed?
    ensures StaysCompleted(m, s) <==> !SomeoneAborts(s)
  {
    ReachableImpliesInv(m, s);
    if SomeoneAborts(s) {
      var v: ServerId :| s.At(v).Aborts();
      var step := if s.At(v).AbortMarking? then AbortMarks(v) else AbortFallsBack(v);
      RunOne(m, s, step);
      assert !Run(m, s, [step]).value.state.Completed?;
    } else {
      forall more: seq<Step> | Run(m, s, more).Some?
        ensures Run(m, s, more).value.state.Completed?
      {
        CompletedWithoutAbortStays(m, s, more);
      }
    }
  }

  // ---- when a timed-out or failed migration can still move the instance ------------------------

  ghost predicate CanStillMove(m: Migration, s: Cluster) {
    exists steps: seq<Step> {:trigger Run(m, s, steps)} ::
      Run(m, s, steps).Some? && Moved(m, Run(m, s, steps).value)
  }

  lemma {:induction false} QuietTerminalNeverMoves(m: Migration, s: Cluster, steps: seq<Step>)
    requires Inv(m, s) && s.state.Terminal() && !Moved(m, s)
    requires !s.At(m.source).Transferring? && !s.At(m.destination).Commits()
    requires Run(m, s, steps).Some?
    ensures !Moved(m, Run(m, s, steps).value)
    decreases |steps|
  {
    if steps != [] {
      assert HandlerInv(m, s, steps[0].at);
      assert HandlerInv(m, s, m.source) && HandlerInv(m, s, m.destination);
      StepKeepsInv(m, s, steps[0]);
      QuietTerminalNeverMoves(m, Apply(m, s, steps[0]), steps[1..]);
    }
  }

  /** A VM id that no row uses yet. */
  lemma FreshVm(s: Cluster) returns (id: VmId)
    ensures id !in s.vms
  {
    id := FreshAbove(s.vms.Keys);
  }

  lemma FreshAbove(used: set<VmId>) returns (id: VmId)
    ensures forall u :: u in used ==> u < id
  {
    if used == {} {
      id := 0;
    } else {
      var u :| u in used;
      var below := FreshAbove(used - {u});
      assert forall w :: w in used ==> w == u || w in used - {u};
      id := if u < below then below else u + 1;
    }
  }

  lemma CommittingMoves(m: Migration, s: Cluster)
    requires Inv(m, s) && s.At(m.destination).Committing?
    ensures CanStillMove(m, s)
  {
    var id := FreshVm(s);
    var step := Commit(m.destination, id, "");
    RunOne(m, s, step);
    assert Moved(m, Run(m, s, [step]).value);
  }

  lemma MovesAfter(m: Migration, s: Cluster, step: Step)
    requires Enabled(m, s, step) && CanStillMove(m, Apply(m, s, step))
    ensures CanStillMove(m, s)
  {
    var rest :| Run(m, Apply(m, s, step), rest).Some? && Moved(m, Run(m, Apply(m, s, step), rest).value);
    RunCons(m, s, step, rest);
    assert Run(m, s, [step] + rest).Some?;
  }

  lemma FinalizingMoves(m: Migration, s: Cluster)
    requires Inv(m, s) && s.At(m.destination).Finalizing?
    ensures CanStillMove(m, s)
  {
    var step := FinalizeDone(m.destination);
    StepKeepsInv(m, s, step);
    CommittingMoves(m, Apply(m, s, step));
    MovesAfter(m, s, step);
  }

  lemma ReceivedMoves(m: Migration, s: Cluster)
    requires Inv(m, s) && s.state.Received? && s.At(m.destination).Idle?
    ensures CanStillMove(m, s)
  {
    var step := Reconcile(m.destination, 0);
    StepKeepsInv(m, s, step);
    FinalizingMoves(m, Apply(m, s, step));
    MovesAfter(m, s, step);
  }

  lemma TransferringMoves(m: Migration, s: Cluster)
    requires Inv(m, s) && s.At(m.source).Transferring?
    ensures CanStillMove(m, s)
  {
    if s.At(m.destination).Idle? {
      TransferringMovesIdle(m, s);
    } else {
      var step := GiveUp(m.destination);
      StepKeepsInv(m, s, step);
      TransferringMovesIdle(m, Apply(m, s, step));
      MovesAfter(m, s, step);
    }
  }

  lemma TransferringMovesIdle(m: Migration, s: Cluster)
    requires Inv(m, s) && s.At(m.source).Transferring? && s.At(m.destination).Idle?
    ensures CanStillMove(m, s)
  {
    var step := SendDone(m.source);
    StepKeepsInv(m, s, step);
    ReceivedMoves(m, Apply(m, s, step));
    MovesAfter(m, s, step);
  }

  /**
   A migration recorded as failed, aborted or falling back may still move the instance, and does
   so on some continuation exactly when the transfer is in flight or the destination has already
   read `received`. In every other reachable state the instance stays on the source for good.
   */
  lemma EndedMigrationStillMovesIff(m: Migration, s: Cluster)
    requires Reachable(m, s) && s.state.Terminal() && !Moved(m, s)
    ensures CanStillMove(m, s) <==> s.At(m.source).Transferring? || s.At(m.destination).Commits()
  {
    ReachableImpliesInv(m, s);
    if s.At(m.source).Transferring? {
      TransferringMoves(m, s);
    } else if s.At(m.destination).Finalizing? {
      FinalizingMoves(m, s);
    } else if s.At(m.destination).Committing? {
      CommittingMoves(m, s);
    } else {
      forall more: seq<Step> | Run(m, s, more).Some? ensures !Moved(m, Run(m, s, more).value) {
        QuietTerminalNeverMoves(m, s, more);
      }
    }
  }

  /** Every migration can get its transfer started. */
  lemma TransferStarts(m: Migration, s0: Cluster) returns (s: Cluster)
    requires Init(m, s0)
    ensures Reachable(m, s) && s.state == Sending && s.deadline == Some(10) && !Moved(m, s)
    ensures s.At(m.source).Transferring? && s.At(m.destination).Idle?
  {
    assert Run(m, s0, []) == Some(s0);
    s := After(m, s0, Reconcile(m.destination, 0));
    s := After(m, s, PrepareDone(m.destination, 10));
    s := After(m, s, Reconcile(m.source, 0));
    s := After(m, s, SendStarts(m.source));
  }

  /** The situation arises in every migration: one that timed out and fell back may yet commit. */
  lemma TimedOutMigrationStillMoves(m: Migration, s0: Cluster)
    requires Init(m, s0)
    ensures exists s: Cluster ::
              Reachable(m, s) && s.state == FallbackEvacuating && !Moved(m, s) && CanStillMove(m, s)
  {
    var s := TransferStarts(m, s0);
    s := After(m, s, Reconcile(m.destination, 11));
    s := After(m, s, AbortMarks(m.destination));
    s := After(m, s, AbortFallsBack(m.destination));
    ReachableImpliesInv(m, s);
    TransferringMoves(m, s);
  }

  /** A third server decides on the time-out while the transfer goes on. */
  lemma BystanderAborts(m: Migration, s0: Cluster) returns (s: Cluster, v: ServerId)
    requires Init(m, s0)
    ensures Reachable(m, s) && v != m.source && v != m.destination && s.At(v).AbortMarking?
    ensures s.state == Received && s.At(m.destination).Idle?
  {
    v := m.source + m.destination + 1;
    s := TransferStarts(m, s0);
    ReachableImpliesInv(m, s);
    assert HandlerInv(m, s, v);
    if !s.At(v).Idle? {
      s := After(m, s, GiveUp(v));
    }
    s := After(m, s, Reconcile(v, 11));
    s := After(m, s, SendDone(m.source));
  }

  /** Every migration can complete with that abort still in flight, and be overwritten by it. */
  lemma CompletedIsOverwritten(m: Migration, s0: Cluster)
    requires Init(m, s0)
    ensures exists s: Cluster :: Reachable(m, s) && s.state.Completed? && Moved(m, s) && !StaysCompleted(m, s)
  {
    var s, v := BystanderAborts(m, s0);
    s := After(m, s, Reconcile(m.destination, 0));
    ReachableImpliesInv(m, s);
    s := After(m, s, FinalizeDone(m.destination));
    ReachableImpliesInv(m, s);
    var id := FreshVm(s);
    s := After(m, s, Commit(m.destination, id, ""));
    assert s.At(v).Aborts();
    CompletedIsFinalIff(m, s);
  }

  lemma After(m: Migration, s: Cluster, step: Step) returns (t: Cluster)
    requires Reachable(m, s) && Enabled(m, s, step)
    ensures Reachable(m, t) && t == Apply(m, s, step)
  {
    t := Apply(m, s, step);
    ReachStep(m, s, step);
  }
}
