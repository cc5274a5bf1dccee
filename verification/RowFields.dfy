/**
 * What the operations of a convergence pass do to a single row, field by field, and what the counts
 * that they compare say of the rows' fields.
 */
module RowFields {
  import opened Instances
  import opened Options

  // ---- cleaning up -------------------------------------------------------------------------------

  /** The VM runs on this very server and could be suspended. */
  predicate SuspendedHere(env: Env, id: Id, i: Inst) {
    && i.vm == Vm(VmRunning, false) && i.server == Some(env.local)
    && env.suspends && id in env.suspendOk
  }

  function KeptHere(env: Env, t: Table, ids: set<Id>): set<Id> {
    set id | id in ids && id in t && SuspendedHere(env, id, t[id])
  }

  /** A row as suspended warm capacity, with the server and the age that it had. */
  predicate SuspendedRow(before: Inst, after: Inst) {
    after == Inst(WarmPool, before.server, Stopped, Vm(VmSuspended, false), before.created)
  }

  lemma CleanedRow(env: Env, t: Table, victims: set<Id>, id: Id)
    ensures var u := Trim(env, t, victims);
            && (id in u <==> id in t && (id !in victims || SuspendedHere(env, id, t[id])))
            && (id in u && id !in victims ==> u[id] == t[id])
            && (id in u && id in victims ==> SuspendedRow(t[id], u[id]))
  {
  }

  lemma WarmAfterCleanup(env: Env, t: Table, victims: set<Id>)
    requires victims <= ActiveIds(t)
    ensures WarmIds(Trim(env, t, victims)) == WarmIds(t) + KeptHere(env, t, victims)
    ensures WarmIds(t) !! KeptHere(env, t, victims)
  {
    forall id ensures id in WarmIds(Trim(env, t, victims)) <==> id in WarmIds(t) + KeptHere(env, t, victims) {
      CleanedRow(env, t, victims, id);
    }
  }

  /** The oldest of some rows beyond the budget, by the ages that they had before. */
  ghost predicate OldestBeyond(t: Table, ids: set<Id>, budget: nat, pruned: set<Id>) {
    && pruned <= ids && |ids - pruned| == Min(|ids|, budget)
    && forall a, b {:trigger Older(t, a, b)} :: a in pruned && b in ids - pruned && a in t && b in t ==>
         t[a].created <= t[b].created
  }

  /** What cleaning up `victims` and pruning leaves. */
  ghost predicate CleansUp(env: Env, t: Table, victims: set<Id>, pruned: set<Id>, after: Table) {
    var warm := WarmIds(t) + KeptHere(env, t, victims);
    && OldestBeyond(t, warm, env.budget, pruned)
    && WarmIds(after) == warm - pruned
    && (|warm| <= env.budget ==> WarmIds(after) == warm)
    && (forall id :: id in after ==> id in t && id !in pruned)
    && (forall id :: id in t && id !in victims && id !in pruned ==> id in after && after[id] == t[id])
    && (forall id :: id in victims && id in after ==> SuspendedHere(env, id, t[id]) && SuspendedRow(t[id], after[id]))
    && (forall id :: id in victims - KeptHere(env, t, victims) ==> id !in after)
  }

  lemma PruningLeaves(env: Env, t: Table, victims: set<Id>, pruned: set<Id>)
    requires victims <= ActiveIds(t)
    requires var trimmed := Trim(env, t, victims);
             && pruned <= WarmIds(trimmed)
             && |pruned| == Max(0, |WarmIds(trimmed)| - env.budget)
             && NotNewer(trimmed, pruned, WarmIds(trimmed) - pruned)
    ensures OldestBeyond(t, WarmIds(t) + KeptHere(env, t, victims), env.budget, pruned)
  {
    var trimmed, warm := Trim(env, t, victims), WarmIds(t) + KeptHere(env, t, victims);
    WarmAfterCleanup(env, t, victims);
    CardMinus(warm, pruned);
    forall a, b | a in pruned && b in warm - pruned ensures Older(t, a, b) {
      CleanedRow(env, t, victims, a);
      CleanedRow(env, t, victims, b);
      assert Older(trimmed, a, b);
    }
  }

  lemma PrunedLeaves(env: Env, t: Table, victims: set<Id>, pruned: set<Id>)
    requires victims <= ActiveIds(t)
    requires OldestBeyond(t, WarmIds(t) + KeptHere(env, t, victims), env.budget, pruned)
    ensures CleansUp(env, t, victims, pruned, Trim(env, t, victims) - pruned)
  {
    var warm, after := WarmIds(t) + KeptHere(env, t, victims), Trim(env, t, victims) - pruned;
    WarmAfterCleanup(env, t, victims);
    PruneSets(env, Trim(env, t, victims), pruned);
    forall id ensures id in after <==> id in Trim(env, t, victims) && id !in pruned {
      CleanedRow(env, t, victims, id);
    }
    forall id | id in t && id !in victims && id !in pruned ensures id in after && after[id] == t[id] {
      CleanedRow(env, t, victims, id);
    }
    forall id | id in victims
      ensures id in after ==> SuspendedHere(env, id, t[id]) && SuspendedRow(t[id], after[id])
      ensures id !in KeptHere(env, t, victims) ==> id !in after
    {
      CleanedRow(env, t, victims, id);
    }
    if |warm| <= env.budget {
      CardMinus(warm, pruned);
      CardZero(pruned);
      assert warm - {} == warm;
    }
  }

  /**
   * Scaling to zero keeps, beside the earlier warm rows, exactly the active rows whose VM runs on this server
   * and is suspended, with their server and age, up to the budget and the newest first; the others are gone.
   */
  lemma ZeroCleansUp(env: Env, t: Table, pruned: set<Id>)
    requires ScalesToZero(env, t, pruned) && ActiveIds(t) != {}
    ensures CleansUp(env, t, ActiveIds(t), pruned, ZeroTable(env, t, pruned))
  {
    PruningLeaves(env, t, ActiveIds(t), pruned);
    PrunedLeaves(env, t, ActiveIds(t), pruned);
  }

  /** So does a scale-down with the rows that it takes. */
  lemma CutCleansUp(env: Env, t: Table, target: nat, cut: Cut)
    requires CutTo(env, t, target, cut)
    ensures CleansUp(env, t, cut.victims, cut.pruned, CutTable(env, t, cut))
  {
    PruningLeaves(env, t, cut.victims, cut.pruned);
    PrunedLeaves(env, t, cut.victims, cut.pruned);
  }

  // ---- one row through a surge and a repair --------------------------------------------------------

  /** What a surge makes of row `id`. */
  ghost predicate SurgedRow(env: Env, t: Table, clock: nat, s: Surge, after: Table, id: Id) {
    && (id in s.added ==> id in after && after[id] == Inst(Active, None, Pending, NoVm, clock))
    && (id in s.cut.pruned ==> id !in after)
    && (id in s.cut.victims && id !in s.cut.pruned ==>
          && id in t && (id in after <==> SuspendedHere(env, id, t[id]))
          && (id in after ==> SuspendedRow(t[id], after[id])))
    && (id in t && id !in s.cut.victims && id !in s.cut.pruned ==>
          && id in after
          && after[id] == Inst(if id in s.promoted then Active else t[id].role,
                               t[id].server, t[id].status, t[id].vm, t[id].created)
          && (id in s.promoted ==> t[id].role.WarmPool?))
    && (id !in t && id !in s.added ==> id !in after)
  }

  lemma CutRow(env: Env, t: Table, target: nat, cut: Cut, id: Id)
    requires CutTo(env, t, target, cut)
    ensures var u := CutTable(env, t, cut);
            && (id in u <==> id in t && id !in cut.pruned && (id !in cut.victims || SuspendedHere(env, id, t[id])))
            && (id in u ==> if id in cut.victims then SuspendedRow(t[id], u[id]) else u[id] == t[id])
  {
    CleanedRow(env, t, cut.victims, id);
  }

  lemma GrownRow(env: Env, desired: nat, t: Table, clock: nat, s: Surge, id: Id)
    requires Surges(env, desired, t, clock, s)
    ensures var u, after := CutTable(env, t, s.cut), SurgeTable(env, t, clock, s);
            && (id in after <==> id in u || id in s.added)
            && (id in s.added ==> id !in t && id !in s.promoted && after[id] == NewRow(clock))
            && (id in u ==> after[id] == if id in s.promoted then u[id].(role := Active) else u[id])
            && (id in u && id in s.promoted ==> u[id].role.WarmPool?)
  {
    CutKeys(env, t, s.cut);
  }

  /** Every row after a surge, from the row before it: new, suspended, promoted or as it was. */
  lemma SurgeRowByRow(env: Env, desired: nat, t: Table, clock: nat, s: Surge, id: Id)
    requires Surges(env, desired, t, clock, s)
    ensures SurgedRow(env, t, clock, s, SurgeTable(env, t, clock, s), id)
  {
    CutRow(env, t, desired + |DrainingIds(env, t)|, s.cut, id);
    GrownRow(env, desired, t, clock, s, id);
    if s.cut.victims != {} {
      VictimsMeanNonePromoted(env, desired, t, clock, s);
    }
    TrimSets(env, t, s.cut.victims);
  }

  /** Repair gives a row on a dead or drained server a fresh start at its age and leaves the others. */
  lemma RepairRowByRow(env: Env, t: Table, id: Id)
    ensures var u := Repair(env, t);
            && (id in u <==> id in t)
            && (id in t ==>
                  u[id] == if t[id].server.Some? && t[id].server.value in env.unavailable
                           then Inst(Active, None, Pending, NoVm, t[id].created) else t[id])
  {
  }

  // ---- what the counts say -------------------------------------------------------------------------

  /** Active, and its undeleted VM runs. */
  predicate ActiveAndRunning(i: Inst) { i.role.Active? && i.status.Running? && i.vm == Vm(VmRunning, false) }

  /** Running off the draining servers, and its host answered. */
  predicate ServesElsewhere(env: Env, id: Id, i: Inst) {
    ActiveAndRunning(i) && id in env.probed && (i.server.Some? ==> i.server.value !in env.draining)
  }

  /** Running, healthy if it is this server's own, and answering unless the VM's state is trusted. */
  predicate Serves(env: Env, id: Id, i: Inst) {
    && ActiveAndRunning(i)
    && (i.server == Some(env.local) ==> id in env.locallyHealthy)
    && (id in env.probed || env.trustsVm)
  }

  ghost predicate AllServeElsewhere(env: Env, t: Table, ids: set<Id>) {
    forall id :: id in ids ==> id in t && ServesElsewhere(env, id, t[id])
  }

  ghost predicate AllServe(env: Env, t: Table, ids: set<Id>) {
    forall id :: id in ids ==> id in t && Serves(env, id, t[id])
  }

  /** An active row sits on a draining server. */
  ghost predicate StillDraining(env: Env, t: Table) {
    exists id :: id in t && t[id].role.Active? && t[id].server.Some? && t[id].server.value in env.draining
  }

  lemma StillDrainingIff(env: Env, t: Table)
    ensures StillDraining(env, t) <==> DrainingIds(env, t) != {}
  {
    if DrainingIds(env, t) != {} {
      var id :| id in DrainingIds(env, t);
    }
    if StillDraining(env, t) {
      var id :| id in t && t[id].role.Active? && t[id].server.Some? && t[id].server.value in env.draining;
      assert id in DrainingIds(env, t);
    }
  }

  /**
   * Retirement leaves no active row on a draining server exactly when there was none, or when the wanted
   * number of active rows with a running VM and an answering host is off those servers.
   */
  lemma RetiresIffServedElsewhere(env: Env, desired: nat, t: Table, r: Retirement)
    requires Retires(env, desired, t, r)
    ensures !StillDraining(env, RetireTable(env, t, r))
            <==> || !StillDraining(env, t)
                 || exists ids: set<Id> :: |ids| >= desired && AllServeElsewhere(env, t, ids)
  {
    EvacuatedIff(env, desired, t, r);
    StillDrainingIff(env, t);
    StillDrainingIff(env, RetireTable(env, t, r));
    assert AllServeElsewhere(env, t, ReadyOffIds(env, t));
    forall ids: set<Id> | AllServeElsewhere(env, t, ids) ensures |ids| <= |ReadyOffIds(env, t)| {
      CardSub(ids, ReadyOffIds(env, t));
    }
  }

  /** The readiness that marks a deployment as running. */
  lemma ReadyIffServed(env: Env, desired: nat, t: Table)
    ensures |ReadyIds(env, t)| >= desired <==> exists ids: set<Id> :: |ids| >= desired && AllServe(env, t, ids)
  {
    assert AllServe(env, t, ReadyIds(env, t));
    forall ids: set<Id> | AllServe(env, t, ids) ensures |ids| <= |ReadyIds(env, t)| {
      CardSub(ids, ReadyIds(env, t));
    }
  }
}
