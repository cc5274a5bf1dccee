/** The deployer: the operations of `Instances` carried out on the rows in place. */
module Deployer {

  import opened Instances
  import opened Options
  import opened RowFields

  /** The newest of some rows. */
  method Newest(t: Table, ids: set<Id>) returns (newest: Id)
    requires ids != {} && ids <= t.Keys
    ensures newest in ids
    ensures forall a :: a in ids ==> Older(t, a, newest)
  {
    newest :| newest in ids;
    var left := ids - {newest};
    while left != {}
      invariant left <= ids && newest in ids
      invariant forall a :: a in ids && a !in left ==> t[a].created <= t[newest].created
      decreases left
    {
      var next :| next in left;
      left := left - {next};
      if t[newest].created < t[next].created {
        newest := next;
      }
    }
  }

  /** The rows sorted newest first; rows of one age come in any order. */
  method NewestFirst(t: Table, ids: set<Id>) returns (sorted: seq<Id>)
    requires ids <= t.Keys
    ensures forall x :: x in sorted <==> x in ids
    ensures |sorted| == |ids|
    ensures forall i, j :: 0 <= i < j < |sorted| ==> sorted[i] != sorted[j] && Older(t, sorted[j], sorted[i])
  {
    sorted := [];
    var left := ids;
    while left != {}
      invariant left <= ids && |sorted| + |left| == |ids|
      invariant forall x :: x in sorted <==> x in ids - left
      invariant forall i, j :: 0 <= i < j < |sorted| ==> sorted[i] != sorted[j] && Older(t, sorted[j], sorted[i])
      invariant forall i, a :: 0 <= i < |sorted| && a in left ==> Older(t, a, sorted[i])
      decreases left
    {
      var next := Newest(t, left);
      sorted := sorted + [next];
      left := left - {next};
    }
  }

  class Rows {
    var rows: Table
    /** The deployment has been marked running. */
    var running: bool

    /** Suspends the instance into the warm pool if that is possible, and deletes it otherwise. */
    method CleanupInstance(env: Env, id: Id)
      requires id in rows
      modifies this`rows
      ensures rows == Trim(env, old(rows), {id})
      ensures rows.Keys == if SuspendedHere(env, id, old(rows)[id]) then old(rows).Keys else old(rows).Keys - {id}
      ensures id in rows ==> SuspendedRow(old(rows)[id], rows[id])
      ensures forall other :: other in rows && other != id ==> rows[other] == old(rows)[other]
    {
      var inst := rows[id];
      if inst.vm == Vm(VmRunning, false) && env.suspends && inst.server == Some(env.local) && id in env.suspendOk {
        rows := rows[id := Demoted(rows[id])];
      } else {
        rows := rows - {id};
      }
    }

    /** Deletes all but the newest `keep` warm rows. */
    method PruneWarmPool(keep: nat) returns (ghost pruned: set<Id>)
      modifies this`rows
      ensures Prunes(old(rows), keep, pruned)
      ensures rows == old(rows) - pruned
    {
      var warm := NewestFirst(rows, WarmIds(rows));
      pruned := {};
      if |warm| <= keep {
        return;
      }
      var i := keep;
      while i < |warm|
        invariant keep <= i <= |warm| && |pruned| == i - keep
        invariant pruned <= WarmIds(old(rows))
        invariant forall k :: 0 <= k < |warm| ==> (warm[k] in pruned <==> keep <= k < i)
        invariant rows == old(rows) - pruned
      {
        rows := rows - {warm[i]};
        pruned := pruned + {warm[i]};
        i := i + 1;
      }
      LastAreOldest(old(rows), WarmIds(old(rows)), warm, keep, pruned);
    }

    /**
     * Cleans up the newest active rows off draining servers until at most `target` rows are active,
     * falling back to the newest row of any kind, and then prunes the warm rows.
     */
    method ScaleDownExcess(env: Env, target: nat) returns (ghost cut: Cut)
      modifies this`rows
      ensures |ActiveIds(rows)| == Min(|ActiveIds(old(rows))|, target)
      ensures |DrainingIds(env, old(rows))| <= target ==>
                CutTo(env, old(rows), target, cut) && rows == CutTable(env, old(rows), cut)
    {
      ghost var start, victims := rows, {};
      while |ActiveIds(rows)| > target
        invariant |ActiveIds(rows)| <= |ActiveIds(start)|
        invariant |ActiveIds(rows)| >= Min(|ActiveIds(start)|, target)
        invariant |DrainingIds(env, start)| <= target ==> Trimming(env, start, victims, rows)
        decreases |ActiveIds(rows)|, |SpareRunningIds(rows)|, |rows.Keys|
      {
        var victim := ChooseVictim(env, rows);
        if |DrainingIds(env, start)| <= target {
          TrimmingStep(env, start, victims, rows, victim, target);
        }
        CleanupShrinks(env, rows, victim);
        CleanupInstance(env, victim);
        victims := victims + {victim};
      }
      ghost var trimmed := rows;
      ghost var pruned := PruneWarmPool(env.budget);
      cut := Cut(victims, pruned);
      PruneSets(env, trimmed, pruned);
      if |DrainingIds(env, start)| <= target {
        TrimmingDone(env, start, victims, trimmed, target);
      }
    }

    /** Adds rows until active and warm rows together reach `target`. */
    method EnsureInstanceCountUp(target: nat, clock: nat, ghost taken: set<Id>, newId: Table -> Id)
      returns (ghost added: set<Id>)
      requires forall u :: newId(u) !in u && newId(u) !in taken
      requires rows.Keys <= taken
      modifies this`rows
      ensures added !! taken
      ensures |added| == Max(0, target - |ActiveIds(old(rows))| - |WarmIds(old(rows))|)
      ensures rows == Create(old(rows), added, clock)
    {
      ghost var start := rows;
      added := {};
      assert rows == Create(start, {}, clock);
      while |ActiveIds(rows)| + |WarmIds(rows)| < target
        invariant added !! taken && rows == Create(start, added, clock)
        invariant |ActiveIds(rows)| + |WarmIds(rows)| == |ActiveIds(start)| + |WarmIds(start)| + |added|
        invariant added != {} ==> |ActiveIds(rows)| + |WarmIds(rows)| <= target
        decreases target - |ActiveIds(rows)| - |WarmIds(rows)|
      {
        var id := newId(rows);
        AddRow(start, added, clock, id);
        rows := rows[id := NewRow(clock)];
        added := added + {id};
      }
    }

    /** Promotes the oldest warm rows while fewer than `desired` rows are active. */
    method ActivateWarmPool(desired: nat) returns (ghost promoted: set<Id>)
      modifies this`rows
      ensures promoted <= WarmIds(old(rows))
      ensures |promoted| == Min(|WarmIds(old(rows))|, Max(0, desired - |ActiveIds(old(rows))|))
      ensures NotNewer(old(rows), promoted, WarmIds(old(rows)) - promoted)
      ensures rows == Promote(old(rows), promoted)
    {
      var warm := NewestFirst(rows, WarmIds(rows));
      var deficit := Max(0, desired - |ActiveIds(rows)|);
      var i := |warm|;
      promoted := {};
      while i > 0 && |warm| - i < deficit
        invariant 0 <= i <= |warm| && |promoted| == |warm| - i <= deficit
        invariant promoted <= WarmIds(old(rows))
        invariant forall k :: 0 <= k < |warm| ==> (warm[k] in promoted <==> i <= k)
        invariant rows == Promote(old(rows), promoted)
      {
        i := i - 1;
        rows := rows[warm[i] := rows[warm[i]].(role := Active)];
        promoted := promoted + {warm[i]};
      }
      LastAreOldest(old(rows), WarmIds(old(rows)), warm, i, promoted);
    }

    /** The surge of a pass. */
    method SurgeRows(env: Env, desired: nat, clock: nat, newId: Table -> Id) returns (ghost s: Surge)
      requires forall u :: newId(u) !in u && newId(u) !in rows
      modifies this`rows
      ensures Surges(env, desired, old(rows), clock, s)
      ensures rows == SurgeTable(env, old(rows), clock, s)
    {
      ghost var start := rows;
      var target := desired + |DrainingIds(env, rows)|;
      ghost var cut := ScaleDownExcess(env, target);
      CutKeys(env, start, cut);
      ghost var added := EnsureInstanceCountUp(target, clock, start.Keys, newId);
      ghost var promoted := ActivateWarmPool(desired);
      s := Surge(cut, added, promoted);
    }

    /** Deletes the active rows on draining servers once enough rows are ready elsewhere. */
    method RemoveInstancesOnDrainingServers(env: Env, desired: nat)
      modifies this`rows
      ensures rows == old(rows) - if |ReadyOffIds(env, old(rows))| >= desired then DrainingIds(env, old(rows)) else {}
    {
      if |ReadyOffIds(env, rows)| < desired {
        assert rows - {} == rows;
        return;
      }
      var left := DrainingIds(env, rows);
      while left != {}
        invariant left <= DrainingIds(env, old(rows))
        invariant rows == old(rows) - (DrainingIds(env, old(rows)) - left)
        decreases left
      {
        var id :| id in left;
        rows := rows - {id};
        left := left - {id};
      }
    }

    /** The retirement of a pass. */
    method RetireDrainingInstances(env: Env, desired: nat) returns (ghost r: Retirement)
      modifies this`rows
      ensures Retires(env, desired, old(rows), r)
      ensures rows == RetireTable(env, old(rows), r)
    {
      r := Retirement(if |ReadyOffIds(env, rows)| >= desired then DrainingIds(env, rows) else {}, Cut({}, {}));
      ghost var start := rows;
      if |ReadyOffIds(env, rows)| >= desired && |DrainingIds(env, rows)| > 0 {
        RemoveInstancesOnDrainingServers(env, desired);
      }
      assert rows == start - r.retired;
      TrimNone(env, rows);
      CardSub(DrainingIds(env, rows), DrainingIds(env, rows));
      if |DrainingIds(env, rows)| == 0 && |ActiveIds(rows)| > desired {
        ghost var cut := ScaleDownExcess(env, desired);
        r := r.(cut := cut);
      }
    }

    /** Resets every row whose server is dead or drained. */
    method RepairInstancesOnBadServers(env: Env)
      modifies this`rows
      ensures rows == Repair(env, old(rows))
    {
      var left := rows.Keys;
      while left != {}
        invariant left <= old(rows).Keys && rows.Keys == old(rows).Keys
        invariant forall id :: id in rows ==>
          rows[id] == if id in left then old(rows)[id] else Repair(env, old(rows))[id]
        decreases left
      {
        var id :| id in left;
        left := left - {id};
        if rows[id].server.Some? && rows[id].server.value in env.unavailable {
          rows := rows[id := Reset(rows[id])];
        }
      }
    }

    /** Scales down to nothing and prunes the warm rows. */
    method ScaleDownInstancesToZero(env: Env) returns (ghost pruned: set<Id>)
      modifies this`rows
      ensures ScalesToZero(env, old(rows), pruned)
      ensures rows == ZeroTable(env, old(rows), pruned)
    {
      pruned := {};
      ghost var start, done := rows, {};
      TrimNone(env, rows);
      if |ActiveIds(rows)| == 0 {
        CardZero(ActiveIds(rows));
        return;
      }
      var sorted := NewestFirst(rows, ActiveIds(rows));
      for i := 0 to |sorted|
        invariant done <= ActiveIds(start) && rows == Trim(env, start, done)
        invariant forall k :: 0 <= k < |sorted| ==> (sorted[k] in done <==> k < i)
      {
        TrimStep(env, start, done, sorted[i]);
        CleanupInstance(env, sorted[i]);
        done := done + {sorted[i]};
      }
      assert forall id :: id in ActiveIds(start) ==> id in sorted;
      assert done == ActiveIds(start);
      pruned := PruneWarmPool(env.budget);
    }

    /** Surge, per-instance steps and retirement of a pass over repaired rows. */
    method Converge(env: Env, desired: nat, clock: nat, newId: Table -> Id, settle: Table -> (Table, bool))
      returns (deferred: bool, ghost p: Pass)
      requires env.draining !! env.unavailable
      requires forall u :: newId(u) !in u && newId(u) !in rows
      requires forall u :: Settles(env, u, settle(u).0)
      modifies this`rows
      ensures p.env == env && p.deferred == deferred && p.clock == clock
      ensures Surges(env, desired, old(rows), clock, p.surge)
      ensures Settles(env, SurgeTable(env, old(rows), clock, p.surge), p.settled)
      ensures !p.deferred ==> Retires(env, desired, p.settled, p.retirement)
      ensures rows == PassTable(p)
    {
      ghost var s := SurgeRows(env, desired, clock, newId);
      var (settled, stopped) := settle(rows);
      rows, deferred := settled, stopped;
      p := Pass(env, clock, s, settled, deferred, Retirement({}, Cut({}, {})));
      if !deferred {
        ghost var r := RetireDrainingInstances(env, desired);
        p := p.(retirement := r);
      }
    }

    /**
     * One pass. `settle` stands for the per-instance steps: the rows they leave and whether one of them
     * defers the rest of the pass. The deployment is marked running when nothing is wanted or the
     * wanted number is ready.
     */
    method ReconcileInstances(env: Env, desired: nat, clock: nat, newId: Table -> Id, settle: Table -> (Table, bool))
      returns (ghost p: Pass, ghost pruned: set<Id>)
      requires env.draining !! env.unavailable
      requires forall u :: newId(u) !in u && newId(u) !in rows
      requires forall u :: Settles(env, u, settle(u).0)
      modifies this
      ensures desired == 0 ==>
                && ScalesToZero(env, Repair(env, old(rows)), pruned)
                && rows == ZeroTable(env, Repair(env, old(rows)), pruned)
      ensures desired > 0 ==> p.env == env && PassFrom(p, desired, old(rows), rows)
      ensures running <==>
              old(running) || desired == 0 || (!p.deferred && |ReadyIds(env, rows)| >= desired)
    {
      p, pruned := IdlePass(env, rows), {};
      RepairInstancesOnBadServers(env);
      assert rows.Keys == old(rows).Keys;
      if desired == 0 {
        pruned := ScaleDownInstancesToZero(env);
        running := true;
        return;
      }
      var deferred;
      deferred, p := Converge(env, desired, clock, newId, settle);
      if !deferred && |ReadyIds(env, rows)| >= desired {
        running := true;
      }
    }
  }

  lemma CreateOneMore(t: Table, added: set<Id>, clock: nat, id: Id)
    requires id !in Create(t, added, clock)
    ensures id !in added && id !in t
    ensures Create(t, added + {id}, clock) == Create(t, added, clock)[id := NewRow(clock)]
  {
  }

  lemma AddRow(t: Table, added: set<Id>, clock: nat, id: Id)
    requires added !! t.Keys && id !in Create(t, added, clock)
    ensures |added + {id}| == |added| + 1
    ensures Create(t, added + {id}, clock) == Create(t, added, clock)[id := NewRow(clock)]
    ensures |ActiveIds(Create(t, added + {id}, clock))| == |ActiveIds(t)| + |added| + 1
    ensures |WarmIds(Create(t, added + {id}, clock))| == |WarmIds(t)|
  {
    CreateOneMore(t, added, clock, id);
    CreateCounts(t, added + {id}, clock);
  }

  /** The oldest warm rows beyond the number to keep. */
  ghost predicate Prunes(t: Table, keep: nat, pruned: set<Id>) {
    && pruned <= WarmIds(t)
    && |pruned| == Max(0, |WarmIds(t)| - keep)
    && NotNewer(t, pruned, WarmIds(t) - pruned)
  }

  lemma LastAreOldest(t: Table, ids: set<Id>, sorted: seq<Id>, keep: nat, last: set<Id>)
    requires forall x :: x in sorted <==> x in ids
    requires forall i, j :: 0 <= i < j < |sorted| ==> sorted[i] != sorted[j] && Older(t, sorted[j], sorted[i])
    requires last <= ids && forall k :: 0 <= k < |sorted| ==> (sorted[k] in last <==> keep <= k)
    ensures NotNewer(t, last, ids - last)
  {
    forall a, b | a in last && b in ids - last ensures Older(t, a, b) {
      assert a in sorted && b in sorted;
      var k :| 0 <= k < |sorted| && sorted[k] == a;
      var j :| 0 <= j < |sorted| && sorted[j] == b;
    }
  }

  /** The newest active row off the draining servers, or the newest row if there is none. */
  method ChooseVictim(env: Env, t: Table) returns (victim: Id)
    requires t.Keys != {}
    ensures victim in t
    ensures OffIds(env, t) != {} ==> victim in OffIds(env, t) && forall a :: a in OffIds(env, t) ==> Older(t, a, victim)
    ensures OffIds(env, t) == {} ==> forall a :: a in t ==> Older(t, a, victim)
  {
    var sorted := NewestFirst(t, t.Keys);
    for i := 0 to |sorted|
      invariant forall k :: 0 <= k < i ==> sorted[k] !in OffIds(env, t)
    {
      if sorted[i] in t && t[sorted[i]].role.Active? && !OnDraining(env, t[sorted[i]]) {
        victim := sorted[i];
        assert victim in OffIds(env, t);
        forall a | a in OffIds(env, t) ensures Older(t, a, victim) {
          assert a in sorted;
          var k :| 0 <= k < |sorted| && sorted[k] == a;
          assert k >= i;
        }
        return;
      }
    }
    forall a | a in t ensures Older(t, a, sorted[0]) && a !in OffIds(env, t) {
      assert a in sorted;
      var k :| 0 <= k < |sorted| && sorted[k] == a;
    }
    victim := sorted[0];
  }

  /** Rows that are not active but have a running VM; cleaning one up may keep it, once. */
  function SpareRunningIds(t: Table): set<Id> {
    set id | id in t && !t[id].role.Active? && t[id].vm.Vm? && !t[id].vm.deleted && t[id].vm.status.VmRunning?
  }

  lemma CleanupOfActive(env: Env, t: Table, id: Id)
    requires id in t && t[id].role.Active?
    ensures |ActiveIds(Trim(env, t, {id}))| == |ActiveIds(t)| - 1
  {
    assert ActiveIds(Trim(env, t, {id})) == ActiveIds(t) - {id};
    CardMinus(ActiveIds(t), {id});
  }

  lemma CleanupOfSpare(env: Env, t: Table, id: Id)
    requires id in t && !t[id].role.Active?
    ensures ActiveIds(Trim(env, t, {id})) == ActiveIds(t)
    ensures SpareRunningIds(Trim(env, t, {id})) == SpareRunningIds(t) - {id}
    ensures Trim(env, t, {id}).Keys == t.Keys - if Suspendable(env, id, t[id]) then {} else {id}
  {
  }

  /** Cleaning up a row makes progress whatever the row is. */
  lemma CleanupShrinks(env: Env, t: Table, id: Id)
    requires id in t
    ensures var u := Trim(env, t, {id});
            if t[id].role.Active? then |ActiveIds(u)| == |ActiveIds(t)| - 1
            else
              && |ActiveIds(u)| == |ActiveIds(t)|
              && |SpareRunningIds(u)| <= |SpareRunningIds(t)|
              && (|SpareRunningIds(u)| < |SpareRunningIds(t)| || |u.Keys| < |t.Keys|)
  {
    if t[id].role.Active? {
      CleanupOfActive(env, t, id);
    } else {
      CleanupOfSpare(env, t, id);
      if id in SpareRunningIds(t) {
        CardMinus(SpareRunningIds(t), {id});
      }
      CardMinus(t.Keys, {id});
    }
  }

  /** How far the scale-down loop has got. */
  ghost predicate Trimming(env: Env, start: Table, victims: set<Id>, now: Table) {
    && victims <= OffIds(env, start)
    && now == Trim(env, start, victims)
    && NotNewer(start, OffIds(env, start) - victims, victims)
  }

  lemma TrimmingCounts(env: Env, start: Table, victims: set<Id>, now: Table)
    requires Trimming(env, start, victims, now)
    ensures OffIds(env, now) == OffIds(env, start) - victims
    ensures |ActiveIds(now)| == |ActiveIds(start)| - |victims|
    ensures |ActiveIds(now)| == |OffIds(env, now)| + |DrainingIds(env, start)|
  {
    TrimSets(env, start, victims);
    CardMinus(ActiveIds(start), victims);
    OffCount(env, now);
  }

  lemma TrimmingStep(env: Env, start: Table, victims: set<Id>, now: Table, victim: Id, target: nat)
    requires Trimming(env, start, victims, now)
    requires |ActiveIds(now)| > target >= |DrainingIds(env, start)|
    requires OffIds(env, now) != {} ==>
               victim in OffIds(env, now) && forall a :: a in OffIds(env, now) ==> Older(now, a, victim)
    ensures Trimming(env, start, victims + {victim}, Trim(env, now, {victim}))
  {
    TrimmingCounts(env, start, victims, now);
    assert OffIds(env, now) != {};
    TrimStep(env, start, victims, victim);
    forall a, b | a in OffIds(env, start) - (victims + {victim}) && b in victims + {victim}
      ensures Older(start, a, b)
    {
      if b == victim {
        assert Older(now, a, victim);
      }
    }
  }

  lemma TrimmingDone(env: Env, start: Table, victims: set<Id>, now: Table, target: nat)
    requires Trimming(env, start, victims, now)
    requires |ActiveIds(now)| == Min(|ActiveIds(start)|, target)
    ensures victims <= ActiveIds(start) - DrainingIds(env, start)
    ensures |victims| == Max(0, |ActiveIds(start)| - target)
    ensures now == Trim(env, start, victims)
    ensures NotNewer(start, ActiveIds(start) - DrainingIds(env, start) - victims, victims)
  {
    TrimmingCounts(env, start, victims, now);
  }
}
