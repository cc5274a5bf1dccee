/**
 * One deployment's instance rows and the operations that a convergence pass applies to them: repair,
 * scale-down with a warm pool, surge, promotion and retirement.
 */
module Instances {
  import opened Options

  type Id = nat
  type Server = nat

  datatype Role = Active | WarmPool | Template
  datatype Status = Pending | Starting | Running | Stopped | Failed
  datatype VmStatus = VmStarting | VmRunning | VmSuspended | VmOther
  datatype Vm = NoVm | Vm(status: VmStatus, deleted: bool)

  datatype Inst = Inst(role: Role, server: Option<Server>, status: Status, vm: Vm, created: nat)

  /** The rows of the deployment that are not deleted. */
  type Table = map<Id, Inst>

  /**
   * What a pass sees of the world: server states, the runtime's abilities and the outcome of probes
   * and of suspensions. `probed` holds the instances whose host probe succeeds or is not needed.
   */
  datatype Env = Env(
    draining: set<Server>, unavailable: set<Server>, local: Server,
    suspends: bool, suspendOk: set<Id>, budget: nat,
    probed: set<Id>, locallyHealthy: set<Id>, trustsVm: bool)

  function ActiveIds(t: Table): set<Id> {
    set id | id in t && t[id].role.Active?
  }

  function WarmIds(t: Table): set<Id> {
    set id | id in t && t[id].role.WarmPool?
  }

  predicate OnDraining(env: Env, i: Inst) {
    i.server.Some? && i.server.value in env.draining
  }

  /** Active rows on draining servers. */
  function DrainingIds(env: Env, t: Table): set<Id> {
    set id | id in t && t[id].role.Active? && OnDraining(env, t[id])
  }

  predicate Runs(i: Inst) {
    i.status.Running? && i.vm.Vm? && !i.vm.deleted && i.vm.status.VmRunning?
  }

  /** Rows counted as ready capacity elsewhere when a server drains. */
  function ReadyOffIds(env: Env, t: Table): set<Id> {
    set id | id in t && t[id].role.Active? && Runs(t[id]) && id in env.probed && !OnDraining(env, t[id])
  }

  /** A running row that the per-instance step leaves alone. */
  predicate Healthy(env: Env, id: Id, i: Inst) {
    && Runs(i)
    && (i.server == Some(env.local) ==> id in env.locallyHealthy)
    && (env.trustsVm || id in env.probed)
  }

  /** Rows counted as ready before the deployment is promoted. */
  function ReadyIds(env: Env, t: Table): set<Id> {
    set id | id in t && t[id].role.Active? && Healthy(env, id, t[id])
  }

  function Max(a: int, b: int): int { if a < b then b else a }
  function Min(a: int, b: int): int { if a < b then a else b }

  lemma CardMinus(a: set<Id>, b: set<Id>)
    requires b <= a
    ensures |a - b| == |a| - |b|
  {
  }

  lemma CardSub(a: set<Id>, b: set<Id>)
    requires a <= b
    ensures |a| <= |b| && (a == {} <==> |a| == 0)
  {
    CardMinus(b, a);
  }

  lemma CardPlus(a: set<Id>, b: set<Id>)
    requires a !! b
    ensures |a + b| == |a| + |b|
  {
  }

  // ---- cleaning up rows ------------------------------------------------------------------------

  /** Cleaning up keeps the row as warm capacity instead of deleting it. */
  predicate Suspendable(env: Env, id: Id, i: Inst) {
    && i.vm.Vm? && !i.vm.deleted && i.vm.status.VmRunning?
    && env.suspends && i.server == Some(env.local) && id in env.suspendOk
  }

  function Demoted(i: Inst): Inst {
    i.(role := WarmPool, status := Stopped, vm := Vm(VmSuspended, false))
  }

  /** All of `victims` cleaned up. */
  function Trim(env: Env, t: Table, victims: set<Id>): Table {
    map id | id in t && (id !in victims || Suspendable(env, id, t[id])) ::
      if id in victims then Demoted(t[id]) else t[id]
  }

  /** The victims that survive as warm capacity. */
  function KeptWarm(env: Env, t: Table, victims: set<Id>): set<Id> {
    set id | id in victims && id in t && Suspendable(env, id, t[id])
  }

  lemma TrimSets(env: Env, t: Table, victims: set<Id>)
    requires victims <= ActiveIds(t) - DrainingIds(env, t)
    ensures ActiveIds(Trim(env, t, victims)) == ActiveIds(t) - victims
    ensures WarmIds(Trim(env, t, victims)) == WarmIds(t) + KeptWarm(env, t, victims)
    ensures DrainingIds(env, Trim(env, t, victims)) == DrainingIds(env, t)
  {
  }

  lemma TrimStep(env: Env, t: Table, victims: set<Id>, v: Id)
    requires victims <= ActiveIds(t) && v in ActiveIds(t) - victims
    ensures Trim(env, Trim(env, t, victims), {v}) == Trim(env, t, victims + {v})
  {
  }

  // ---- the surge -------------------------------------------------------------------------------

  /** A row as it is created. */
  function NewRow(clock: nat): Inst {
    Inst(Active, None, Pending, NoVm, clock)
  }

  function Create(t: Table, added: set<Id>, clock: nat): Table {
    t + map id | id in added :: NewRow(clock)
  }

  function Promote(t: Table, ids: set<Id>): Table {
    map id | id in t :: if id in ids then t[id].(role := Active) else t[id]
  }

  predicate Older(t: Table, a: Id, b: Id) {
    a in t && b in t ==> t[a].created <= t[b].created
  }

  /** None of `older` was created after any of `newer`. */
  ghost predicate NotNewer(t: Table, older: set<Id>, newer: set<Id>) {
    forall a, b {:trigger Older(t, a, b)} :: a in older && b in newer ==> Older(t, a, b)
  }

  /** Which rows a scale-down cleans up and which warm rows it then prunes. */
  datatype Cut = Cut(victims: set<Id>, pruned: set<Id>)

  function CutTable(env: Env, t: Table, cut: Cut): Table {
    Trim(env, t, cut.victims) - cut.pruned
  }

  /**
   * The scale-down to `target`: the newest active rows off draining servers go, as many as are in
   * excess, and then the oldest warm rows beyond the budget.
   */
  ghost predicate CutTo(env: Env, t: Table, target: nat, cut: Cut) {
    var trimmed := Trim(env, t, cut.victims);
    && cut.victims <= ActiveIds(t) - DrainingIds(env, t)
    && |cut.victims| == Max(0, |ActiveIds(t)| - target)
    && NotNewer(t, ActiveIds(t) - DrainingIds(env, t) - cut.victims, cut.victims)
    && cut.pruned <= WarmIds(trimmed)
    && |cut.pruned| == Max(0, |WarmIds(trimmed)| - env.budget)
    && NotNewer(trimmed, cut.pruned, WarmIds(trimmed) - cut.pruned)
  }

  lemma PruneSets(env: Env, t: Table, pruned: set<Id>)
    requires pruned <= WarmIds(t)
    ensures ActiveIds(t - pruned) == ActiveIds(t)
    ensures WarmIds(t - pruned) == WarmIds(t) - pruned
    ensures DrainingIds(env, t - pruned) == DrainingIds(env, t)
  {
  }

  lemma CutKeys(env: Env, t: Table, cut: Cut)
    ensures CutTable(env, t, cut).Keys <= t.Keys
  {
  }

  /** The rows after a scale-down. */
  lemma CutSets(env: Env, t: Table, target: nat, cut: Cut)
    requires CutTo(env, t, target, cut)
    ensures ActiveIds(CutTable(env, t, cut)) == ActiveIds(t) - cut.victims
    ensures WarmIds(CutTable(env, t, cut)) == WarmIds(t) + KeptWarm(env, t, cut.victims) - cut.pruned
    ensures DrainingIds(env, CutTable(env, t, cut)) == DrainingIds(env, t)
  {
    TrimSets(env, t, cut.victims);
    PruneSets(env, Trim(env, t, cut.victims), cut.pruned);
  }

  /** Their numbers. */
  lemma CutCounts(env: Env, t: Table, target: nat, cut: Cut)
    requires CutTo(env, t, target, cut)
    ensures |ActiveIds(CutTable(env, t, cut))| == Min(|ActiveIds(t)|, target)
    ensures |WarmIds(CutTable(env, t, cut))|
            == Min(|WarmIds(t) + KeptWarm(env, t, cut.victims)|, env.budget)
    ensures DrainingIds(env, CutTable(env, t, cut)) == DrainingIds(env, t)
  {
    CutSets(env, t, target, cut);
    TrimSets(env, t, cut.victims);
    CardMinus(ActiveIds(t), cut.victims);
    CardMinus(WarmIds(t) + KeptWarm(env, t, cut.victims), cut.pruned);
  }

  /** The rows that one surge cuts, adds and promotes. */
  datatype Surge = Surge(cut: Cut, added: set<Id>, promoted: set<Id>)

  function Grown(env: Env, t: Table, clock: nat, s: Surge): Table {
    Create(CutTable(env, t, s.cut), s.added, clock)
  }

  function SurgeTable(env: Env, t: Table, clock: nat, s: Surge): Table {
    Promote(Grown(env, t, clock, s), s.promoted)
  }

  /**
   * The surge: cut down to the wanted count plus one spare for each active row on a draining server,
   * add rows until active and warm rows together reach that number, then promote the oldest warm rows
   * while fewer than the wanted count are active.
   */
  ghost predicate Surges(env: Env, desired: nat, t: Table, clock: nat, s: Surge) {
    var target := desired + |DrainingIds(env, t)|;
    var cut, grown := CutTable(env, t, s.cut), Grown(env, t, clock, s);
    && CutTo(env, t, target, s.cut)
    && s.added !! t.Keys
    && |s.added| == Max(0, target - |ActiveIds(cut)| - |WarmIds(cut)|)
    && s.promoted <= WarmIds(grown)
    && |s.promoted| == Min(|WarmIds(grown)|, Max(0, desired - |ActiveIds(grown)|))
    && NotNewer(grown, s.promoted, WarmIds(grown) - s.promoted)
  }

  lemma CreateSets(t: Table, added: set<Id>, clock: nat)
    requires added !! t.Keys
    ensures ActiveIds(Create(t, added, clock)) == ActiveIds(t) + added
    ensures WarmIds(Create(t, added, clock)) == WarmIds(t)
    ensures ActiveIds(t) !! added
  {
  }

  lemma PromoteSets(env: Env, t: Table, ids: set<Id>)
    requires ids <= WarmIds(t)
    ensures ActiveIds(Promote(t, ids)) == ActiveIds(t) + ids
    ensures WarmIds(Promote(t, ids)) == WarmIds(t) - ids
    ensures DrainingIds(env, Promote(t, ids)) == DrainingIds(env, t) + OnDrainingOf(env, t, ids)
    ensures ActiveIds(t) !! ids && DrainingIds(env, t) !! OnDrainingOf(env, t, ids)
  {
  }

  /** Those of `ids` that sit on draining servers. */
  function OnDrainingOf(env: Env, t: Table, ids: set<Id>): set<Id> {
    set id | id in ids && id in t && OnDraining(env, t[id])
  }

  /** Warm rows that the cut leaves. */
  function WarmLeft(env: Env, t: Table, cut: Cut): nat {
    Min(|WarmIds(t) + KeptWarm(env, t, cut.victims)|, env.budget)
  }

  /** The promoted rows that sit on draining servers. */
  function PromotedOnDraining(env: Env, t: Table, clock: nat, s: Surge): set<Id> {
    OnDrainingOf(env, Grown(env, t, clock, s), s.promoted)
  }

  lemma CreateCounts(t: Table, added: set<Id>, clock: nat)
    requires added !! t.Keys
    ensures |ActiveIds(Create(t, added, clock))| == |ActiveIds(t)| + |added|
    ensures |WarmIds(Create(t, added, clock))| == |WarmIds(t)|
  {
    CreateSets(t, added, clock);
    CardPlus(ActiveIds(t), added);
  }

  lemma CreateDraining(env: Env, t: Table, added: set<Id>, clock: nat)
    requires added !! t.Keys
    ensures DrainingIds(env, Create(t, added, clock)) == DrainingIds(env, t)
  {
  }

  lemma PromoteCounts(env: Env, t: Table, ids: set<Id>)
    requires ids <= WarmIds(t)
    ensures |ActiveIds(Promote(t, ids))| == |ActiveIds(t)| + |ids|
    ensures |WarmIds(Promote(t, ids))| == |WarmIds(t)| - |ids|
    ensures DrainingIds(env, Promote(t, ids)) == DrainingIds(env, t) + OnDrainingOf(env, t, ids)
    ensures |DrainingIds(env, Promote(t, ids))| == |DrainingIds(env, t)| + |OnDrainingOf(env, t, ids)|
  {
    PromoteSets(env, t, ids);
    CardPlus(ActiveIds(t), ids);
    CardMinus(WarmIds(t), ids);
    CardPlus(DrainingIds(env, t), OnDrainingOf(env, t, ids));
  }

  lemma GrownCounts(env: Env, desired: nat, t: Table, clock: nat, s: Surge)
    requires Surges(env, desired, t, clock, s)
    ensures var target := desired + |DrainingIds(env, t)|;
            var warm, grown := WarmLeft(env, t, s.cut), Grown(env, t, clock, s);
            && |ActiveIds(grown)| == Max(Min(|ActiveIds(t)|, target), target - warm)
            && |WarmIds(grown)| == warm
            && DrainingIds(env, grown) == DrainingIds(env, t)
  {
    CutCounts(env, t, desired + |DrainingIds(env, t)|, s.cut);
    CutKeys(env, t, s.cut);
    CreateCounts(CutTable(env, t, s.cut), s.added, clock);
    CreateDraining(env, CutTable(env, t, s.cut), s.added, clock);
  }

  /** Every count after a surge, from the counts before it. */
  lemma SurgeCounts(env: Env, desired: nat, t: Table, clock: nat, s: Surge)
    requires Surges(env, desired, t, clock, s)
    ensures var target := desired + |DrainingIds(env, t)|;
            var warm := WarmLeft(env, t, s.cut);
            var grown := Max(Min(|ActiveIds(t)|, target), target - warm);
            var promoted := Min(warm, Max(0, desired - grown));
            var after := SurgeTable(env, t, clock, s);
            && |ActiveIds(after)| == grown + promoted
            && |WarmIds(after)| == warm - promoted
            && |s.promoted| == promoted
            && DrainingIds(env, after) == DrainingIds(env, t) + PromotedOnDraining(env, t, clock, s)
            && |DrainingIds(env, after)| == |DrainingIds(env, t)| + |PromotedOnDraining(env, t, clock, s)|
  {
    GrownCounts(env, desired, t, clock, s);
    PromoteCounts(env, Grown(env, t, clock, s), s.promoted);
  }

  /** Rows that are active and not on a draining server. */
  function OffIds(env: Env, t: Table): set<Id> {
    ActiveIds(t) - DrainingIds(env, t)
  }

  lemma OffCount(env: Env, t: Table)
    ensures |OffIds(env, t)| == |ActiveIds(t)| - |DrainingIds(env, t)|
  {
    assert DrainingIds(env, t) <= ActiveIds(t);
  }

  /**
   * A surge never leaves fewer than the wanted number of active rows, never more than that plus the
   * rows it found draining, keeps every row that was on a draining server as it was, and has warm and
   * active rows together reach the surge target.
   */
  lemma SurgeBounds(env: Env, desired: nat, t: Table, clock: nat, s: Surge)
    requires Surges(env, desired, t, clock, s)
    ensures var after, draining := SurgeTable(env, t, clock, s), |DrainingIds(env, t)|;
            && desired <= |ActiveIds(after)| <= desired + draining
            && desired + draining <= |ActiveIds(after)| + |WarmIds(after)|
            && (forall id :: id in DrainingIds(env, t) ==> id in after && after[id] == t[id])
  {
    SurgeCounts(env, desired, t, clock, s);
    TrimSets(env, t, s.cut.victims);
    var after := SurgeTable(env, t, clock, s);
    forall id | id in DrainingIds(env, t) ensures id in after && after[id] == t[id] {
      var trimmed := Trim(env, t, s.cut.victims);
      assert id in trimmed && trimmed[id] == t[id];
      assert id !in WarmIds(trimmed);
      var cut := CutTable(env, t, s.cut);
      assert id in cut && cut[id] == t[id];
      var grown := Grown(env, t, clock, s);
      assert id in grown && grown[id] == t[id];
    }
  }

  lemma WarmLeftWithoutExcess(env: Env, desired: nat, t: Table, cut: Cut)
    requires CutTo(env, t, desired + |DrainingIds(env, t)|, cut)
    requires |ActiveIds(t)| < desired + |DrainingIds(env, t)|
    ensures WarmLeft(env, t, cut) == Min(|WarmIds(t)|, env.budget)
  {
    CardZero(cut.victims);
    TrimNone(env, t);
    assert WarmIds(t) + {} == WarmIds(t);
  }

  /**
   * After a surge the wanted number of active rows lies off the draining servers exactly when there
   * were enough active rows to begin with, or no warm row could be counted in their place, or no
   * active row was on a draining server and none came there by promotion.
   */
  lemma SurgeCoversByPromotion(env: Env, desired: nat, t: Table, clock: nat, s: Surge)
    requires Surges(env, desired, t, clock, s)
    ensures |OffIds(env, SurgeTable(env, t, clock, s))| >= desired
            <==> || |ActiveIds(t)| >= desired + |DrainingIds(env, t)|
                 || Min(|WarmIds(t)|, env.budget) == 0
                 || (DrainingIds(env, t) == {} && PromotedOnDraining(env, t, clock, s) == {})
  {
    SurgeCounts(env, desired, t, clock, s);
    OffCount(env, SurgeTable(env, t, clock, s));
    CardSub(PromotedOnDraining(env, t, clock, s), s.promoted);
    CardSub(DrainingIds(env, t), DrainingIds(env, t));
    if |ActiveIds(t)| < desired + |DrainingIds(env, t)| {
      WarmLeftWithoutExcess(env, desired, t, s.cut);
    }
  }

  /** A promoted row sits on a draining server only if a warm row already did. */
  lemma PromotedWereWarm(env: Env, desired: nat, t: Table, clock: nat, s: Surge)
    requires Surges(env, desired, t, clock, s)
    requires OnDrainingOf(env, t, WarmIds(t)) == {}
    ensures PromotedOnDraining(env, t, clock, s) == {}
  {
    var grown := Grown(env, t, clock, s);
    forall id | id in s.promoted ensures id in grown && !OnDraining(env, grown[id]) {
      assert id in WarmIds(grown);
      assert id in t && grown[id].server == t[id].server;
      if id in s.cut.victims {
        assert id !in DrainingIds(env, t);
      } else {
        assert id in WarmIds(t) && id !in OnDrainingOf(env, t, WarmIds(t));
      }
    }
  }

  /** The tables on which a surge has nothing to do. */
  ghost predicate SurgeIdle(env: Env, desired: nat, t: Table) {
    var active, warm, target := |ActiveIds(t)|, |WarmIds(t)|, desired + |DrainingIds(env, t)|;
    desired <= active <= target <= active + warm && warm <= env.budget
  }

  lemma TrimNone(env: Env, t: Table)
    ensures Trim(env, t, {}) == t && KeptWarm(env, t, {}) == {} && t - {} == t
    ensures CutTable(env, t, Cut({}, {})) == t
  {
  }

  lemma SurgeNone(env: Env, t: Table, clock: nat)
    ensures SurgeTable(env, t, clock, Surge(Cut({}, {}), {}, {})) == t
  {
    TrimNone(env, t);
    assert Create(t, {}, clock) == t;
    assert Promote(t, {}) == t;
  }

  lemma CardZero(a: set<Id>)
    requires |a| == 0
    ensures a == {}
  {
  }

  lemma IdleSurgeIsNone(env: Env, desired: nat, t: Table, clock: nat, s: Surge)
    requires Surges(env, desired, t, clock, s) && SurgeIdle(env, desired, t)
    ensures s == Surge(Cut({}, {}), {}, {})
  {
    CardZero(s.cut.victims);
    TrimNone(env, t);
    CardZero(s.cut.pruned);
    CardZero(s.added);
    GrownCounts(env, desired, t, clock, s);
    CardZero(s.promoted);
  }

  /** On an idle table, doing nothing is a surge. */
  lemma IdleSurges(env: Env, desired: nat, t: Table)
    requires SurgeIdle(env, desired, t)
    ensures Surges(env, desired, t, 0, Surge(Cut({}, {}), {}, {}))
  {
    TrimNone(env, t);
    assert Create(t, {}, 0) == t;
  }

  /** With enough active rows, cutting the excess is all that a surge does. */
  lemma CutIsSurge(env: Env, desired: nat, t: Table, clock: nat, cut: Cut)
    requires |ActiveIds(t)| >= desired + |DrainingIds(env, t)|
    requires CutTo(env, t, desired + |DrainingIds(env, t)|, cut)
    ensures Surges(env, desired, t, clock, Surge(cut, {}, {}))
  {
    CutCounts(env, t, desired + |DrainingIds(env, t)|, cut);
    var after := CutTable(env, t, cut);
    assert Create(after, {}, clock) == after;
  }

  lemma CutOnly(env: Env, t: Table, clock: nat, cut: Cut)
    ensures SurgeTable(env, t, clock, Surge(cut, {}, {})) == CutTable(env, t, cut)
  {
    var after := CutTable(env, t, cut);
    assert Create(after, {}, clock) == after;
    assert Promote(after, {}) == after;
  }

  /** A surge leaves a table as it is exactly when the table is idle. */
  lemma SurgeFixedIff(env: Env, desired: nat, t: Table, clock: nat, s: Surge)
    requires Surges(env, desired, t, clock, s)
    ensures SurgeTable(env, t, clock, s) == t <==> SurgeIdle(env, desired, t)
  {
    SurgeBounds(env, desired, t, clock, s);
    SurgeCounts(env, desired, t, clock, s);
    if SurgeIdle(env, desired, t) {
      IdleSurgeIsNone(env, desired, t, clock, s);
      SurgeNone(env, t, clock);
    }
  }

  /** A surge after a surge changes nothing unless the first one promoted rows on draining servers. */
  lemma SurgeTwice(env: Env, desired: nat, t: Table, clock: nat, s: Surge, later: nat, again: Surge)
    requires Surges(env, desired, t, clock, s) && PromotedOnDraining(env, t, clock, s) == {}
    requires Surges(env, desired, SurgeTable(env, t, clock, s), later, again)
    ensures SurgeTable(env, SurgeTable(env, t, clock, s), later, again) == SurgeTable(env, t, clock, s)
  {
    SurgeBounds(env, desired, t, clock, s);
    SurgeCounts(env, desired, t, clock, s);
    SurgeFixedIff(env, desired, SurgeTable(env, t, clock, s), later, again);
  }

  // ---- retirement ------------------------------------------------------------------------------

  datatype Retirement = Retirement(retired: set<Id>, cut: Cut)

  function RetireTable(env: Env, t: Table, r: Retirement): Table {
    CutTable(env, t - r.retired, r.cut)
  }

  /**
   * Retirement: once the wanted number of rows is ready elsewhere, every active row on a draining
   * server is deleted; with none left there, the excess is cut down to the wanted number.
   */
  ghost predicate Retires(env: Env, desired: nat, t: Table, r: Retirement) {
    var left := t - r.retired;
    && r.retired == (if |ReadyOffIds(env, t)| >= desired then DrainingIds(env, t) else {})
    && if DrainingIds(env, left) == {} && |ActiveIds(left)| > desired
       then CutTo(env, left, desired, r.cut)
       else r.cut == Cut({}, {})
  }

  lemma WithoutDraining(env: Env, t: Table)
    ensures ActiveIds(t - DrainingIds(env, t)) == OffIds(env, t)
    ensures DrainingIds(env, t - DrainingIds(env, t)) == {}
    ensures ReadyOffIds(env, t) <= OffIds(env, t)
  {
  }

  /** Draining rows go only when the wanted number is ready elsewhere; otherwise nothing changes. */
  lemma RetirementWaits(env: Env, desired: nat, t: Table, r: Retirement)
    requires Retires(env, desired, t, r)
    requires DrainingIds(env, t) != {} && |ReadyOffIds(env, t)| < desired
    ensures RetireTable(env, t, r) == t
  {
    assert t - {} == t;
    TrimNone(env, t);
  }

  lemma CutIfExcess(env: Env, desired: nat, t: Table, cut: Cut)
    requires DrainingIds(env, t) == {}
    requires if |ActiveIds(t)| > desired then CutTo(env, t, desired, cut) else cut == Cut({}, {})
    ensures DrainingIds(env, CutTable(env, t, cut)) == {}
    ensures ActiveIds(CutTable(env, t, cut)) == ActiveIds(t) - cut.victims
    ensures |ActiveIds(CutTable(env, t, cut))| == Min(|ActiveIds(t)|, desired)
    ensures cut.victims <= ActiveIds(t)
  {
    if |ActiveIds(t)| > desired {
      CutSets(env, t, desired, cut);
      CutCounts(env, t, desired, cut);
    } else {
      TrimNone(env, t);
    }
  }

  /** The rows that retirement leaves when it does not wait. */
  lemma RetirementLeaves(env: Env, desired: nat, t: Table, r: Retirement)
    requires Retires(env, desired, t, r)
    requires DrainingIds(env, t) == {} || |ReadyOffIds(env, t)| >= desired
    ensures DrainingIds(env, RetireTable(env, t, r)) == {}
    ensures ActiveIds(RetireTable(env, t, r)) == OffIds(env, t) - r.cut.victims
    ensures |ActiveIds(RetireTable(env, t, r))| == Min(|OffIds(env, t)|, desired)
    ensures r.cut.victims <= OffIds(env, t)
  {
    assert r.retired == DrainingIds(env, t);
    WithoutDraining(env, t);
    CutIfExcess(env, desired, t - r.retired, r.cut);
  }

  /** A surviving active row is the row it was. */
  lemma SurvivorsUnchanged(env: Env, desired: nat, t: Table, r: Retirement, id: Id)
    requires Retires(env, desired, t, r) && id in OffIds(env, t) - r.cut.victims
    ensures id in RetireTable(env, t, r) && RetireTable(env, t, r)[id] == t[id]
  {
    var left := t - r.retired;
    assert id in left && left[id] == t[id];
    if DrainingIds(env, left) == {} && |ActiveIds(left)| > desired {
      TrimSets(env, left, r.cut.victims);
    }
  }

  /** No draining server keeps an active row exactly when none did or enough are ready elsewhere. */
  lemma EvacuatedIff(env: Env, desired: nat, t: Table, r: Retirement)
    requires Retires(env, desired, t, r)
    ensures DrainingIds(env, RetireTable(env, t, r)) == {}
            <==> DrainingIds(env, t) == {} || |ReadyOffIds(env, t)| >= desired
  {
    if DrainingIds(env, t) == {} || |ReadyOffIds(env, t)| >= desired {
      RetirementLeaves(env, desired, t, r);
    } else {
      RetirementWaits(env, desired, t, r);
    }
  }

  lemma ReadyAfter(env: Env, desired: nat, t: Table, r: Retirement)
    requires Retires(env, desired, t, r)
    requires DrainingIds(env, t) == {} || |ReadyOffIds(env, t)| >= desired
    ensures ReadyOffIds(env, RetireTable(env, t, r)) == ReadyOffIds(env, t) - r.cut.victims
  {
    RetirementLeaves(env, desired, t, r);
    WithoutDraining(env, t);
    var after := RetireTable(env, t, r);
    forall id | id in OffIds(env, t) - r.cut.victims ensures id in after && after[id] == t[id] {
      SurvivorsUnchanged(env, desired, t, r, id);
    }
    assert ReadyOffIds(env, after) <= ActiveIds(after);
  }

  /**
   * The deployment still has the wanted number of ready rows after retirement exactly when no row
   * that the cut spared is unready: the cut goes by age alone and can take ready rows first.
   */
  lemma StrengthKeptIff(env: Env, desired: nat, t: Table, r: Retirement)
    requires Retires(env, desired, t, r) && |ReadyOffIds(env, t)| >= desired
    ensures |ReadyOffIds(env, RetireTable(env, t, r))| >= desired
            <==> OffIds(env, t) - r.cut.victims <= ReadyOffIds(env, t)
  {
    RetirementLeaves(env, desired, t, r);
    ReadyAfter(env, desired, t, r);
    WithoutDraining(env, t);
    var spared, ready := OffIds(env, t) - r.cut.victims, ReadyOffIds(env, t) - r.cut.victims;
    assert ready <= spared;
    CardMinus(spared, ready);
    CardMinus(OffIds(env, t), ReadyOffIds(env, t));
    assert spared <= ReadyOffIds(env, t) ==> ready == spared;
    if |ready| >= desired {
      CardZero(spared - ready);
    }
  }

  // ---- which rows the cut spares -----------------------------------------------------------------

  function OlderThan(t: Table, ids: set<Id>, x: Id): set<Id> {
    set y | y in ids && y in t && x in t && t[y].created < t[x].created
  }

  ghost predicate DistinctAges(t: Table, ids: set<Id>) {
    forall a, b {:trigger Older(t, a, b)} :: a in ids && b in ids && a in t && b in t && a != b ==>
      t[a].created != t[b].created
  }

  /** With distinct ages, the cut spares exactly the rows that have few enough older ones. */
  lemma SparedIffOld(t: Table, ids: set<Id>, victims: set<Id>, x: Id)
    requires victims <= ids <= t.Keys && x in ids
    requires NotNewer(t, ids - victims, victims) && DistinctAges(t, ids)
    ensures x !in victims <==> |OlderThan(t, ids, x)| < |ids - victims|
  {
    var spared := ids - victims;
    if x !in victims {
      forall y | y in OlderThan(t, ids, x) ensures y in spared - {x} {
        assert Older(t, x, y) <==> t[x].created <= t[y].created;
      }
      CardMinus(spared, {x});
      CardMinus(spared - {x}, OlderThan(t, ids, x));
    } else {
      forall y | y in spared ensures y in OlderThan(t, ids, x) {
        assert Older(t, y, x);
      }
      CardMinus(OlderThan(t, ids, x), spared);
    }
  }

  lemma RetirementSpares(env: Env, desired: nat, t: Table, r: Retirement, x: Id)
    requires Retires(env, desired, t, r) && |ReadyOffIds(env, t)| >= desired
    requires DistinctAges(t, OffIds(env, t)) && x in OffIds(env, t)
    ensures x !in r.cut.victims <==> |OlderThan(t, OffIds(env, t), x)| < desired
  {
    RetirementLeaves(env, desired, t, r);
    WithoutDraining(env, t);
    var off, left := OffIds(env, t), t - r.retired;
    CardMinus(off, ReadyOffIds(env, t));
    forall a, b | a in off - r.cut.victims && b in r.cut.victims ensures Older(t, a, b) {
      assert Older(left, a, b);
      assert left[a] == t[a] && left[b] == t[b];
    }
    SparedIffOld(t, off, r.cut.victims, x);
  }

  /**
   * With distinct creation times: the wanted number of rows is still ready after retirement exactly
   * when every row off the draining servers with fewer than that many older ones is ready.
   */
  lemma StrengthKeptIffOldestReady(env: Env, desired: nat, t: Table, r: Retirement)
    requires Retires(env, desired, t, r) && |ReadyOffIds(env, t)| >= desired
    requires DistinctAges(t, OffIds(env, t))
    ensures |ReadyOffIds(env, RetireTable(env, t, r))| >= desired
            <==> forall x :: x in OffIds(env, t) && |OlderThan(t, OffIds(env, t), x)| < desired ==>
                               x in ReadyOffIds(env, t)
  {
    StrengthKeptIff(env, desired, t, r);
    forall x | x in OffIds(env, t)
      ensures x !in r.cut.victims <==> |OlderThan(t, OffIds(env, t), x)| < desired
    {
      RetirementSpares(env, desired, t, r, x);
    }
  }

  // ---- which warm rows a surge promotes ------------------------------------------------------------

  function NewerThan(t: Table, ids: set<Id>, x: Id): set<Id> {
    set y | y in ids && y in t && x in t && t[y].created > t[x].created
  }

  /** With distinct ages, pruning keeps exactly the rows that have few enough newer ones. */
  lemma KeptIffYoung(t: Table, ids: set<Id>, gone: set<Id>, x: Id)
    requires gone <= ids <= t.Keys && x in ids
    requires NotNewer(t, gone, ids - gone) && DistinctAges(t, ids)
    ensures x !in gone <==> |NewerThan(t, ids, x)| < |ids - gone|
  {
    var kept := ids - gone;
    if x !in gone {
      forall y | y in NewerThan(t, ids, x) ensures y in kept - {x} {
        assert Older(t, y, x) <==> t[y].created <= t[x].created;
      }
      CardMinus(kept, {x});
      CardSub(NewerThan(t, ids, x), kept - {x});
    } else {
      forall y | y in kept ensures y in NewerThan(t, ids, x) {
        assert Older(t, x, y);
      }
      CardSub(kept, NewerThan(t, ids, x));
    }
  }

  lemma RankBelow(t: Table, ids: set<Id>, x: Id)
    requires x in ids
    ensures |OlderThan(t, ids, x)| < |ids| && |NewerThan(t, ids, x)| < |ids|
  {
    CardMinus(ids, {x});
    CardSub(OlderThan(t, ids, x), ids - {x});
    CardSub(NewerThan(t, ids, x), ids - {x});
  }

  /** The newest warm rows, as many as the budget keeps. */
  function WarmKept(env: Env, t: Table): set<Id> {
    set x | x in WarmIds(t) && |NewerThan(t, WarmIds(t), x)| < env.budget
  }

  /** The oldest of those, as many as active rows are missing. */
  function NextPromoted(env: Env, desired: nat, t: Table): set<Id> {
    set x | x in WarmKept(env, t) && |OlderThan(t, WarmKept(env, t), x)| < desired - |ActiveIds(t)|
  }

  lemma PrunedByAge(env: Env, target: nat, t: Table, cut: Cut)
    requires CutTo(env, t, target, cut) && |ActiveIds(t)| <= target && DistinctAges(t, WarmIds(t))
    ensures cut.victims == {} && WarmIds(CutTable(env, t, cut)) == WarmKept(env, t)
  {
    CardZero(cut.victims);
    TrimNone(env, t);
    PruneSets(env, t, cut.pruned);
    CardMinus(WarmIds(t), cut.pruned);
    forall x | x in WarmIds(t) ensures x in WarmIds(t) - cut.pruned <==> x in WarmKept(env, t) {
      KeptIffYoung(t, WarmIds(t), cut.pruned, x);
      RankBelow(t, WarmIds(t), x);
    }
  }

  lemma WarmRowsKept(env: Env, desired: nat, t: Table, clock: nat, s: Surge)
    requires Surges(env, desired, t, clock, s) && s.cut.victims == {}
    ensures var grown := Grown(env, t, clock, s);
            && WarmIds(grown) == WarmIds(CutTable(env, t, s.cut))
            && forall x :: x in WarmIds(grown) ==> x in t && grown[x] == t[x]
  {
    TrimNone(env, t);
    CutKeys(env, t, s.cut);
    CreateSets(CutTable(env, t, s.cut), s.added, clock);
  }

  lemma PromotedCount(env: Env, desired: nat, t: Table, clock: nat, s: Surge)
    requires Surges(env, desired, t, clock, s) && DistinctAges(t, WarmIds(t))
    requires DrainingIds(env, t) == {} && |ActiveIds(t)| < desired
    ensures WarmIds(Grown(env, t, clock, s)) == WarmKept(env, t)
    ensures |s.promoted| == Min(|WarmKept(env, t)|, desired - |ActiveIds(t)|)
  {
    PrunedByAge(env, desired, t, s.cut);
    WarmRowsKept(env, desired, t, clock, s);
    GrownCounts(env, desired, t, clock, s);
  }

  lemma DistinctSubset(t: Table, some: set<Id>, all: set<Id>)
    requires some <= all && DistinctAges(t, all)
    ensures DistinctAges(t, some)
  {
    forall a, b | a in some && b in some && a in t && b in t && a != b
      ensures t[a].created != t[b].created
    {
      assert Older(t, a, b) || !Older(t, a, b);
    }
  }

  lemma PromotedByAge(env: Env, desired: nat, t: Table, clock: nat, s: Surge)
    requires Surges(env, desired, t, clock, s) && DistinctAges(t, WarmIds(t))
    requires DrainingIds(env, t) == {} && |ActiveIds(t)| < desired
    ensures s.promoted == NextPromoted(env, desired, t)
  {
    var grown := Grown(env, t, clock, s);
    PromotedCount(env, desired, t, clock, s);
    PromotedFrom(env, desired, t, clock, s, grown, WarmIds(grown));
  }

  lemma PromotedFrom(env: Env, desired: nat, t: Table, clock: nat, s: Surge, grown: Table, kept: set<Id>)
    requires Surges(env, desired, t, clock, s) && DistinctAges(t, WarmIds(t))
    requires DrainingIds(env, t) == {} && |ActiveIds(t)| < desired
    requires grown == Grown(env, t, clock, s) && kept == WarmIds(grown)
    requires |s.promoted| == Min(|kept|, desired - |ActiveIds(t)|)
    ensures s.promoted == set x | x in kept && |OlderThan(t, kept, x)| < desired - |ActiveIds(t)|
  {
    CardZero(s.cut.victims);
    WarmRowsKept(env, desired, t, clock, s);
    assert kept <= WarmIds(t);
    DistinctSubset(t, kept, WarmIds(t));
    OldestChosen(t, grown, kept, s.promoted, desired - |ActiveIds(t)|);
  }

  /** Choosing the oldest rows, as many as are missing, is choosing by the number of older ones. */
  lemma OldestChosen(t: Table, grown: Table, kept: set<Id>, chosen: set<Id>, missing: nat)
    requires chosen <= kept <= t.Keys && kept <= grown.Keys
    requires forall y :: y in kept ==> grown[y] == t[y]
    requires |chosen| == Min(|kept|, missing) && NotNewer(grown, chosen, kept - chosen) && DistinctAges(t, kept)
    ensures chosen == set x | x in kept && |OlderThan(t, kept, x)| < missing
  {
    var rest := kept - chosen;
    assert kept - rest == chosen;
    forall a, b | a in kept - rest && b in rest ensures Older(t, a, b) {
      assert Older(grown, a, b);
    }
    forall x | x in kept ensures x in chosen <==> |OlderThan(t, kept, x)| < missing {
      SparedIffOld(t, kept, rest, x);
      RankBelow(t, kept, x);
    }
  }

  /**
   After a surge the wanted number of active rows lies off the draining servers exactly when there were
   enough active rows to begin with, or no warm row could be counted in their place, or no active row
   was on a draining server and neither is any warm row that is next for promotion.
   */
  lemma SurgeCoversIff(env: Env, desired: nat, t: Table, clock: nat, s: Surge)
    requires Surges(env, desired, t, clock, s) && DistinctAges(t, WarmIds(t))
    ensures |OffIds(env, SurgeTable(env, t, clock, s))| >= desired
            <==> || |ActiveIds(t)| >= desired + |DrainingIds(env, t)|
                 || Min(|WarmIds(t)|, env.budget) == 0
                 || (DrainingIds(env, t) == {} && OnDrainingOf(env, t, NextPromoted(env, desired, t)) == {})
  {
    SurgeCoversByPromotion(env, desired, t, clock, s);
    if DrainingIds(env, t) == {} && |ActiveIds(t)| < desired {
      PromotedByAge(env, desired, t, clock, s);
      PrunedByAge(env, desired, t, s.cut);
      WarmRowsKept(env, desired, t, clock, s);
      assert PromotedOnDraining(env, t, clock, s) == OnDrainingOf(env, t, NextPromoted(env, desired, t));
    }
  }

  /** Without warm rows on draining servers the counts decide, whatever the ages. */
  lemma SurgeCoversIffCounts(env: Env, desired: nat, t: Table, clock: nat, s: Surge)
    requires Surges(env, desired, t, clock, s) && OnDrainingOf(env, t, WarmIds(t)) == {}
    ensures |OffIds(env, SurgeTable(env, t, clock, s))| >= desired
            <==> || |ActiveIds(t)| >= desired + |DrainingIds(env, t)|
                 || Min(|WarmIds(t)|, env.budget) == 0
                 || DrainingIds(env, t) == {}
  {
    SurgeCoversByPromotion(env, desired, t, clock, s);
    PromotedWereWarm(env, desired, t, clock, s);
  }

  // ---- whether a surge keeps the wanted number ready -----------------------------------------------

  /** The ready rows on draining servers, and those elsewhere with fewer older rows than wanted. */
  function Lasting(env: Env, desired: nat, t: Table): set<Id> {
    set x | x in ReadyIds(env, t)
            && (x in DrainingIds(env, t) || |OlderThan(t, OffIds(env, t), x)| < desired)
  }

  lemma CutSpares(env: Env, desired: nat, t: Table, cut: Cut, x: Id)
    requires CutTo(env, t, desired + |DrainingIds(env, t)|, cut) && DistinctAges(t, OffIds(env, t))
    requires x in OffIds(env, t)
    ensures x !in cut.victims <==> |OlderThan(t, OffIds(env, t), x)| < desired
  {
    OffCount(env, t);
    CardMinus(OffIds(env, t), cut.victims);
    SparedIffOld(t, OffIds(env, t), cut.victims, x);
    RankBelow(t, OffIds(env, t), x);
  }

  lemma LastingAreSpared(env: Env, desired: nat, t: Table, cut: Cut)
    requires CutTo(env, t, desired + |DrainingIds(env, t)|, cut) && DistinctAges(t, OffIds(env, t))
    ensures Lasting(env, desired, t) == ReadyIds(env, t) - cut.victims
  {
    forall x | x in ReadyIds(env, t) ensures x in Lasting(env, desired, t) <==> x !in cut.victims {
      if x in OffIds(env, t) {
        CutSpares(env, desired, t, cut, x);
      }
    }
  }

  /** A row that the surge neither cuts nor promotes is ready after it exactly when it was before. */
  lemma ReadyThroughSurge(env: Env, desired: nat, t: Table, clock: nat, s: Surge)
    requires Surges(env, desired, t, clock, s)
    ensures ReadyIds(env, t) - s.cut.victims <= ReadyIds(env, SurgeTable(env, t, clock, s))
    ensures s.promoted == {} ==>
              ReadyIds(env, SurgeTable(env, t, clock, s)) == ReadyIds(env, t) - s.cut.victims
  {
    var after := SurgeTable(env, t, clock, s);
    forall x | x in ReadyIds(env, t) - s.cut.victims ensures x in after && after[x] == t[x] {
      assert x in Trim(env, t, s.cut.victims) && x !in WarmIds(Trim(env, t, s.cut.victims));
    }
    if s.promoted == {} {
      forall x | x in ReadyIds(env, after) ensures x in ReadyIds(env, t) - s.cut.victims {
        assert x !in s.added;
        assert x in Trim(env, t, s.cut.victims);
      }
    }
  }

  /**
   With distinct creation times: a surge keeps the wanted number of rows ready exactly when that many
   ready rows are on draining servers or have fewer older rows off them than are wanted. The cut goes
   by age alone, here too.
   */
  lemma SurgeKeepsStrengthIff(env: Env, desired: nat, t: Table, clock: nat, s: Surge)
    requires Surges(env, desired, t, clock, s) && DistinctAges(t, OffIds(env, t))
    requires |ReadyIds(env, t)| >= desired
    ensures |ReadyIds(env, SurgeTable(env, t, clock, s))| >= desired <==> |Lasting(env, desired, t)| >= desired
  {
    LastingAreSpared(env, desired, t, s.cut);
    ReadyThroughSurge(env, desired, t, clock, s);
    if s.cut.victims == {} {
      assert Lasting(env, desired, t) == ReadyIds(env, t);
      CardSub(ReadyIds(env, t), ReadyIds(env, SurgeTable(env, t, clock, s)));
    } else {
      VictimsMeanNonePromoted(env, desired, t, clock, s);
    }
  }

  // ---- repair and scale to zero --------------------------------------------------------------------

  /** The rows on servers that are dead or drained. */
  function StuckIds(env: Env, t: Table): set<Id> {
    set id | id in t && t[id].server.Some? && t[id].server.value in env.unavailable
  }

  function Reset(i: Inst): Inst {
    Inst(Active, None, Pending, NoVm, i.created)
  }

  function Repair(env: Env, t: Table): Table {
    map id | id in t :: if id in StuckIds(env, t) then Reset(t[id]) else t[id]
  }

  /** Repair loses no row, leaves none on an unavailable server, and makes every stuck row active. */
  lemma RepairFrees(env: Env, t: Table)
    requires env.draining !! env.unavailable
    ensures Repair(env, t).Keys == t.Keys && StuckIds(env, Repair(env, t)) == {}
    ensures ActiveIds(Repair(env, t)) == ActiveIds(t) + StuckIds(env, t)
    ensures DrainingIds(env, Repair(env, t)) == DrainingIds(env, t)
    ensures Repair(env, t) == t <==> StuckIds(env, t) == {}
  {
    var u := Repair(env, t);
    assert forall id :: id in StuckIds(env, t) ==> u[id].server.None?;
    if StuckIds(env, t) != {} {
      var id :| id in StuckIds(env, t);
      assert u[id] != t[id];
    }
  }

  /** Scaling to zero: every active row is cleaned up and the warm rows are pruned to the budget. */
  ghost predicate ScalesToZero(env: Env, t: Table, pruned: set<Id>) {
    var trimmed := Trim(env, t, ActiveIds(t));
    if ActiveIds(t) == {} then pruned == {}
    else
      && pruned <= WarmIds(trimmed)
      && |pruned| == Max(0, |WarmIds(trimmed)| - env.budget)
      && NotNewer(trimmed, pruned, WarmIds(trimmed) - pruned)
  }

  function ZeroTable(env: Env, t: Table, pruned: set<Id>): Table {
    Trim(env, t, ActiveIds(t)) - pruned
  }

  /** Nothing stays active; if anything was, the warm rows are within the budget. */
  lemma ZeroLeavesNoneActive(env: Env, t: Table, pruned: set<Id>)
    requires ScalesToZero(env, t, pruned)
    ensures ActiveIds(ZeroTable(env, t, pruned)) == {}
    ensures ActiveIds(t) != {} ==> |WarmIds(ZeroTable(env, t, pruned))| <= env.budget
    ensures ActiveIds(t) == {} ==> ZeroTable(env, t, pruned) == t
  {
    var trimmed := Trim(env, t, ActiveIds(t));
    assert ActiveIds(trimmed) == {};
    if ActiveIds(t) == {} {
      TrimNone(env, t);
    } else {
      assert WarmIds(trimmed - pruned) == WarmIds(trimmed) - pruned;
      CardMinus(WarmIds(trimmed), pruned);
    }
  }

  // ---- a whole pass ------------------------------------------------------------------------------

  /** Rows that the per-instance step leaves alone. */
  predicate Resting(env: Env, id: Id, i: Inst) {
    || i.role.Template?
    || (i.role.WarmPool? && i.status.Stopped? && i.server.Some? && !OnDraining(env, i))
    || (i.role.Active? && Healthy(env, id, i))
  }

  /**
   * What the per-instance steps may do between surge and retirement: a resting row stays, a row is
   * deleted only from a draining server, no row stops being active, and a row that moves does not move
   * to a draining server.
   */
  ghost predicate Settles(env: Env, t: Table, u: Table) {
    && u.Keys <= t.Keys
    && (forall id :: id in t && id !in u ==> OnDraining(env, t[id]))
    && (forall id :: id in t && Resting(env, id, t[id]) ==> id in u && u[id] == t[id])
    && (forall id :: id in u ==>
          && (u[id].role == t[id].role || u[id].role.Active?)
          && (u[id].server == t[id].server || !OnDraining(env, u[id])))
  }

  /** The choices and outcomes of one pass; `deferred` ends it after the per-instance steps. */
  datatype Pass = Pass(
    env: Env, clock: nat, surge: Surge, settled: Table, deferred: bool, retirement: Retirement)

  function Surged(p: Pass, t: Table): Table {
    SurgeTable(p.env, Repair(p.env, t), p.clock, p.surge)
  }

  function PassTable(p: Pass): Table {
    if p.deferred then p.settled else RetireTable(p.env, p.settled, p.retirement)
  }

  ghost predicate Passes(p: Pass, desired: nat, t: Table) {
    && p.env.draining !! p.env.unavailable
    && Surges(p.env, desired, Repair(p.env, t), p.clock, p.surge)
    && Settles(p.env, Surged(p, t), p.settled)
    && (!p.deferred ==> Retires(p.env, desired, p.settled, p.retirement))
  }

  /** Every row is resting and none is on an unavailable server. */
  ghost predicate Quiet(env: Env, t: Table) {
    && StuckIds(env, t) == {}
    && forall id :: id in t ==> Resting(env, id, t[id])
  }

  lemma SettlesQuiet(env: Env, t: Table, u: Table)
    requires Settles(env, t, u) && Quiet(env, t)
    ensures u == t
  {
  }

  /** Rows off the draining servers are not lost before retirement. */
  lemma SettlesKeepsOff(env: Env, t: Table, u: Table)
    requires Settles(env, t, u)
    ensures OffIds(env, t) <= OffIds(env, u)
  {
  }

  /**
   * The evacuation finishes in one pass, with exactly the wanted number of rows, all of them ready, if
   * enough rows were active or no warm row could stand in, and every row off the draining servers
   * is ready when retirement looks.
   */
  lemma EvacuationCompletes(p: Pass, desired: nat, t: Table)
    requires Passes(p, desired, t) && !p.deferred
    requires var u := Repair(p.env, t);
             || |ActiveIds(u)| >= desired + |DrainingIds(p.env, u)|
             || Min(|WarmIds(u)|, p.env.budget) == 0
    requires OffIds(p.env, p.settled) <= ReadyOffIds(p.env, p.settled)
    ensures DrainingIds(p.env, PassTable(p)) == {}
    ensures |ActiveIds(PassTable(p))| == desired
    ensures |ReadyOffIds(p.env, PassTable(p))| >= desired
  {
    SurgeCoversByPromotion(p.env, desired, Repair(p.env, t), p.clock, p.surge);
    SettlesKeepsOff(p.env, Surged(p, t), p.settled);
    CardSub(OffIds(p.env, Surged(p, t)), OffIds(p.env, p.settled));
    CardSub(OffIds(p.env, p.settled), ReadyOffIds(p.env, p.settled));
    RetirementLeaves(p.env, desired, p.settled, p.retirement);
    StrengthKeptIff(p.env, desired, p.settled, p.retirement);
  }

  lemma AddedHaveNoServer(env: Env, desired: nat, t: Table, clock: nat, s: Surge, id: Id)
    requires Surges(env, desired, t, clock, s) && id in s.added
    ensures id in SurgeTable(env, t, clock, s) && SurgeTable(env, t, clock, s)[id].server.None?
  {
    var grown := Grown(env, t, clock, s);
    assert id in grown && grown[id] == NewRow(clock);
  }

  lemma PromotedWereWarmRows(env: Env, desired: nat, t: Table, clock: nat, s: Surge, id: Id)
    requires Surges(env, desired, t, clock, s) && s.cut.victims == {} && id in s.promoted
    ensures id in t && t[id].role.WarmPool?
    ensures id in SurgeTable(env, t, clock, s) && SurgeTable(env, t, clock, s)[id].role.Active?
  {
    TrimNone(env, t);
    assert id in WarmIds(Grown(env, t, clock, s));
  }

  lemma VictimsMeanNonePromoted(env: Env, desired: nat, t: Table, clock: nat, s: Surge)
    requires Surges(env, desired, t, clock, s) && s.cut.victims != {}
    ensures s.promoted == {}
  {
    GrownCounts(env, desired, t, clock, s);
    CardZero(s.promoted);
  }

  lemma VictimsRest(env: Env, desired: nat, t: Table, clock: nat, s: Surge, id: Id)
    requires Surges(env, desired, t, clock, s) && id in s.cut.victims
    ensures id in t && t[id].role.Active? && !OnDraining(env, t[id])
    ensures var surged := SurgeTable(env, t, clock, s);
            id in surged ==> surged[id] == Demoted(t[id]) && Resting(env, id, surged[id])
  {
    VictimsMeanNonePromoted(env, desired, t, clock, s);
    assert id in ActiveIds(t) - DrainingIds(env, t);
  }

  lemma PrunedAreGone(env: Env, desired: nat, t: Table, clock: nat, s: Surge, id: Id)
    requires Surges(env, desired, t, clock, s) && id in s.cut.pruned
    ensures id in t && id !in SurgeTable(env, t, clock, s)
  {
    assert id in WarmIds(Trim(env, t, s.cut.victims));
  }

  lemma CutNotUndone(env: Env, desired: nat, t: Table, clock: nat, s: Surge)
    requires Surges(env, desired, t, clock, s) && Settles(env, SurgeTable(env, t, clock, s), t)
    ensures s.cut.victims == {} && s.cut.pruned == {}
  {
    forall id | id in s.cut.victims ensures false {
      VictimsRest(env, desired, t, clock, s, id);
    }
    forall id | id in s.cut.pruned ensures false {
      PrunedAreGone(env, desired, t, clock, s, id);
    }
  }

  lemma GrowthNotUndone(env: Env, desired: nat, t: Table, clock: nat, s: Surge)
    requires Surges(env, desired, t, clock, s) && Settles(env, SurgeTable(env, t, clock, s), t)
    requires s.cut.victims == {}
    ensures s.added == {} && s.promoted == {}
  {
    forall id | id in s.added ensures false {
      AddedHaveNoServer(env, desired, t, clock, s, id);
    }
    forall id | id in s.promoted ensures false {
      PromotedWereWarmRows(env, desired, t, clock, s, id);
    }
  }

  /** The per-instance steps undo no part of a surge. */
  lemma SurgeNotUndone(env: Env, desired: nat, t: Table, clock: nat, s: Surge)
    requires Surges(env, desired, t, clock, s) && Settles(env, SurgeTable(env, t, clock, s), t)
    ensures SurgeTable(env, t, clock, s) == t
  {
    CutNotUndone(env, desired, t, clock, s);
    GrowthNotUndone(env, desired, t, clock, s);
    SurgeNone(env, t, clock);
  }

  lemma DrainingSettled(p: Pass, desired: nat, t: Table)
    requires Passes(p, desired, t) && Quiet(p.env, t)
    ensures DrainingIds(p.env, t) <= DrainingIds(p.env, p.settled)
  {
    RepairFrees(p.env, t);
    SurgeBounds(p.env, desired, t, p.clock, p.surge);
    forall id | id in DrainingIds(p.env, t) ensures id in DrainingIds(p.env, p.settled) {
      assert Resting(p.env, id, Surged(p, t)[id]);
    }
  }

  /**
   * A pass over a quiet table with a draining server changes nothing exactly when the surge is idle
   * there and either a row defers the pass or too few rows are ready elsewhere.
   */
  lemma PassFixedIff(p: Pass, desired: nat, t: Table)
    requires Passes(p, desired, t) && Quiet(p.env, t) && DrainingIds(p.env, t) != {}
    ensures PassTable(p) == t
            <==> SurgeIdle(p.env, desired, t) && (p.deferred || |ReadyOffIds(p.env, t)| < desired)
  {
    RepairFrees(p.env, t);
    DrainingSettled(p, desired, t);
    if !p.deferred {
      EvacuatedIff(p.env, desired, p.settled, p.retirement);
    }
    if PassTable(p) == t {
      if !p.deferred {
        RetirementWaits(p.env, desired, p.settled, p.retirement);
      }
      SurgeNotUndone(p.env, desired, t, p.clock, p.surge);
      SurgeFixedIff(p.env, desired, t, p.clock, p.surge);
    } else if SurgeIdle(p.env, desired, t) {
      SurgeFixedIff(p.env, desired, t, p.clock, p.surge);
      SettlesQuiet(p.env, t, p.settled);
      if !p.deferred && |ReadyOffIds(p.env, t)| < desired {
        RetirementWaits(p.env, desired, t, p.retirement);
      }
    }
  }

  // ---- runs --------------------------------------------------------------------------------------

  /** `tables` holds the table before each pass and, last, the one after them all. */
  ghost predicate PassesInTurn(passes: seq<Pass>, desired: nat, tables: seq<Table>) {
    && |tables| == |passes| + 1
    && forall i :: 0 <= i < |passes| ==> PassFrom(passes[i], desired, tables[i], tables[i + 1])
  }

  ghost predicate PassFrom(p: Pass, desired: nat, t: Table, u: Table) {
    Passes(p, desired, t) && u == PassTable(p)
  }

  /** The wanted number cannot become ready: a warm row is counted in place of an active one. */
  ghost predicate Stalled(env: Env, desired: nat, t: Table) {
    && Quiet(env, t) && DrainingIds(env, t) != {}
    && SurgeIdle(env, desired, t) && |ActiveIds(t)| < desired + |DrainingIds(env, t)|
  }

  lemma StalledIsShort(env: Env, desired: nat, t: Table)
    requires Stalled(env, desired, t)
    ensures |ReadyOffIds(env, t)| < desired && WarmIds(t) != {}
  {
    OffCount(env, t);
    WithoutDraining(env, t);
    CardSub(ReadyOffIds(env, t), OffIds(env, t));
  }

  lemma StalledPass(p: Pass, desired: nat, t: Table, u: Table)
    requires PassFrom(p, desired, t, u) && Stalled(p.env, desired, t)
    ensures u == t
  {
    StalledIsShort(p.env, desired, t);
    PassFixedIff(p, desired, t);
  }

  /** However often it runs, the loop never changes a stalled deployment. */
  lemma {:induction false} StalledForever(passes: seq<Pass>, desired: nat, tables: seq<Table>, k: nat)
    requires PassesInTurn(passes, desired, tables) && k <= |passes|
    requires forall i :: 0 <= i < |passes| ==> Stalled(passes[i].env, desired, tables[0])
    ensures tables[k] == tables[0]
  {
    if k > 0 {
      StalledForever(passes, desired, tables, k - 1);
      StalledPass(passes[k - 1], desired, tables[k - 1], tables[k]);
    }
  }

  function PassOn(env: Env, u: Table, r: Retirement): Pass {
    Pass(env, 0, Surge(Cut({}, {}), {}, {}), u, false, r)
  }

  function IdlePass(env: Env, t: Table): Pass { PassOn(env, t, Retirement({}, Cut({}, {}))) }

  /** A pass without repairs, put together from its parts. */
  lemma PassOf(env: Env, desired: nat, t: Table, s: Surge, u: Table, r: Retirement)
    requires env.draining !! env.unavailable && StuckIds(env, t) == {}
    requires Surges(env, desired, t, 0, s) && Settles(env, SurgeTable(env, t, 0, s), u) && Retires(env, desired, u, r)
    ensures Passes(Pass(env, 0, s, u, false, r), desired, t)
    ensures Surged(Pass(env, 0, s, u, false, r), t) == SurgeTable(env, t, 0, s)
  {
    RepairFrees(env, t);
  }

  /** A pass whose surge has nothing to do. */
  lemma PassWithIdleSurge(env: Env, desired: nat, t: Table, u: Table, r: Retirement)
    requires env.draining !! env.unavailable && StuckIds(env, t) == {} && SurgeIdle(env, desired, t)
    requires Settles(env, t, u) && Retires(env, desired, u, r)
    ensures Passes(PassOn(env, u, r), desired, t)
  {
    SurgeNone(env, t, 0);
    IdleSurges(env, desired, t);
    PassOf(env, desired, t, Surge(Cut({}, {}), {}, {}), u, r);
  }

  /** The loop does run on a stalled table. */
  lemma StalledHasPass(env: Env, desired: nat, t: Table)
    requires Stalled(env, desired, t) && env.draining !! env.unavailable
    ensures PassFrom(IdlePass(env, t), desired, t, t)
  {
    StalledIsShort(env, desired, t);
    TrimNone(env, t);
    PassWithIdleSurge(env, desired, t, t, Retirement({}, Cut({}, {})));
  }

  /** One wanted instance runs on a draining server and a warm one waits elsewhere: a stalled table. */
  lemma StallHappens()
    ensures exists env: Env, t :: Stalled(env, 1, t)
  {
    var env := Env({7}, {}, 3, true, {}, 1, {1}, {}, false);
    var runs := Inst(Active, Some(7), Running, Vm(VmRunning, false), 1);
    var waits := Inst(WarmPool, Some(3), Stopped, Vm(VmSuspended, false), 2);
    var t: Table := map[1 := runs, 2 := waits];
    assert ActiveIds(t) == {1} && WarmIds(t) == {2} && DrainingIds(env, t) == {1};
    assert StuckIds(env, t) == {};
    assert Stalled(env, 1, t);
  }

  /** A healthy row leaves a draining server only while the wanted number is ready elsewhere. */
  lemma HealthyRowLeavesWhenCovered(p: Pass, desired: nat, t: Table, id: Id)
    requires Passes(p, desired, t) && id in DrainingIds(p.env, t) && Healthy(p.env, id, t[id])
    requires id !in PassTable(p) || PassTable(p)[id] != t[id]
    ensures !p.deferred && |ReadyOffIds(p.env, p.settled)| >= desired
  {
    RepairFrees(p.env, t);
    SurgeBounds(p.env, desired, Repair(p.env, t), p.clock, p.surge);
    assert Repair(p.env, t)[id] == t[id];
    assert Resting(p.env, id, Surged(p, t)[id]);
    assert p.settled[id] == t[id] && id in DrainingIds(p.env, p.settled);
    if !p.deferred && |ReadyOffIds(p.env, p.settled)| < desired {
      RetirementWaits(p.env, desired, p.settled, p.retirement);
    }
  }

  /**
   With distinct creation times: after a pass that is not deferred the wanted number is ready off the
   draining servers exactly when it was before retirement and none of the oldest rows there, as many as
   are wanted, was not ready.
   */
  lemma PassReadyIff(p: Pass, desired: nat, t: Table)
    requires Passes(p, desired, t) && !p.deferred && DistinctAges(p.settled, OffIds(p.env, p.settled))
    ensures |ReadyOffIds(p.env, PassTable(p))| >= desired
            <==> && |ReadyOffIds(p.env, p.settled)| >= desired
                 && forall x :: x in OffIds(p.env, p.settled)
                                && |OlderThan(p.settled, OffIds(p.env, p.settled), x)| < desired ==>
                                  x in ReadyOffIds(p.env, p.settled)
  {
    var env, u := p.env, p.settled;
    if |ReadyOffIds(env, u)| >= desired {
      StrengthKeptIffOldestReady(env, desired, u, p.retirement);
    } else if DrainingIds(env, u) == {} {
      ReadyAfter(env, desired, u, p.retirement);
      CardSub(ReadyOffIds(env, u) - p.retirement.cut.victims, ReadyOffIds(env, u));
    } else {
      RetirementWaits(env, desired, u, p.retirement);
    }
  }

  /** Two active rows, the older one pending and the newer one ready, which cannot be suspended. */
  ghost predicate Pair(env: Env, t: Table, a: Id, b: Id) {
    && a != b && t.Keys == {a, b}
    && t[a].role.Active? && t[a].status.Pending? && t[b].role.Active? && Healthy(env, b, t[b])
    && t[a].created < t[b].created
    && !OnDraining(env, t[b]) && b in env.probed && !Suspendable(env, b, t[b])
  }

  lemma PairSets(env: Env, t: Table, a: Id, b: Id)
    requires Pair(env, t, a, b)
    ensures ActiveIds(t) == {a, b} && WarmIds(t) == {} && |ActiveIds(t)| == 2 && |WarmIds(t)| == 0
    ensures DrainingIds(env, t) == if OnDraining(env, t[a]) then {a} else {}
    ensures ReadyIds(env, t) == {b} && ReadyOffIds(env, t) == {b}
  {
  }

  lemma AloneSets(env: Env, t: Table, a: Id)
    requires t.Keys == {a} && t[a].role.Active? && t[a].status.Pending? && !OnDraining(env, t[a])
    ensures ActiveIds(t) == {a} && WarmIds(t) == {} && |ActiveIds(t)| == 1 && |WarmIds(t)| == 0
    ensures DrainingIds(env, t) == {} && ReadyIds(env, t) == {} && ReadyOffIds(env, t) == {}
  {
  }

  /** With one row wanted and none draining, the scale-down cuts the newer row, and none is ready. */
  lemma PairCut(env: Env, t: Table, a: Id, b: Id)
    requires Pair(env, t, a, b) && !OnDraining(env, t[a])
    ensures CutTo(env, t, 1, Cut({b}, {})) && CutTable(env, t, Cut({b}, {})) == map[a := t[a]]
  {
    PairSets(env, t, a, b);
    var left := map[a := t[a]];
    assert Trim(env, t, {b}) == left;
    AloneSets(env, left, a);
    assert left - {} == left;
  }

  lemma PairSurge(env: Env, t: Table, a: Id, b: Id)
    requires Pair(env, t, a, b) && !OnDraining(env, t[a])
    ensures var s := Surge(Cut({b}, {}), {}, {});
            Surges(env, 1, t, 0, s) && SurgeTable(env, t, 0, s) == map[a := t[a]]
  {
    PairSets(env, t, a, b);
    PairCut(env, t, a, b);
    CutIsSurge(env, 1, t, 0, Cut({b}, {}));
    CutOnly(env, t, 0, Cut({b}, {}));
  }

  lemma AloneStays(env: Env, t: Table, a: Id)
    requires t.Keys == {a} && t[a].role.Active? && t[a].status.Pending? && !OnDraining(env, t[a])
    ensures var r := Retirement({}, Cut({}, {})); Retires(env, 1, t, r) && RetireTable(env, t, r) == t
  {
    AloneSets(env, t, a);
    TrimNone(env, t);
  }

  /** A pass that is not deferred begins with a ready row and ends without one. */
  ghost predicate LosesReadyRow(p: Pass, t: Table) {
    && Passes(p, 1, t) && !p.deferred
    && ReadyIds(p.env, t) != {} && ReadyIds(p.env, PassTable(p)) == {}
  }

  lemma PairReady(env: Env, t: Table, a: Id, b: Id)
    requires Pair(env, t, a, b)
    ensures ReadyIds(env, t) != {} && (OnDraining(env, t[a]) ==> SurgeIdle(env, 1, t))
  {
    PairSets(env, t, a, b);
  }

  lemma AloneNotReady(env: Env, t: Table, a: Id)
    requires t.Keys == {a} && t[a].status.Pending?
    ensures ReadyIds(env, t) == {} && Settles(env, t, t)
  {
  }

  lemma SurgeLoses(env: Env, t: Table, s: Surge, left: Table, r: Retirement)
    requires env.draining !! env.unavailable && StuckIds(env, t) == {}
    requires Surges(env, 1, t, 0, s) && SurgeTable(env, t, 0, s) == left && Settles(env, left, left)
    requires Retires(env, 1, left, r) && RetireTable(env, left, r) == left
    requires ReadyIds(env, t) != {} && ReadyIds(env, left) == {}
    ensures var p := Pass(env, 0, s, left, false, r);
            LosesReadyRow(p, t) && ReadyIds(p.env, Surged(p, t)) == {}
  {
    PassOf(env, 1, t, s, left, r);
  }

  /** The surge of a pass can delete the only ready row. */
  lemma SurgeCutsReadyRow(env: Env, t: Table, a: Id, b: Id) returns (p: Pass)
    requires Pair(env, t, a, b) && !OnDraining(env, t[a])
    requires env.draining !! env.unavailable && StuckIds(env, t) == {}
    ensures LosesReadyRow(p, t) && ReadyIds(p.env, Surged(p, t)) == {}
  {
    var s, left, r := Surge(Cut({b}, {}), {}, {}), map[a := t[a]], Retirement({}, Cut({}, {}));
    PairReady(env, t, a, b);
    PairSurge(env, t, a, b);
    AloneStays(env, left, a);
    AloneNotReady(env, left, a);
    SurgeLoses(env, t, s, left, r);
    p := Pass(env, 0, s, left, false, r);
  }

  lemma PairRetires(env: Env, u: Table, a: Id, b: Id)
    requires Pair(env, u, a, b) && !OnDraining(env, u[a])
    ensures var r := Retirement({}, Cut({b}, {}));
            Retires(env, 1, u, r) && ReadyIds(env, RetireTable(env, u, r)) == {}
  {
    PairSets(env, u, a, b);
    PairCut(env, u, a, b);
    assert u - {} == u;
    AloneNotReady(env, map[a := u[a]], a);
  }

  lemma PairSettles(env: Env, t: Table, u: Table, a: Id, b: Id)
    requires Pair(env, t, a, b) && u == t[a := Reset(t[a])]
    ensures Settles(env, t, u) && Pair(env, u, a, b) && !OnDraining(env, u[a])
  {
  }

  lemma RetirementLoses(env: Env, t: Table, u: Table, r: Retirement)
    requires env.draining !! env.unavailable && StuckIds(env, t) == {} && SurgeIdle(env, 1, t)
    requires Settles(env, t, u) && Retires(env, 1, u, r)
    requires ReadyIds(env, t) != {} && ReadyIds(env, RetireTable(env, u, r)) == {}
    ensures LosesReadyRow(PassOn(env, u, r), t)
  {
    PassWithIdleSurge(env, 1, t, u, r);
  }

  /** So can its retirement: the older row comes off the draining server before it is ready. */
  lemma RetirementCutsReadyRow(env: Env, t: Table, a: Id, b: Id) returns (p: Pass)
    requires Pair(env, t, a, b) && OnDraining(env, t[a])
    requires env.draining !! env.unavailable && StuckIds(env, t) == {}
    ensures LosesReadyRow(p, t) && ReadyIds(p.env, p.settled) != {}
  {
    var u, r := t[a := Reset(t[a])], Retirement({}, Cut({b}, {}));
    PairSettles(env, t, u, a, b);
    PairReady(env, t, a, b);
    PairReady(env, u, a, b);
    PairRetires(env, u, a, b);
    RetirementLoses(env, t, u, r);
    p := PassOn(env, u, r);
  }
}
