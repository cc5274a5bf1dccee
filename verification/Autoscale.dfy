/**
 The autoscaler's arithmetic and its sweeps, and the deployer's own reading of the targets that
 the sweeps write. Metrics are real numbers; rounding of floating point is not modelled.
 */
module Autoscale {
  import opened Options

  datatype Project = Project(min: int, max: int, desired: int, scaledToZero: bool)

  datatype Load = Load(rpm: real, cpu: real, hasCpu: bool) {
    predicate Valid() { rpm >= 0.0 && cpu >= 0.0 }
  }

  const HTTP_UP := 60.0
  const CPU_UP := 65.0
  const HTTP_DOWN := 25.0
  const CPU_DOWN := 35.0

  // ---- the autoscaler --------------------------------------------------------------------------

  function NonZeroFloor(p: Project): int {
    if p.max <= 0 then 0 else if p.min > 1 then p.min else 1
  }

  /** The service's own target if it has a positive one, else the project's. */
  function ServiceDesired(p: Project, service: Option<int>): int {
    if service.Some? && service.value > 0 then service.value else p.desired
  }

  function ClampCurrent(p: Project, service: Option<int>): int {
    if p.max <= 0 then 0
    else
      var target := ServiceDesired(p, service);
      var floor := NonZeroFloor(p);
      var raised := if target < floor then floor else target;
      var capped := if raised > p.max then p.max else raised;
      if capped < 0 then 0 else capped
  }

  function Ceil(x: real): int { if x.Floor as real == x then x.Floor else x.Floor + 1 }

  function TargetFromMetrics(p: Project, l: Load): int {
    if p.max <= 0 then 0
    else
      var floor := NonZeroFloor(p);
      var http := Ceil(l.rpm / HTTP_UP);
      var cpu := if l.hasCpu then Ceil(l.cpu / CPU_UP) else 0;
      var t1 := if http > floor then http else floor;
      var t2 := if cpu > t1 then cpu else t1;
      if t2 > p.max then p.max else t2
  }

  predicate ShouldStepDown(current: int, l: Load) {
    && current > 1
    && l.rpm < (current - 1) as real * HTTP_DOWN
    && (l.hasCpu ==> l.cpu < (current - 1) as real * CPU_DOWN)
  }

  function ComputeDesired(p: Project, service: Option<int>, l: Load): int {
    var current := ClampCurrent(p, service);
    if p.max <= 0 then 0
    else
      var floor := NonZeroFloor(p);
      var up := TargetFromMetrics(p, l);
      if up > current then up
      else if current < floor then floor
      else if current > floor && ShouldStepDown(current, l) then
        (if current - 1 < floor then floor else current - 1)
      else current
  }

  // ---- the deployer ----------------------------------------------------------------------------

  datatype Deployment = Deployment(preview: bool, wakeRequested: bool, previewScaledToZero: bool)

  function ClampReplicas(p: Project, desired: int): int {
    if p.max <= 0 then 0
    else
      var floor := if p.min > 1 then p.min else 1;
      var d1 := if desired < floor then floor else desired;
      var d2 := if d1 > p.max then p.max else d1;
      if d2 < 0 then 0 else d2
  }

  function EffectiveReplicas(p: Project, service: Option<int>, d: Deployment): int {
    var desired := ServiceDesired(p, service);
    if d.preview then
      if !d.wakeRequested && d.previewScaledToZero then 0
      else if desired < 1 then 1 else desired
    else if d.wakeRequested then ClampReplicas(p, desired)
    else if p.scaledToZero then 0
    else ClampReplicas(p, desired)
  }

  const PRODUCTION := Deployment(false, false, false)

  // ---- constant load ---------------------------------------------------------------------------

  predicate Sane(p: Project) { p.min <= p.max && p.max >= 1 }

  /** The next target when the service's target is `c`. */
  function Next(p: Project, l: Load, c: int): int { ComputeDesired(p, Some(c), l) }

  function Iterate(p: Project, l: Load, c: int, n: nat): int
    decreases n
  {
    if n == 0 then c else Iterate(p, l, Next(p, l, c), n - 1)
  }

  /** The largest target that the load still justifies on the way down. */
  function Hold(l: Load): int {
    var http := (l.rpm / HTTP_DOWN).Floor;
    var cpu := if l.hasCpu then (l.cpu / CPU_DOWN).Floor else 0;
    1 + if cpu > http then cpu else http
  }

  /** Where a target `c` within the limits comes to rest: raised at once, or lowered to the hold. */
  function Resting(p: Project, l: Load, c: int): int {
    var up := TargetFromMetrics(p, l);
    var floor := NonZeroFloor(p);
    if up > c then up
    else
      var held := if c < Hold(l) then c else Hold(l);
      if held < floor then floor else held
  }

  lemma FloorBelow(x: real, d: real, k: int)
    requires d > 0.0
    ensures x < k as real * d <==> (x / d).Floor < k
  {
    var q := x / d;
    assert q * d == x;
    if q.Floor < k {
      assert q < (q.Floor + 1) as real <= k as real;
      assert q * d < k as real * d;
    } else {
      assert q >= q.Floor as real >= k as real;
      assert q * d >= k as real * d;
    }
  }

  /** The step-down test compares the target with the hold. */
  lemma StepDownIff(l: Load, c: int)
    requires l.Valid() && c >= 1
    ensures ShouldStepDown(c, l) <==> c > Hold(l)
  {
    FloorBelow(l.rpm, HTTP_DOWN, c - 1);
    FloorBelow(l.cpu, CPU_DOWN, c - 1);
    FloorBelow(l.rpm, HTTP_DOWN, 0);
  }

  lemma CeilAtMost(x: real, k: int)
    requires x <= k as real
    ensures Ceil(x) <= k
  {
  }

  lemma CeilUnderHold(x: real, up: real, down: real)
    requires x >= 0.0 && 0.0 < down <= up
    ensures Ceil(x / up) <= 1 + (x / down).Floor
  {
    var k := 1 + (x / down).Floor;
    FloorBelow(x, down, k);
    assert k as real * down <= k as real * up;
    assert x / up <= k as real by {
      assert (x / up) * up == x;
    }
    CeilAtMost(x / up, k);
  }

  /** The two thresholds leave a gap: what the metrics ask for is never above what they hold. */
  lemma UpNeverAboveHold(p: Project, l: Load)
    requires Sane(p) && l.Valid()
    ensures TargetFromMetrics(p, l) <= if Hold(l) > NonZeroFloor(p) then Hold(l) else NonZeroFloor(p)
    ensures NonZeroFloor(p) <= TargetFromMetrics(p, l) <= p.max
  {
    CeilUnderHold(l.rpm, HTTP_UP, HTTP_DOWN);
    CeilUnderHold(l.cpu, CPU_UP, CPU_DOWN);
  }

  predicate InRange(p: Project, c: int) { NonZeroFloor(p) <= c <= p.max }

  lemma NextIs(p: Project, l: Load, c: int)
    requires Sane(p) && l.Valid() && InRange(p, c)
    ensures var up := TargetFromMetrics(p, l);
            Next(p, l, c) == if up > c then up
                             else if c > NonZeroFloor(p) && c > Hold(l) then c - 1 else c
  {
    StepDownIff(l, c);
  }

  /** One step keeps the resting place, and stands still only there. */
  lemma NextKeepsResting(p: Project, l: Load, c: int)
    requires Sane(p) && l.Valid() && InRange(p, c)
    ensures InRange(p, Next(p, l, c))
    ensures Resting(p, l, Next(p, l, c)) == Resting(p, l, c)
    ensures Next(p, l, c) == c <==> Resting(p, l, c) == c
    ensures Next(p, l, Next(p, l, c)) <= Next(p, l, c)
    ensures c >= Resting(p, l, c) ==> c - 1 <= Next(p, l, c) <= c
    ensures c < Resting(p, l, c) ==> Next(p, l, c) == Resting(p, l, c) == TargetFromMetrics(p, l)
  {
    NextIs(p, l, c);
    UpNeverAboveHold(p, l);
    NextIs(p, l, Next(p, l, c));
  }

  lemma {:induction false} DescendsToResting(p: Project, l: Load, c: int, n: nat)
    requires Sane(p) && l.Valid() && InRange(p, c) && c >= Resting(p, l, c)
    ensures Iterate(p, l, c, n)
            == if c - n > Resting(p, l, c) then c - n else Resting(p, l, c)
    decreases n
  {
    if n > 0 {
      NextKeepsResting(p, l, c);
      DescendsToResting(p, l, Next(p, l, c), n - 1);
    }
  }

  lemma FirstStep(p: Project, l: Load, c: int)
    requires Sane(p) && l.Valid()
    ensures var c1 := Next(p, l, c);
            InRange(p, c1) && c1 >= Resting(p, l, c1)
    ensures var clamped := ClampCurrent(p, Some(c));
            InRange(p, clamped) && Next(p, l, c) == Next(p, l, clamped)
  {
    var clamped := ClampCurrent(p, Some(c));
    assert InRange(p, clamped);
    assert ClampCurrent(p, Some(clamped)) == clamped;
    NextKeepsResting(p, l, clamped);
    NextKeepsResting(p, l, Next(p, l, clamped));
  }

  /**
   Under constant load the target can rise on the first step only; after that it goes down by one
   per step to its resting place, reaches it within `max` steps, and stays. It never flaps and
   never leaves the limits.
   */
  lemma ConstantLoadSettles(p: Project, l: Load, c: int, n: nat)
    requires Sane(p) && l.Valid() && n >= 1
    ensures var now := Iterate(p, l, c, n);
            var rest := Resting(p, l, ClampCurrent(p, Some(c)));
            && InRange(p, now)
            && Iterate(p, l, c, n + 1) == (if now > rest then now - 1 else now)
            && now >= rest
            && (n >= p.max ==> now == rest)
  {
    FirstStep(p, l, c);
    var clamped := ClampCurrent(p, Some(c));
    var c1 := Next(p, l, c);
    NextKeepsResting(p, l, clamped);
    DescendsToResting(p, l, c1, n - 1);
    DescendsToResting(p, l, c1, n);
    UpNeverAboveHold(p, l);
  }

  /** The result is within the limits exactly when the limits are consistent. */
  lemma InRangeIff(p: Project, service: Option<int>, l: Load)
    requires p.max >= 1 && l.Valid()
    ensures InRange(p, ComputeDesired(p, service, l)) <==> p.min <= p.max
  {
    if p.min <= p.max {
      var clamped := ClampCurrent(p, service);
      assert ComputeDesired(p, service, l) == Next(p, l, clamped);
      FirstStep(p, l, clamped);
    }
  }

  // ---- what the target means -----------------------------------------------------------------------

  /** The rates that `n` replicas are meant to bear: 60 requests a minute and 65 percent CPU each. */
  predicate Covers(l: Load, n: int) {
    l.rpm <= 60.0 * n as real && (l.hasCpu ==> l.cpu <= 65.0 * n as real)
  }

  /** One replica less would still see under 25 requests a minute and under 35 percent CPU each. */
  predicate CanSpareOne(l: Load, n: int) {
    l.rpm < 25.0 * (n - 1) as real && (l.hasCpu ==> l.cpu < 35.0 * (n - 1) as real)
  }

  /** At least one replica, at least the minimum and at most the maximum. */
  predicate Allowed(p: Project, n: int) { 1 <= n && p.min <= n <= p.max }

  /** The least allowed number that covers the load, or the maximum if none does. */
  ghost predicate LeastCovering(p: Project, l: Load, n: int) {
    && Allowed(p, n)
    && (Covers(l, n) || n == p.max)
    && forall k {:trigger Covers(l, k)} :: Allowed(p, k) && k < n ==> !Covers(l, k)
  }

  /** The allowed number nearest to `x`. */
  predicate Nearest(p: Project, x: int, n: int) {
    Allowed(p, n) && (Allowed(p, x) ==> n == x) && (x > p.max ==> n == p.max) && (x < n ==> n == 1 || n == p.min)
  }

  lemma CeilIff(x: real, d: real, k: int)
    requires d > 0.0
    ensures Ceil(x / d) <= k <==> x <= d * k as real
  {
    var q := x / d;
    assert q * d == x;
    if q <= k as real {
      assert q * d <= k as real * d;
    } else {
      assert q * d > k as real * d;
    }
  }

  /** The target that the load asks for is the least that covers it. */
  lemma TargetIsLeast(p: Project, l: Load)
    requires Sane(p) && l.Valid()
    ensures LeastCovering(p, l, TargetFromMetrics(p, l))
  {
    var n := TargetFromMetrics(p, l);
    CeilIff(l.rpm, 60.0, n);
    CeilIff(l.cpu, 65.0, n);
    forall k | Allowed(p, k) && k < n ensures !Covers(l, k) {
      CeilIff(l.rpm, 60.0, k);
      CeilIff(l.cpu, 65.0, k);
    }
  }

  lemma ClampIsNearest(p: Project, service: Option<int>)
    requires Sane(p)
    ensures var stored := if service.Some? && service.value > 0 then service.value else p.desired;
            Nearest(p, stored, ClampCurrent(p, service))
  {
  }

  /** What a decision does to the current target `c`. */
  ghost predicate Decides(p: Project, l: Load, c: int, n: int) {
    if !Covers(l, c) && c < p.max then LeastCovering(p, l, n)
    else if Allowed(p, c - 1) && CanSpareOne(l, c) then n == c - 1
    else n == c
  }

  /**
   The current target, brought within the limits, is raised to the least that covers the load if it does
   not cover it; lowered by one if the load can spare one; and kept otherwise.
   */
  lemma DecisionIs(p: Project, service: Option<int>, l: Load)
    requires Sane(p) && l.Valid()
    ensures var c := ClampCurrent(p, service);
            && Nearest(p, if service.Some? && service.value > 0 then service.value else p.desired, c)
            && Decides(p, l, c, ComputeDesired(p, service, l))
  {
    var c, up := ClampCurrent(p, service), TargetFromMetrics(p, l);
    ClampIsNearest(p, service);
    TargetIsLeast(p, l);
    if up > c {
      assert !Covers(l, c);
    } else {
      assert up == p.max || Covers(l, up);
      CoversMore(l, up, c);
    }
  }

  lemma CoversMore(l: Load, n: int, m: int)
    ensures n <= m && Covers(l, n) ==> Covers(l, m)
  {
  }

  lemma SparingCovers(l: Load, n: int)
    requires l.Valid() && n >= 1 && CanSpareOne(l, n)
    ensures Covers(l, n - 1)
  {
    var r := (n - 1) as real;
    assert r >= 0.0;
    assert 25.0 * r <= 60.0 * r && 35.0 * r <= 65.0 * r;
  }

  /** After one decision the target covers the load or is the maximum. */
  lemma DecisionCovers(p: Project, service: Option<int>, l: Load)
    requires Sane(p) && l.Valid()
    ensures var n := ComputeDesired(p, service, l); Allowed(p, n) && (n == p.max || Covers(l, n))
  {
    DecisionIs(p, service, l);
    var c := ClampCurrent(p, service);
    if CanSpareOne(l, c) {
      SparingCovers(l, c);
    }
  }

  /** Limits that contradict each other: the minimum is returned; without any replica allowed, none. */
  lemma DecisionOutsideLimits(p: Project, service: Option<int>, l: Load)
    ensures p.max <= 0 ==> ComputeDesired(p, service, l) == 0
    ensures 1 <= p.max < p.min && l.Valid() ==> ComputeDesired(p, service, l) == p.min
  {
  }

  /** Where the target rests: it covers the load or is the maximum, and no allowed step down is possible. */
  lemma RestIs(p: Project, l: Load, c: int)
    requires Sane(p) && l.Valid() && InRange(p, c)
    ensures var r := Resting(p, l, c);
            && Allowed(p, r) && (r == p.max || Covers(l, r)) && !(Allowed(p, r - 1) && CanSpareOne(l, r))
            && (r > c ==> LeastCovering(p, l, r))
            && (forall k {:trigger CanSpareOne(l, k)} :: r < k <= c ==> CanSpareOne(l, k))
  {
    var r := Resting(p, l, c);
    NextKeepsResting(p, l, c);
    UpNeverAboveHold(p, l);
    RestsThere(p, l, r);
    TargetIsLeast(p, l);
    forall k | r < k <= c ensures CanSpareOne(l, k) {
      StepDownIff(l, k);
    }
  }

  lemma RestsThere(p: Project, l: Load, r: int)
    requires Sane(p) && l.Valid() && InRange(p, r) && Resting(p, l, r) == r
    ensures (r == p.max || Covers(l, r)) && !(Allowed(p, r - 1) && CanSpareOne(l, r))
  {
    NextKeepsResting(p, l, r);
    DecisionIs(p, Some(r), l);
    DecisionCovers(p, Some(r), l);
  }

  /** Under constant load the target covers it from the first step on, and ends with none to spare. */
  lemma ConstantLoadIsCovered(p: Project, l: Load, c: int, n: nat)
    requires Sane(p) && l.Valid() && n >= 1
    ensures var now := Iterate(p, l, c, n);
            && Allowed(p, now) && (now == p.max || Covers(l, now))
            && (n >= p.max ==> !(Allowed(p, now - 1) && CanSpareOne(l, now)))
  {
    ConstantLoadSettles(p, l, c, n);
    FirstStep(p, l, c);
    var clamped := ClampCurrent(p, Some(c));
    RestIs(p, l, clamped);
    CoversMore(l, Resting(p, l, clamped), Iterate(p, l, c, n));
  }

  /** A deployment runs nothing exactly when it is put to sleep and not woken, or may have no replica. */
  lemma RunsNothingIff(p: Project, service: Option<int>, d: Deployment)
    ensures EffectiveReplicas(p, service, d) == 0
            <==> if d.preview then !d.wakeRequested && d.previewScaledToZero
                 else p.max <= 0 || (p.scaledToZero && !d.wakeRequested)
    ensures d.preview && EffectiveReplicas(p, service, d) != 0 ==>
              EffectiveReplicas(p, service, d) == Highest(1, ServiceDesired(p, service))
    ensures EffectiveReplicas(p, service, d) >= 0
  {
  }

  function Highest(a: int, b: int): int { if a < b then b else a }

  // ---- sweeps ----------------------------------------------------------------------------------

  /** What a sweep sees of one service. A fast sweep looks at HTTP only. */
  datatype Sweep = Sweep(load: Load, fast: bool, holdScaleDown: bool, writeSucceeds: bool) {
    predicate Valid() { load.Valid() && (fast ==> !load.hasCpu && load.cpu == 0.0) }
  }

  /** The target that a sweep writes for a service whose stored target is `stored`, if any. */
  function Decide(p: Project, stored: int, s: Sweep): Option<int> {
    if p.max <= 0 || p.scaledToZero then None
    else if stored == 0 && s.load.rpm == 0.0 && !s.load.hasCpu then None
    else
      var current := ClampCurrent(p, Some(stored));
      var next := ComputeDesired(p, Some(stored), s.load);
      if s.fast && next <= current then None
      else if !s.fast && next < current && s.holdScaleDown then None
      else if next == current then None
      else Some(next)
  }

  function Stored(p: Project, stored: int, s: Sweep): int {
    var d := Decide(p, stored, s);
    if d.Some? && s.writeSucceeds then d.value else stored
  }

  function After(p: Project, stored: int, ss: seq<Sweep>): int
    decreases |ss|
  {
    if ss == [] then stored else After(p, Stored(p, stored, ss[0]), ss[1..])
  }

  predicate AllValid(ss: seq<Sweep>) { forall i :: 0 <= i < |ss| ==> ss[i].Valid() }

  /** How many sweeps of the run may lower the target at all. */
  function SlowSweeps(ss: seq<Sweep>): nat {
    if ss == [] then 0
    else (if ss[0].fast || ss[0].holdScaleDown then 0 else 1) + SlowSweeps(ss[1..])
  }

  /** The target in force: what the autoscaler takes as current and the deployer converges to. */
  function InForce(p: Project, stored: int): int { EffectiveReplicas(p, Some(stored), PRODUCTION) }

  lemma OneSweep(p: Project, stored: int, s: Sweep)
    requires Sane(p) && !p.scaledToZero && s.Valid()
    ensures var d := Decide(p, stored, s);
            d.Some? ==> InRange(p, d.value) && InForce(p, d.value) == d.value
    ensures InForce(p, stored) == ClampCurrent(p, Some(stored))
    ensures s.fast || s.holdScaleDown ==> InForce(p, Stored(p, stored, s)) >= InForce(p, stored)
    ensures InForce(p, Stored(p, stored, s)) >= InForce(p, stored) - 1
  {
    FirstStep(p, s.load, stored);
    var clamped := ClampCurrent(p, Some(stored));
    NextIs(p, s.load, clamped);
  }

  /** The stored target speaks for a sleeping service without traffic, which no sweep wakes. */
  predicate Dormant(stored: int, s: Sweep) { stored == 0 && s.load.rpm == 0.0 && !s.load.hasCpu }

  /**
   What one sweep does to the target in force: it writes what is decided on, except that it wakes no dormant
   service, that a fast sweep only raises, and that a slow one does not lower during the cooldown.
   */
  lemma SweepIs(p: Project, stored: int, s: Sweep)
    requires Sane(p) && !p.scaledToZero && s.Valid()
    ensures var c, after := InForce(p, stored), Stored(p, stored, s);
            && (Dormant(stored, s) || !s.writeSucceeds ==> after == stored)
            && (!Dormant(stored, s) && s.writeSucceeds && !Covers(s.load, c) && c < p.max ==>
                  LeastCovering(p, s.load, after))
            && (InForce(p, after) < c <==>
                  && !Dormant(stored, s) && s.writeSucceeds && !s.fast && !s.holdScaleDown
                  && (Covers(s.load, c) || c == p.max) && Allowed(p, c - 1) && CanSpareOne(s.load, c))
            && (InForce(p, after) > c ==> !Covers(s.load, c))
            && (InForce(p, after) == c ==> after == stored)
  {
    OneSweep(p, stored, s);
    DecisionIs(p, Some(stored), s.load);
    FirstStep(p, s.load, stored);
    CoversMore(s.load, ComputeDesired(p, Some(stored), s.load), InForce(p, stored));
  }

  /** A sweep whose write succeeds leaves a target in force that covers its load or is the maximum. */
  lemma SweepCovers(p: Project, stored: int, s: Sweep)
    requires Sane(p) && !p.scaledToZero && s.Valid() && s.writeSucceeds
    ensures var n := InForce(p, Stored(p, stored, s)); Allowed(p, n) && (n == p.max || Covers(s.load, n))
  {
    SweepIs(p, stored, s);
    OneSweep(p, stored, s);
    var c := InForce(p, stored);
    ClampIsNearest(p, Some(stored));
    if Dormant(stored, s) {
      assert 60.0 * c as real >= 0.0;
    }
    DecisionCovers(p, Some(stored), s.load);
  }

  /**
   Over any mix of slow and fast sweeps under changing load, every target that is written lies
   within the limits and is exactly what the deployer converges to, and the target in force falls
   by at most one for each slow sweep outside the cooldown; fast sweeps never lower it.
   */
  lemma {:induction false} AnySweepsKeepTargetInForce(p: Project, stored: int, ss: seq<Sweep>)
    requires Sane(p) && !p.scaledToZero && AllValid(ss)
    ensures var end := After(p, stored, ss);
            && (end == stored || (InRange(p, end) && InForce(p, end) == end))
            && InRange(p, InForce(p, end))
            && InForce(p, end) >= InForce(p, stored) - SlowSweeps(ss)
    decreases |ss|
  {
    if ss != [] {
      OneSweep(p, stored, ss[0]);
      AnySweepsKeepTargetInForce(p, Stored(p, stored, ss[0]), ss[1..]);
    }
  }

  /** No sweep touches a project that sleeps or may have no replica. */
  lemma {:induction false} SleepingIsUntouched(p: Project, stored: int, ss: seq<Sweep>)
    requires p.scaledToZero || p.max <= 0
    ensures After(p, stored, ss) == stored
    decreases |ss|
  {
    if ss != [] {
      SleepingIsUntouched(p, stored, ss[1..]);
    }
  }

  /** The autoscaler's and the deployer's clamps agree on all inputs, sane or not. */
  lemma ClampsAgree(p: Project, service: Option<int>, wake: bool)
    ensures ClampCurrent(p, service) == ClampReplicas(p, ServiceDesired(p, service))
    ensures !p.scaledToZero || wake ==>
              EffectiveReplicas(p, service, PRODUCTION.(wakeRequested := wake)) == ClampCurrent(p, service)
  {
  }

  type ServiceId = nat

  /** The stored targets, which a sweep updates service by service. */
  class TargetStore {
    var targets: map<ServiceId, int>

    constructor (targets: map<ServiceId, int>)
      ensures this.targets == targets
    {
      this.targets := targets;
    }

    /**
     One sweep over the services of a project, in order. A service that is missing from `sees` has no
     running deployment or its metrics could not be read; it is skipped. A failed write leaves a target
     as it is.
     */
    method SweepServices(p: Project, ids: seq<ServiceId>, sees: map<ServiceId, Sweep>)
      requires forall i :: 0 <= i < |ids| ==> ids[i] in targets
      requires forall i, j :: 0 <= i < j < |ids| ==> ids[i] != ids[j]
      modifies this
      ensures targets.Keys == old(targets).Keys
      ensures forall id :: id in targets ==>
                targets[id] == if id in ids && id in sees then Stored(p, old(targets)[id], sees[id]) else old(targets)[id]
    {
      for i := 0 to |ids|
        invariant targets.Keys == old(targets).Keys
        invariant forall id :: id in targets ==>
                    targets[id] == if id in ids[..i] && id in sees then Stored(p, old(targets)[id], sees[id]) else old(targets)[id]
      {
        var id := ids[i];
        assert id !in ids[..i];
        if id !in sees {
          continue;
        }
        var s := sees[id];
        if p.max <= 0 || p.scaledToZero || (targets[id] == 0 && s.load.rpm == 0.0 && !s.load.hasCpu) {
          continue;
        }
        var current := ClampCurrent(p, Some(targets[id]));
        var next := ComputeDesired(p, Some(targets[id]), s.load);
        if s.fast && next <= current {
          continue;
        }
        if !s.fast && next < current && s.holdScaleDown {
          continue;
        }
        if next != current && s.writeSucceeds {
          targets := targets[id := next];
        }
      }
      assert ids[..|ids|] == ids;
    }
  }
}
