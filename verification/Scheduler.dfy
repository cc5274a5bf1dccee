/**
 The reconcile scheduler: a due-time map and a running set guarded by one mutex, a bounded
 channel, and a pool of workers.

 The first half describes the scheduler as atomic steps. A tick holds the mutex for its whole
 scan, so `Schedule` calls and worker completions wait for it, but workers take ids off the
 channel without the mutex and may do so between any two ids of the scan. The second half is the
 object itself, whose methods are proved to perform exactly those steps.
 */
module Scheduler {
  import opened Options

  type Id = nat
  type WorkerId = nat

  /** A point in time; 0 is the zero `time.Time`, which every clock reading is after. */
  type Time = int

  const ZERO: Time := 0
  const SECOND: int := 1_000_000_000
  const CAPACITY: nat := 100

  datatype Config = Config(workers: nat, retryAfter: int, defaultAfter: int) {
    predicate Valid() { workers > 0 && retryAfter > 0 && defaultAfter > 0 }
  }

  /** A scan in progress: the time it read and the ids it has not looked at yet. */
  datatype Tick = Tick(now: Time, unseen: set<Id>)

  datatype State = State(
    schedule: map<Id, Time>,
    running: set<Id>,
    queue: seq<Id>,
    busy: map<WorkerId, Id>,
    tick: Option<Tick>,
    closed: bool)
  {
    /** The stored due time; a missing entry reads as the zero time. */
    function Due(id: Id): Time { if id in schedule then schedule[id] else ZERO }
  }

  datatype Step =
    | Schedule(id: Id, at: Time)
    | TickBegin(now: Time)
    | Visit(id: Id)
    | TickEnd
    | Take(worker: WorkerId)
    | Finish(worker: WorkerId, now: Time, ok: bool)
    | Close

  predicate Enabled(c: Config, s: State, step: Step) {
    match step
    case Schedule(_, _) => s.tick.None?
    case TickBegin(now) => s.tick.None? && !s.closed && now > ZERO
    case Visit(id) => s.tick.Some? && id in s.tick.value.unseen
    case TickEnd => s.tick.Some? && s.tick.value.unseen == {}
    case Take(w) => w < c.workers && w !in s.busy && s.queue != []
    case Finish(w, now, _) => s.tick.None? && w in s.busy && now > ZERO
    case Close => s.tick.None?
  }

  /** What the scan does with one id, given the time it read. */
  function Dispatch(s: State, now: Time, id: Id): State {
    if s.Due(id) == ZERO || s.Due(id) > now || id in s.running then s
    else if |s.queue| < CAPACITY then
      s.(running := s.running + {id}, schedule := s.schedule[id := ZERO], queue := s.queue + [id])
    else
      s.(schedule := s.schedule[id := now + SECOND])
  }

  /** What a worker leaves behind for `id` when its reconcile call returns. */
  function Settle(c: Config, s: State, id: Id, now: Time, ok: bool): State {
    var at :=
      if !ok then now + c.retryAfter
      else if s.Due(id) == ZERO then now + c.defaultAfter
      else s.Due(id);
    s.(running := s.running - {id}, schedule := s.schedule[id := at])
  }

  function Apply(c: Config, s: State, step: Step): State
    requires Enabled(c, s, step)
  {
    match step
    case Schedule(id, at) => s.(schedule := s.schedule[id := at])
    case TickBegin(now) => s.(tick := Some(Tick(now, s.schedule.Keys)))
    case Visit(id) =>
      Dispatch(s, s.tick.value.now, id).(
        tick := Some(s.tick.value.(unseen := s.tick.value.unseen - {id})))
    case TickEnd => s.(tick := None)
    case Take(w) => s.(queue := s.queue[1..], busy := s.busy[w := s.queue[0]])
    case Finish(w, now, ok) => Settle(c, s, s.busy[w], now, ok).(busy := s.busy - {w})
    case Close => s.(closed := true)
  }

  /** An id that finds the channel full is not running and is put off. */
  lemma PutBack(schedule: map<Id, Time>, running: set<Id>, id: Id, at: Time)
    requires id !in running
    ensures running + {id} - {id} == running && schedule[id := ZERO][id := at] == schedule[id := at]
  {
  }

  lemma VisitDispatches(c: Config, s: State, now: Time, id: Id, unseen: set<Id>)
    requires id in s.schedule && id in unseen
    ensures var t := s.(tick := Some(Tick(now, unseen)));
            && Enabled(c, t, Visit(id))
            && Apply(c, t, Visit(id)) == Dispatch(s, now, id).(tick := Some(Tick(now, unseen - {id})))
            && Dispatch(s, now, id).schedule.Keys == s.schedule.Keys
  {
  }

  /** The state after `steps`, or `None` if some step is not possible where it stands. */
  function Run(c: Config, s: State, steps: seq<Step>): Option<State>
    decreases |steps|
  {
    if steps == [] then Some(s)
    else if Enabled(c, s, steps[0]) then Run(c, Apply(c, s, steps[0]), steps[1..])
    else None
  }

  const INITIAL := State(map[], {}, [], map[], None, false)

  // ---- mutual exclusion ------------------------------------------------------------------------

  predicate Distinct(q: seq<Id>) { forall i, j :: 0 <= i < j < |q| ==> q[i] != q[j] }

  predicate Injective(m: map<WorkerId, Id>) {
    forall v, w :: v in m && w in m && m[v] == m[w] ==> v == w
  }

  /**
   The running set is the disjoint union of what is queued and what is being reconciled, and
   neither holds an id twice; in particular no id is reconciled by two workers at once.
   */
  ghost predicate Exclusive(c: Config, s: State) {
    && Distinct(s.queue)
    && Injective(s.busy)
    && (forall w :: w in s.busy ==> s.busy[w] !in s.queue)
    && (forall id :: id in s.running <==> id in s.queue || id in s.busy.Values)
    && |s.queue| <= CAPACITY
    && (forall w :: w in s.busy ==> w < c.workers)
  }

  lemma DispatchKeepsExclusive(c: Config, s: State, now: Time, id: Id)
    requires Exclusive(c, s)
    ensures Exclusive(c, Dispatch(s, now, id))
  {
    var t := Dispatch(s, now, id);
    if t.queue != s.queue {
      forall x ensures x in t.queue <==> x in s.queue || x == id {
        if x in s.queue {
          var i :| 0 <= i < |s.queue| && s.queue[i] == x;
          assert t.queue[i] == x;
        }
        assert t.queue[|s.queue|] == id;
      }
      assert id !in s.busy.Values && id !in s.queue;
    }
  }

  lemma TakeKeepsExclusive(c: Config, s: State, w: WorkerId)
    requires Exclusive(c, s) && Enabled(c, s, Take(w))
    ensures Exclusive(c, Apply(c, s, Take(w)))
  {
    var t := Apply(c, s, Take(w));
    var id := s.queue[0];
    assert s.queue == [id] + t.queue;
    assert forall i :: 0 <= i < |t.queue| ==> t.queue[i] == s.queue[i + 1];
    forall x ensures x in t.busy.Values <==> x in s.busy.Values || x == id {
      assert w in t.busy;
      if x in s.busy.Values {
        var v :| v in s.busy && s.busy[v] == x;
        assert t.busy[v] == x;
      }
    }
  }

  lemma FinishKeepsExclusive(c: Config, s: State, w: WorkerId, now: Time, ok: bool)
    requires Exclusive(c, s) && Enabled(c, s, Finish(w, now, ok))
    ensures Exclusive(c, Apply(c, s, Finish(w, now, ok)))
  {
    var t := Apply(c, s, Finish(w, now, ok));
    var id := s.busy[w];
    forall x ensures x in t.busy.Values <==> x in s.busy.Values && x != id {
      if x in s.busy.Values && x != id {
        var v :| v in s.busy && s.busy[v] == x;
        assert t.busy[v] == x;
      }
    }
  }

  lemma StepKeepsExclusive(c: Config, s: State, step: Step)
    requires Exclusive(c, s) && Enabled(c, s, step)
    ensures Exclusive(c, Apply(c, s, step))
  {
    match step
    case Visit(id) => DispatchKeepsExclusive(c, s, s.tick.value.now, id);
    case Take(w) => TakeKeepsExclusive(c, s, w);
    case Finish(w, now, ok) => FinishKeepsExclusive(c, s, w, now, ok);
    case _ =>
  }

  lemma {:induction false} RunKeepsExclusive(c: Config, s: State, steps: seq<Step>)
    requires Exclusive(c, s) && Run(c, s, steps).Some?
    ensures Exclusive(c, Run(c, s, steps).value)
    decreases |steps|
  {
    if steps != [] {
      StepKeepsExclusive(c, s, steps[0]);
      RunKeepsExclusive(c, Apply(c, s, steps[0]), steps[1..]);
    }
  }

  /** In every interleaving, no entity is reconciled twice at once and the channel never overflows. */
  lemma NeverTwiceAtOnce(c: Config, steps: seq<Step>)
    requires Run(c, INITIAL, steps).Some?
    ensures var s := Run(c, INITIAL, steps).value;
            && Exclusive(c, s)
            && |s.busy| <= c.workers
  {
    RunKeepsExclusive(c, INITIAL, steps);
    var s := Run(c, INITIAL, steps).value;
    SmallSet(s.busy.Keys, c.workers);
  }

  lemma SmallSet(ws: set<nat>, n: nat)
    requires forall w :: w in ws ==> w < n
    ensures |ws| <= n
  {
    if n > 0 {
      SmallSet(ws - {n - 1}, n - 1);
    } else {
      assert ws == {};
    }
  }

  // ---- no scheduled entity is lost -------------------------------------------------------------

  /** The scheduler still knows that it owes `id` a reconcile. */
  predicate Tracked(s: State, id: Id) { id in s.running || s.Due(id) != ZERO }

  /** A step loses track of `id` exactly when it schedules it, while idle, at the zero time. */
  lemma StepLosesIff(c: Config, s: State, step: Step, id: Id)
    requires c.Valid() && Exclusive(c, s) && Enabled(c, s, step)
    requires step.Visit? ==> s.tick.value.now > ZERO
    requires Tracked(s, id)
    ensures !Tracked(Apply(c, s, step), id) <==> step == Schedule(id, ZERO) && id !in s.running
  {
  }

  predicate TickClock(s: State) { s.tick.Some? ==> s.tick.value.now > ZERO }

  /**
   Once scheduled at a non-zero time, an id is running or has a non-zero due time in every later
   state, as long as nobody schedules it at the zero time.
   */
  lemma {:induction false} NeverLost(c: Config, s: State, steps: seq<Step>, id: Id)
    requires c.Valid() && Exclusive(c, s) && TickClock(s) && Tracked(s, id)
    requires Run(c, s, steps).Some?
    requires Schedule(id, ZERO) !in steps
    ensures Tracked(Run(c, s, steps).value, id)
    decreases |steps|
  {
    if steps != [] {
      assert steps[0] in steps;
      StepLosesIff(c, s, steps[0], id);
      StepKeepsExclusive(c, s, steps[0]);
      NeverLost(c, Apply(c, s, steps[0]), steps[1..], id);
    }
  }

  // ---- rescheduling while a reconcile is in flight ---------------------------------------------

  /** Nothing reschedules `id` and no worker finishes with it during `steps`. */
  predicate Undisturbed(c: Config, s: State, steps: seq<Step>, id: Id)
    requires Run(c, s, steps).Some?
    decreases |steps|
  {
    steps != [] ==>
      && !(steps[0].Schedule? && steps[0].id == id)
      && !(steps[0].Finish? && s.busy[steps[0].worker] == id)
      && Undisturbed(c, Apply(c, s, steps[0]), steps[1..], id)
  }

  /** No tick touches the due time of an id that is running. */
  lemma {:induction false} InFlightScheduleKept(c: Config, s: State, steps: seq<Step>, id: Id)
    requires Exclusive(c, s) && id in s.running
    requires Run(c, s, steps).Some? && Undisturbed(c, s, steps, id)
    ensures var t := Run(c, s, steps).value;
            Exclusive(c, t) && id in t.running && t.Due(id) == s.Due(id)
    decreases |steps|
  {
    if steps != [] {
      StepKeepsExclusive(c, s, steps[0]);
      var t := Apply(c, s, steps[0]);
      if steps[0].Finish? {
        assert s.busy[steps[0].worker] != id;
      }
      InFlightScheduleKept(c, t, steps[1..], id);
    }
  }

  /** The due time of an id whose reconcile returns, from the one it had at any time in flight. */
  lemma DueAfterFinish(c: Config, s: State, id: Id, steps: seq<Step>, w: WorkerId, now: Time, ok: bool)
    requires Exclusive(c, s) && id in s.running
    requires Run(c, s, steps).Some? && Undisturbed(c, s, steps, id)
    requires Enabled(c, Run(c, s, steps).value, Finish(w, now, ok)) && Run(c, s, steps).value.busy[w] == id
    ensures var t := Apply(c, Run(c, s, steps).value, Finish(w, now, ok));
            && id !in t.running
            && t.Due(id) == (if !ok then now + c.retryAfter
                             else if s.Due(id) == ZERO then now + c.defaultAfter else s.Due(id))
  {
    InFlightScheduleKept(c, s, steps, id);
  }

  /**
   A `Schedule` made while `id` is in flight takes precedence after a successful reconcile, and
   is overwritten by the retry time after a failed one.
   */
  lemma RescheduledInFlight(c: Config, s: State, id: Id, at: Time, steps: seq<Step>,
                            w: WorkerId, now: Time, ok: bool)
    requires c.Valid() && Exclusive(c, s) && id in s.running && Enabled(c, s, Schedule(id, at))
    requires var s1 := Apply(c, s, Schedule(id, at));
             && Run(c, s1, steps).Some? && Undisturbed(c, s1, steps, id)
             && Enabled(c, Run(c, s1, steps).value, Finish(w, now, ok))
             && Run(c, s1, steps).value.busy[w] == id
    ensures var s1 := Apply(c, s, Schedule(id, at));
            var t := Apply(c, Run(c, s1, steps).value, Finish(w, now, ok));
            && id !in t.running
            && t.Due(id) == (if !ok then now + c.retryAfter
                             else if at == ZERO then now + c.defaultAfter else at)
            && (t.Due(id) == at <==> (ok && at != ZERO) || (!ok && at == now + c.retryAfter))
  {
    var s1 := Apply(c, s, Schedule(id, at));
    StepKeepsExclusive(c, s, Schedule(id, at));
    DueAfterFinish(c, s1, id, steps, w, now, ok);
  }

  // ---- one whole tick --------------------------------------------------------------------------

  predicate DueAt(s: State, now: Time, id: Id) {
    id !in s.running && s.Due(id) != ZERO && s.Due(id) <= now
  }

  /** The steps that can fall between the start and the end of a tick. */
  predicate InsideTick(steps: seq<Step>) {
    forall i :: 0 <= i < |steps| ==> steps[i].Visit? || steps[i].Take?
  }

  /** How a state inside a tick relates to the state `s` the tick started in, for one id. */
  predicate Progress(s: State, t: State, now: Time, id: Id) {
    && t.tick.Some? && t.tick.value.now == now
    && (!DueAt(s, now, id) ==> t.Due(id) == s.Due(id) && (id in t.running <==> id in s.running))
    && (DueAt(s, now, id) && id in t.tick.value.unseen ==>
          t.Due(id) == s.Due(id) && id !in t.running)
    && (DueAt(s, now, id) && id !in t.tick.value.unseen ==>
          (id in t.running && t.Due(id) == ZERO) || (id !in t.running && t.Due(id) == now + SECOND))
    && (DueAt(s, now, id) ==> id in s.schedule)
  }

  lemma StepProgress(c: Config, s: State, t: State, now: Time, step: Step, id: Id)
    requires Exclusive(c, t) && Progress(s, t, now, id)
    requires (step.Visit? || step.Take?) && Enabled(c, t, step)
    ensures Progress(s, Apply(c, t, step), now, id)
  {
  }

  lemma {:induction false} TickProgress(c: Config, s: State, t: State, now: Time, steps: seq<Step>, id: Id)
    requires Exclusive(c, t) && Progress(s, t, now, id)
    requires InsideTick(steps) && Run(c, t, steps).Some?
    ensures Progress(s, Run(c, t, steps).value, now, id)
    decreases |steps|
  {
    if steps != [] {
      StepKeepsExclusive(c, t, steps[0]);
      StepProgress(c, s, t, now, steps[0], id);
      TickProgress(c, s, Apply(c, t, steps[0]), now, steps[1..], id);
    }
  }

  /**
   A tick overlooks nothing that is due: when it ends, every id that was due and idle when it
   began is running, or has been put off by one second; every other id kept its due time.
   */
  lemma TickHandlesAllDue(c: Config, s: State, now: Time, steps: seq<Step>, id: Id)
    requires Exclusive(c, s) && Enabled(c, s, TickBegin(now)) && InsideTick(steps)
    requires var begun := Apply(c, s, TickBegin(now));
             Run(c, begun, steps).Some? && Enabled(c, Run(c, begun, steps).value, TickEnd)
    ensures var t := Run(c, Apply(c, s, TickBegin(now)), steps).value;
            && (DueAt(s, now, id) ==>
                  (id in t.running && t.Due(id) == ZERO) || (id !in t.running && t.Due(id) == now + SECOND))
            && (!DueAt(s, now, id) ==>
                  t.Due(id) == s.Due(id) && (id in t.running <==> id in s.running))
  {
    var begun := Apply(c, s, TickBegin(now));
    StepKeepsExclusive(c, s, TickBegin(now));
    TickProgress(c, s, begun, now, steps, id);
  }

  /** Inside a tick, `id` has been dispatched or is due and still to be visited. */
  predicate OnItsWay(t: State, id: Id)
    requires t.tick.Some?
  {
    || (id in t.running && t.Due(id) == ZERO)
    || (id in t.tick.value.unseen && DueAt(t, t.tick.value.now, id))
  }

  lemma RoomyStep(c: Config, t: State, step: Step, id: Id)
    requires t.tick.Some? && |t.queue| + |t.tick.value.unseen| <= CAPACITY && OnItsWay(t, id)
    requires (step.Visit? || step.Take?) && Enabled(c, t, step)
    ensures var u := Apply(c, t, step);
            u.tick.Some? && |u.queue| + |u.tick.value.unseen| <= CAPACITY && OnItsWay(u, id)
  {
  }

  lemma {:induction false} RoomyTick(c: Config, t: State, steps: seq<Step>, id: Id)
    requires t.tick.Some? && |t.queue| + |t.tick.value.unseen| <= CAPACITY
    requires OnItsWay(t, id)
    requires InsideTick(steps) && Run(c, t, steps).Some?
    ensures Run(c, t, steps).value.tick.Some? && OnItsWay(Run(c, t, steps).value, id)
    decreases |steps|
  {
    if steps != [] {
      RoomyStep(c, t, steps[0], id);
      RoomyTick(c, Apply(c, t, steps[0]), steps[1..], id);
    }
  }

  /** With room for every entry, a tick puts nothing off: all that was due is running at its end. */
  lemma TickWithRoomRunsAllDue(c: Config, s: State, now: Time, steps: seq<Step>, id: Id)
    requires Enabled(c, s, TickBegin(now)) && InsideTick(steps)
    requires |s.queue| + |s.schedule| <= CAPACITY && DueAt(s, now, id)
    requires var begun := Apply(c, s, TickBegin(now));
             Run(c, begun, steps).Some? && Enabled(c, Run(c, begun, steps).value, TickEnd)
    ensures id in Run(c, Apply(c, s, TickBegin(now)), steps).value.running
  {
    assert |s.schedule.Keys| == |s.schedule|;
    RoomyTick(c, Apply(c, s, TickBegin(now)), steps, id);
  }

  // ---- from being scheduled to being run ---------------------------------------------------------

  /** No tick of the run begins when `at` is due. */
  predicate NoTickFrom(steps: seq<Step>, at: Time) {
    forall i :: 0 <= i < |steps| && steps[i].TickBegin? ==> at == ZERO || steps[i].now < at
  }

  predicate TooEarly(s: State, at: Time) { s.tick.Some? ==> at == ZERO || s.tick.value.now < at }

  lemma WaitsOneStep(c: Config, s: State, id: Id, step: Step)
    requires Exclusive(c, s) && TooEarly(s, s.Due(id)) && Enabled(c, s, step)
    requires !(step.Schedule? && step.id == id) && !(step.Finish? && s.busy[step.worker] == id)
    requires step.TickBegin? ==> s.Due(id) == ZERO || step.now < s.Due(id)
    ensures var t := Apply(c, s, step);
            t.Due(id) == s.Due(id) && (id in t.running <==> id in s.running) && TooEarly(t, s.Due(id))
  {
  }

  lemma {:induction false} WaitsUntilDue(c: Config, s: State, id: Id, steps: seq<Step>)
    requires Exclusive(c, s) && TooEarly(s, s.Due(id))
    requires Run(c, s, steps).Some? && Undisturbed(c, s, steps, id) && NoTickFrom(steps, s.Due(id))
    ensures var t := Run(c, s, steps).value;
            Exclusive(c, t) && t.Due(id) == s.Due(id) && (id in t.running <==> id in s.running)
    decreases |steps|
  {
    if steps != [] {
      StepKeepsExclusive(c, s, steps[0]);
      WaitsOneStep(c, s, id, steps[0]);
      assert NoTickFrom(steps[1..], s.Due(id));
      WaitsUntilDue(c, Apply(c, s, steps[0]), id, steps[1..]);
    }
  }

  /**
   The latest schedule wins for idle and running ids alike: until the id is scheduled again or a worker
   finishes with it, and until a tick begins when it is due, its due time is the one asked for.
   */
  lemma ScheduleWaits(c: Config, s: State, id: Id, at: Time, steps: seq<Step>)
    requires Exclusive(c, s) && Enabled(c, s, Schedule(id, at))
    requires var s1 := Apply(c, s, Schedule(id, at));
             Run(c, s1, steps).Some? && Undisturbed(c, s1, steps, id) && NoTickFrom(steps, at)
    ensures var t := Run(c, Apply(c, s, Schedule(id, at)), steps).value;
            Exclusive(c, t) && t.Due(id) == at && (id in t.running <==> id in s.running)
  {
    StepKeepsExclusive(c, s, Schedule(id, at));
    WaitsUntilDue(c, Apply(c, s, Schedule(id, at)), id, steps);
  }

  /** The first tick that begins when the id is due, with room for every entry, runs an idle id. */
  lemma ScheduledIsRun(c: Config, s: State, id: Id, at: Time, steps: seq<Step>, now: Time, inside: seq<Step>)
    requires Exclusive(c, s) && Enabled(c, s, Schedule(id, at)) && id !in s.running && at != ZERO && at <= now
    requires var s1 := Apply(c, s, Schedule(id, at));
             && Run(c, s1, steps).Some? && Undisturbed(c, s1, steps, id) && NoTickFrom(steps, at)
             && var t := Run(c, s1, steps).value;
                && Enabled(c, t, TickBegin(now)) && |t.queue| + |t.schedule| <= CAPACITY && InsideTick(inside)
                && Run(c, Apply(c, t, TickBegin(now)), inside).Some?
                && Enabled(c, Run(c, Apply(c, t, TickBegin(now)), inside).value, TickEnd)
    ensures var t := Run(c, Apply(c, s, Schedule(id, at)), steps).value;
            id in Run(c, Apply(c, t, TickBegin(now)), inside).value.running
  {
    ScheduleWaits(c, s, id, at, steps);
    TickWithRoomRunsAllDue(c, Run(c, Apply(c, s, Schedule(id, at)), steps).value, now, inside, id);
  }

  // ---- first in, first out -------------------------------------------------------------------------

  /** The id that a step has begin to run, if any. */
  function Begins(c: Config, s: State, step: Step): seq<Id>
    requires Enabled(c, s, step)
  {
    if step.Visit? && step.id !in s.running && step.id in Apply(c, s, step).running then [step.id] else []
  }

  /** The id that a worker receives in a step, if any. */
  function Receives(c: Config, s: State, step: Step): seq<Id>
    requires Enabled(c, s, step)
  {
    if step.Take? && step.worker in Apply(c, s, step).busy then [Apply(c, s, step).busy[step.worker]] else []
  }

  function Begun(c: Config, s: State, steps: seq<Step>): seq<Id>
    requires Run(c, s, steps).Some?
    decreases |steps|
  {
    if steps == [] then [] else Begins(c, s, steps[0]) + Begun(c, Apply(c, s, steps[0]), steps[1..])
  }

  function Received(c: Config, s: State, steps: seq<Step>): seq<Id>
    requires Run(c, s, steps).Some?
    decreases |steps|
  {
    if steps == [] then [] else Receives(c, s, steps[0]) + Received(c, Apply(c, s, steps[0]), steps[1..])
  }

  lemma QueueStep(c: Config, s: State, step: Step)
    requires Exclusive(c, s) && Enabled(c, s, step)
    ensures s.queue + Begins(c, s, step) == Receives(c, s, step) + Apply(c, s, step).queue
  {
  }

  lemma QueueChain(q0: seq<Id>, b: seq<Id>, r: seq<Id>, q1: seq<Id>, more: seq<Id>, later: seq<Id>, q2: seq<Id>)
    requires q0 + b == r + q1 && q1 + more == later + q2
    ensures q0 + (b + more) == (r + later) + q2
  {
    assert q0 + (b + more) == (q0 + b) + more;
    assert (r + q1) + more == r + (q1 + more);
    assert r + (later + q2) == (r + later) + q2;
  }

  /** Workers receive ids in the order in which ticks had them begin. */
  lemma {:induction false} FirstInFirstOut(c: Config, s: State, steps: seq<Step>)
    requires Exclusive(c, s) && Run(c, s, steps).Some?
    ensures s.queue + Begun(c, s, steps) == Received(c, s, steps) + Run(c, s, steps).value.queue
    decreases |steps|
  {
    if steps != [] {
      var t := Apply(c, s, steps[0]);
      QueueStep(c, s, steps[0]);
      StepKeepsExclusive(c, s, steps[0]);
      FirstInFirstOut(c, t, steps[1..]);
      QueueChain(s.queue, Begins(c, s, steps[0]), Receives(c, s, steps[0]), t.queue,
                 Begun(c, t, steps[1..]), Received(c, t, steps[1..]), Run(c, s, steps).value.queue);
    }
  }

  // ---- after shutdown ------------------------------------------------------------------------------

  lemma {:induction false} NothingBeginsWhenClosed(c: Config, s: State, steps: seq<Step>)
    requires s.closed && s.tick.None? && Run(c, s, steps).Some?
    ensures Begun(c, s, steps) == [] && Run(c, s, steps).value.closed
    ensures forall i :: 0 <= i < |steps| ==> !steps[i].TickBegin?
    decreases |steps|
  {
    if steps != [] {
      NothingBeginsWhenClosed(c, Apply(c, s, steps[0]), steps[1..]);
    }
  }

  /** After shutdown no tick begins, no id begins to run, and workers receive what was queued, in order. */
  lemma ClosedOnlyDrains(c: Config, s: State, steps: seq<Step>)
    requires Exclusive(c, s) && Enabled(c, s, Close) && Run(c, Apply(c, s, Close), steps).Some?
    ensures var t := Apply(c, s, Close);
            && (forall i :: 0 <= i < |steps| ==> !steps[i].TickBegin?)
            && s.queue == Received(c, t, steps) + Run(c, t, steps).value.queue
  {
    var t := Apply(c, s, Close);
    StepKeepsExclusive(c, s, Close);
    NothingBeginsWhenClosed(c, t, steps);
    FirstInFirstOut(c, t, steps);
  }

  // ---- the object ------------------------------------------------------------------------------

  lemma {:induction false} RunSnoc(c: Config, s: State, steps: seq<Step>, step: Step)
    requires Run(c, s, steps).Some? && Enabled(c, Run(c, s, steps).value, step)
    ensures Run(c, s, steps + [step]) == Some(Apply(c, Run(c, s, steps).value, step))
    decreases |steps|
  {
    if steps == [] {
      assert steps + [step] == [step] && [step][1..] == [];
    } else {
      RunSnoc(c, Apply(c, s, steps[0]), steps[1..], step);
      assert (steps + [step])[1..] == steps[1..] + [step];
    }
  }

  /** The scheduler object; `busy` holds the local variable of each worker's receive loop. */
  class ReconcileScheduler {
    const config: Config
    var schedule: map<Id, Time>
    var running: set<Id>
    var work: seq<Id>
    var busy: map<WorkerId, Id>
    var closed: bool

    ghost function View(): State
      reads this
    {
      State(schedule, running, work, busy, None, closed)
    }

    ghost predicate Valid()
      reads this
    {
      config.Valid() && Exclusive(config, View())
    }

    constructor (workers: int, retryAfter: int, defaultAfter: int)
      ensures Valid() && View() == INITIAL
      ensures config.workers == if workers <= 0 then 5 else workers
      ensures config.retryAfter == if retryAfter <= 0 then 5 * SECOND else retryAfter
      ensures config.defaultAfter == if defaultAfter <= 0 then 3600 * SECOND else defaultAfter
    {
      config := Config(if workers <= 0 then 5 else workers,
                       if retryAfter <= 0 then 5 * SECOND else retryAfter,
                       if defaultAfter <= 0 then 3600 * SECOND else defaultAfter);
      schedule, running, work, busy, closed := map[], {}, [], map[], false;
    }

    method Reschedule(id: Id, at: Time)
      requires Valid()
      modifies this
      ensures Valid() && View() == Apply(config, old(View()), Schedule(id, at))
      ensures schedule == old(schedule)[id := at]
      ensures unchanged(`running) && unchanged(`work) && unchanged(`busy) && unchanged(`closed)
    {
      StepKeepsExclusive(config, View(), Schedule(id, at));
      schedule := schedule[id := at];
    }

    /** A worker receives the next id from the channel. */
    method Receive(w: WorkerId)
      requires Valid() && Enabled(config, View(), Take(w))
      modifies this`work, this`busy
      ensures Valid() && View() == Apply(config, old(View()), Take(w))
    {
      StepKeepsExclusive(config, View(), Take(w));
      busy := busy[w := work[0]];
      work := work[1..];
    }

    /** A worker's reconcile call has returned. */
    method Complete(w: WorkerId, now: Time, ok: bool)
      requires Valid() && Enabled(config, View(), Finish(w, now, ok))
      modifies this
      ensures Valid() && View() == Apply(config, old(View()), Finish(w, now, ok))
    {
      ghost var settled := Apply(config, View(), Finish(w, now, ok));
      StepKeepsExclusive(config, View(), Finish(w, now, ok));
      var id := busy[w];
      busy := busy - {w};
      running := running - {id};
      if !ok {
        schedule := schedule[id := now + config.retryAfter];
      } else if id !in schedule || schedule[id] == ZERO {
        schedule := schedule[id := now + config.defaultAfter];
      } else {
        assert schedule == schedule[id := schedule[id]];
      }
      assert View() == settled;
    }

    /** Idle workers receive any number of ids while a scan holds the mutex. */
    method Interfere(ghost tick: Tick) returns (ghost steps: seq<Step>)
      requires Valid()
      modifies this`work, this`busy
      ensures Valid() && InsideTick(steps)
      ensures Run(config, old(View()).(tick := Some(tick)), steps) == Some(View().(tick := Some(tick)))
    {
      steps := [];
      while work != []
        invariant Valid() && InsideTick(steps)
        invariant Run(config, old(View()).(tick := Some(tick)), steps) == Some(View().(tick := Some(tick)))
        decreases |work|
      {
        var w: WorkerId := *;
        if w >= config.workers || w in busy {
          break;
        }
        RunSnoc(config, old(View()).(tick := Some(tick)), steps, Take(w));
        steps := steps + [Take(w)];
        Receive(w);
      }
    }

    /** The scan comes to one id: it is handed to a worker, put off, or left as it is. */
    method VisitEntry(now: Time, id: Id, ghost unseen: set<Id>)
      requires Valid() && id in schedule && id in unseen && !closed
      modifies this`schedule, this`running, this`work
      ensures Valid() && schedule.Keys == old(schedule.Keys)
      ensures Enabled(config, old(View()).(tick := Some(Tick(now, unseen))), Visit(id))
      ensures View().(tick := Some(Tick(now, unseen - {id})))
              == Apply(config, old(View()).(tick := Some(Tick(now, unseen))), Visit(id))
    {
      ghost var visited := Dispatch(View(), now, id);
      DispatchKeepsExclusive(config, View(), now, id);
      VisitDispatches(config, View(), now, id, unseen);
      if schedule[id] != ZERO && schedule[id] <= now && id !in running {
        running := running + {id};
        schedule := schedule[id := ZERO];
        if |work| < CAPACITY {
          work := work + [id];
        } else {
          PutBack(old(schedule), old(running), id, now + SECOND);
          running := running - {id};
          schedule := schedule[id := now + SECOND];
        }
      }
      assert View() == visited;
    }

    /**
     One scan of the schedule, in whatever order the map yields its ids. The method performs a
     run of the step system that begins a tick, visits every id once, and ends the tick.
     */
    method DispatchDue(now: Time) returns (ghost steps: seq<Step>)
      requires Valid() && now > ZERO && !closed
      modifies this
      ensures Valid() && InsideTick(steps)
      ensures var begun := Apply(config, old(View()), TickBegin(now));
              && Run(config, begun, steps).Some?
              && Enabled(config, Run(config, begun, steps).value, TickEnd)
              && View() == Apply(config, Run(config, begun, steps).value, TickEnd)
    {
      ghost var begun := Apply(config, View(), TickBegin(now));
      steps := [];
      var unseen := schedule.Keys;
      while unseen != {}
        invariant Valid() && InsideTick(steps) && !closed
        invariant unseen <= schedule.Keys
        invariant Run(config, begun, steps) == Some(View().(tick := Some(Tick(now, unseen))))
        decreases unseen
      {
        ghost var taken := Interfere(Tick(now, unseen));
        RunConcat(config, begun, steps, taken);
        steps := steps + taken;
        var id :| id in unseen;
        VisitEntry(now, id, unseen);
        RunSnoc(config, begun, steps, Visit(id));
        steps := steps + [Visit(id)];
        unseen := unseen - {id};
      }
    }
  }

  lemma {:induction false} RunConcat(c: Config, s: State, first: seq<Step>, second: seq<Step>)
    requires Run(c, s, first).Some?
    ensures Run(c, s, first + second) == Run(c, Run(c, s, first).value, second)
    decreases |first|
  {
    if first == [] {
      assert first + second == second;
    } else {
      RunConcat(c, Apply(c, s, first[0]), first[1..], second);
      assert (first + second)[1..] == first[1..] + second;
    }
  }
}
