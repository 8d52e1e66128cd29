/** Runs of one store: commands and expiration cycles in any order. */
module StoreRuns {
  import opened Options
  import opened Types
  import opened Ticks
  import opened WheelSpec
  import opened StoreSpec
  import opened Commands

  datatype Step =
    | Command(request: Request, readings: Readings)
    | Cycle(now: real)

  function Reading(step: Step, i: nat): real {
    match step
    case Command(_, readings) => readings(i)
    case Cycle(now) => now
  }

  ghost function Do(env: Env, s: Store, step: Step): (s': Store)
    requires s.WellFormed()
    ensures s'.WellFormed()
  {
    match step
    case Command(request, readings) => Execute(env, s, request, readings).0
    case Cycle(now) => s.AfterExpirations(now)
  }

  ghost function Run(env: Env, s: Store, steps: seq<Step>): (s': Store)
    requires s.WellFormed()
    ensures s'.WellFormed()
  {
    if steps == [] then s else Do(env, Run(env, s, steps[..|steps| - 1]), steps[|steps| - 1])
  }

  /** The clock never goes back, within a step or from one step to the next. */
  ghost predicate ClockInOrder(steps: seq<Step>) {
    && (forall i :: 0 <= i < |steps| ==> Ordered(steps[i]))
    && (forall i, j :: 0 <= i < j < |steps| ==> Precedes(steps[i], steps[j]))
  }

  ghost predicate Ordered(step: Step) {
    forall m: nat, n: nat :: m <= n ==> Reading(step, m) <= Reading(step, n)
  }

  ghost predicate Precedes(a: Step, b: Step) {
    forall m: nat, n: nat :: Reading(a, m) <= Reading(b, n)
  }

  /** Every reading of every step is at most `t`. */
  ghost predicate ReadBy(steps: seq<Step>, t: real) {
    forall i, m: nat :: 0 <= i < |steps| ==> Reading(steps[i], m) <= t
  }

  // ----- staleness: a readable key is overdue by less than one revolution -----

  ghost predicate Paced(w: Wheel, t: real) {
    w.WellFormed() && w.WithinRevolution() && w.NotAheadOf(t)
  }

  lemma PacedLater(w: Wheel, t: real, t': real)
    requires Paced(w, t) && t <= t'
    ensures Paced(w, t')
  {
    if w.origin.Some? {
      TickMonotone(w.origin.value, w.origin.value, w.tickSeconds, t, t');
    }
  }

  lemma DrainPaced(w: Wheel, now: real)
    requires Paced(w, now)
    ensures Paced(w.Drained(now), now) && w.Drained(now).origin.Some?
  {
    DrainKeepsWithinRevolution(w, now);
  }

  lemma CancelPaced(w: Wheel, k: string, t: real)
    requires Paced(w, t)
    ensures Paced(w.Cancelled(k), t)
  {
    forall j | j in w.Cancelled(k).deadlines ensures w.last < w.Cancelled(k).TickOfKey(j) + w.bucketCount {
      assert w.TickOfKey(j) == w.Cancelled(k).TickOfKey(j);
    }
  }

  lemma SchedulePaced(w: Wheel, k: string, deadline: real, t: real)
    requires Paced(w, t) && w.origin.Some? && t <= deadline
    ensures Paced(w.Scheduled(k, deadline), t)
  {
    TickMonotone(w.origin.value, w.origin.value, w.tickSeconds, t, deadline);
    ScheduleKeepsWithinRevolution(w, k, deadline);
  }

  lemma DeletePaced(s: Store, k: string, now: real)
    requires s.WellFormed() && Paced(s.wheel, now)
    ensures Paced(s.AfterDelete(k, now).0.wheel, now)
  {
    DrainPaced(s.wheel, now);
    CancelPaced(s.wheel.Drained(now), k, now);
  }

  lemma ExpirePaced(s: Store, k: string, seconds: int, now: real, then': real)
    requires s.WellFormed() && Paced(s.wheel, now) && now <= then'
    ensures Paced(s.AfterExpire(k, seconds, now, then').0.wheel, then')
  {
    var s' := s.AfterExpirations(now);
    DrainPaced(s.wheel, now);
    PacedLater(s'.wheel, now, then');
    if k in s.AfterExpirations(now).data {
      if seconds <= 0 {
        DeletePaced(s', k, then');
      } else {
        SchedulePaced(s'.wheel, k, then' + seconds as real, then');
      }
    }
  }

  lemma TtlPaced(s: Store, k: string, now: real, then': real, last: real)
    requires s.WellFormed() && Paced(s.wheel, now) && now <= then' <= last
    ensures Paced(s.AfterTtl(k, now, then', last).0.wheel, last)
  {
    var s' := s.AfterExpirations(now);
    DrainPaced(s.wheel, now);
    PacedLater(s'.wheel, now, last);
    DeletePaced(s', k, last);
  }

  lemma {:induction false} GetsPaced(s: Store, keys: seq<string>, readings: Readings)
    requires s.WellFormed() && Paced(s.wheel, readings(0))
    requires forall m: nat, n: nat :: m <= n ==> readings(m) <= readings(n)
    ensures Paced(AfterGets(s, keys, readings).0.wheel, readings(|keys|))
  {
    if keys == [] {
    } else {
      var n := |keys| - 1;
      var front := AfterGets(s, keys[..n], readings).0;
      GetsPaced(s, keys[..n], readings);
      DrainPaced(front.wheel, readings(n));
      PacedLater(front.wheel.Drained(readings(n)), readings(n), readings(n + 1));
    }
  }

  lemma ExecutePaced(env: Env, s: Store, request: Request, readings: Readings, t: real)
    requires s.WellFormed() && Paced(s.wheel, readings(0))
    requires forall m: nat, n: nat :: m <= n ==> readings(m) <= readings(n) <= t
    ensures Paced(Execute(env, s, request, readings).0.wheel, t)
  {
    var args, w := request.args, Execute(env, s, request, readings).0.wheel;
    PacedLater(s.wheel, readings(0), t);
    DrainPaced(s.wheel, readings(0));
    PacedLater(s.wheel.Drained(readings(0)), readings(0), t);
    match request.command {
      case SET =>
        if |args| == 2 { CancelPaced(s.wheel.Drained(readings(0)), args[0], t); }
      case DEL =>
        if |args| == 1 { CancelPaced(s.wheel.Drained(readings(0)), args[0], t); }
      case EXPIRE =>
        if |args| == 2 && env.parseInt(args[1]).Some? {
          ExpirePaced(s, args[0], env.parseInt(args[1]).value, readings(0), readings(1));
          PacedLater(w, readings(1), t);
        }
      case TTL =>
        if |args| == 1 {
          TtlPaced(s, args[0], readings(0), readings(1), readings(2));
          PacedLater(w, readings(2), t);
        }
      case MGET =>
        if |args| >= 1 {
          GetsPaced(s, args, readings);
          PacedLater(w, readings(|args|), t);
        }
      case _ =>
    }
  }

  lemma {:induction false} RunPaced(env: Env, s: Store, steps: seq<Step>, t: real)
    requires s.WellFormed() && s.wheel.origin.None? && ClockInOrder(steps)
    requires ReadBy(steps, t)
    ensures Paced(Run(env, s, steps).wheel, t)
  {
    if steps == [] {
    } else {
      var front, step := steps[..|steps| - 1], steps[|steps| - 1];
      var before := Run(env, s, front);
      assert steps == front + [step];
      ClockPrefix(front, step);
      RunPaced(env, s, front, Reading(step, 0));
      match step
      case Command(request, readings) =>
        assert forall m: nat :: readings(m) == Reading(step, m) == Reading(steps[|front|], m);
        assert Ordered(step);
        ExecutePaced(env, before, request, readings, t);
      case Cycle(now) =>
        DrainPaced(before.wheel, now);
        PacedLater(before.wheel.Drained(now), now, t);
    }
  }

  /** The staleness bound.  From a store with a fresh wheel, through any commands and expiration
      cycles under a clock that does not go back: a key that is still readable after an expiration
      cycle is overdue by strictly less than one revolution of the wheel. */
  lemma StalenessBound(env: Env, s: Store, steps: seq<Step>, now: real, k: string)
    requires s.WellFormed() && s.wheel.origin.None? && ClockInOrder(steps + [Cycle(now)])
    ensures var w := Run(env, s, steps + [Cycle(now)]).wheel;
            k in w.deadlines ==> now - w.deadlines[k] < w.bucketCount as real * w.tickSeconds
  {
    hide TickOf, Swept, Execute;
    ClockPrefix(steps, Cycle(now));
    RunOneMore(env, s, steps, Cycle(now));
    RunPaced(env, s, steps, now);
    CycleBound(Run(env, s, steps), now, k);
  }

  /** Every store starts, and restarts after a FLUSHALL, with a wheel of 512 ticks of a tenth of a
      second: from a new one on, no key is readable 51.2 seconds after its deadline. */
  lemma NewStoreStaleness(env: Env, steps: seq<Step>, now: real, k: string)
    requires ClockInOrder(steps + [Cycle(now)])
    ensures var w := Run(env, EmptyStore(), steps + [Cycle(now)]).wheel;
            && w.tickSeconds == 0.1 && w.bucketCount == 512
            && (k in w.deadlines ==> now - w.deadlines[k] < 51.2)
  {
    StalenessBound(env, EmptyStore(), steps, now, k);
    WheelStaysDefault(env, steps + [Cycle(now)]);
  }

  predicate DefaultSize(w: Wheel) {
    w.tickSeconds == 0.1 && w.bucketCount == 512
  }

  lemma ExpireKeepsWheelSize(s: Store, k: string, seconds: int, readings: Readings)
    requires s.WellFormed()
    ensures DefaultSize(s.wheel) ==> DefaultSize(s.AfterExpire(k, seconds, readings(0), readings(1)).0.wheel)
    ensures DefaultSize(s.wheel) ==> DefaultSize(s.AfterTtl(k, readings(0), readings(1), readings(2)).0.wheel)
  {
    hide TickOf, Swept, Wheel.DueKeys;
  }

  lemma StepKeepsWheelSize(env: Env, s: Store, step: Step)
    requires s.WellFormed() && DefaultSize(s.wheel)
    ensures DefaultSize(Do(env, s, step).wheel)
  {
    hide TickOf, Swept, Wheel.DueKeys, Store.AfterExpire, Store.AfterTtl;
    if step.Command? {
      var args := step.request.args;
      if step.request.command == MGET { GetsKeepWheelSize(s, args, step.readings); }
      if step.request.command == EXPIRE && |args| == 2 && env.parseInt(args[1]).Some? {
        ExpireKeepsWheelSize(s, args[0], env.parseInt(args[1]).value, step.readings);
      }
      if step.request.command == TTL && |args| == 1 { ExpireKeepsWheelSize(s, args[0], 0, step.readings); }
    }
  }

  lemma {:induction false} GetsKeepWheelSize(s: Store, keys: seq<string>, readings: Readings)
    requires s.WellFormed()
    ensures var w := AfterGets(s, keys, readings).0.wheel;
            w.tickSeconds == s.wheel.tickSeconds && w.bucketCount == s.wheel.bucketCount
  {
    if keys == [] {
    } else {
      GetsKeepWheelSize(s, keys[..|keys| - 1], readings);
    }
  }

  lemma {:induction false} WheelStaysDefault(env: Env, steps: seq<Step>)
    ensures DefaultSize(Run(env, EmptyStore(), steps).wheel)
  {
    hide Do;
    if steps == [] {
    } else {
      WheelStaysDefault(env, steps[..|steps| - 1]);
      StepKeepsWheelSize(env, Run(env, EmptyStore(), steps[..|steps| - 1]), steps[|steps| - 1]);
    }
  }

  lemma CycleBound(s: Store, now: real, k: string)
    requires s.WellFormed() && s.wheel.WithinRevolution()
    ensures var w := s.AfterExpirations(now).wheel;
            k in w.deadlines ==> now - w.deadlines[k] < w.bucketCount as real * w.tickSeconds
  {
    if k in s.wheel.Drained(now).deadlines {
      OverdueLessThanRevolution(s.wheel, now, k);
    }
  }

  lemma RunOneMore(env: Env, s: Store, steps: seq<Step>, step: Step)
    requires s.WellFormed()
    ensures Run(env, s, steps + [step]) == Do(env, Run(env, s, steps), step)
  {
    var all := steps + [step];
    assert all[..|all| - 1] == steps && all[|all| - 1] == step;
  }

  lemma ClockPrefix(steps: seq<Step>, step: Step)
    requires ClockInOrder(steps + [step])
    ensures ClockInOrder(steps) && Ordered(step) && ReadBy(steps, Reading(step, 0))
  {
    var all := steps + [step];
    assert all[|steps|] == step;
    assert forall i :: 0 <= i < |steps| ==> steps[i] == all[i];
    forall i, m: nat | 0 <= i < |steps| ensures Reading(steps[i], m) <= Reading(step, 0) {
      assert Precedes(all[i], all[|steps|]);
    }
  }

  // ----- the staleness bound is tight -----

  lemma TickSteps(width: real, n: int, m: nat)
    requires width > 0.0
    ensures TickStart(0.0, width, n + m) == TickStart(0.0, width, n) + m as real * width
    ensures m >= 1 ==> m as real * width >= width
    ensures TickStart(0.0, width, 0) == 0.0
  {
    assert (n + m) as real == n as real + m as real;
    if m >= 1 {
      assert (m as real - 1.0) * width >= 0.0;
    }
  }

  lemma WitnessTicks(width: real, n: nat, tick: int, slack: real, first: real, second: real)
    requires n > 0 && 0.0 < slack && 3.0 * slack <= width
    requires first == TickStart(0.0, width, tick) && second == first + n as real * width - slack
    ensures TickOf(0.0, width, first) == TickOf(0.0, width, first + slack) == tick
    ensures TickOf(0.0, width, second) == tick + n - 1 && first + slack < second
  {
    hide TickOf;
    TickSteps(width, tick, 1);
    TickSteps(width, tick, n);
    TickSteps(width, tick + n - 1, 1);
    TickIs(0.0, width, first, tick);
    TickIs(0.0, width, first + slack, tick);
    TickIs(0.0, width, second, tick + n - 1);
  }

  /** A drain in the deadline's tick before the deadline, then one just short of a revolution later. */
  lemma TwoDrainsMiss(w: Wheel, k: string, tick: int, first: real, second: real)
    requires w.WellFormed() && w.origin.Some? && w.last < tick && k in w.deadlines
    requires first < w.deadlines[k] < second && w.Tick(first) == w.TickOfKey(k) == tick
    requires w.Tick(second) < tick + w.bucketCount
    ensures k in w.Drained(first).Drained(second).deadlines
  {
    hide TickOf;
    DrainNotEarlyAndNotMissed(w, first, k);
    OverdueSurvivesExactly(w.Drained(first), second, k);
  }

  /** For any wheel and any tolerance there is a run with the clock in order after which a key
      whose deadline passed almost a whole revolution ago is still readable. */
  lemma StalenessBoundIsTight(env: Env, one: string, tickSeconds: real, bucketCount: nat, tolerance: real)
    returns (steps: seq<Step>, now: real, k: string)
    requires env.parseInt(one) == Some(1)
    requires tickSeconds > 0.0 && bucketCount > 0 && tolerance > 0.0
    ensures ClockInOrder(steps + [Cycle(now)])
    ensures var s := Run(env, Store(map[], EmptyWheel(tickSeconds, bucketCount)), steps + [Cycle(now)]);
            && k in s.data && k in s.wheel.deadlines
            && s.wheel.bucketCount == bucketCount && s.wheel.tickSeconds == tickSeconds
            && now - s.wheel.deadlines[k] > bucketCount as real * tickSeconds - tolerance
  {
    hide TickOf;
    k := "k";
    var least := if tickSeconds < 1.0 then tickSeconds else 1.0;
    var slack := (if tolerance < least then tolerance else least) / 3.0;
    var tick := TickOf(0.0, tickSeconds, 1.0) + 1;
    var first := TickStart(0.0, tickSeconds, tick);
    TickBounds(0.0, tickSeconds, 1.0);
    TickAtLeast(0.0, tickSeconds, 1.0, 0);
    TickSteps(tickSeconds, tick, bucketCount);
    now := first + bucketCount as real * tickSeconds - slack;
    WitnessTicks(tickSeconds, bucketCount, tick, slack, first, now);
    var put := Command(Request(SET, [k, "v"]), (i: nat) => 0.0);
    var expire := Command(Request(EXPIRE, [k, one]), (i: nat) => if i == 0 then 0.0 else first + slack - 1.0);
    steps := [put, expire, Cycle(first)];
    FourStepsInOrder(put, expire, Cycle(first), Cycle(now));
    WitnessRun(env, k, one, tickSeconds, bucketCount, put.readings, expire.readings, tick, first, now);
  }

  lemma WitnessRun(env: Env, k: string, one: string, tickSeconds: real, bucketCount: nat,
                   r0: Readings, r1: Readings, tick: int, first: real, second: real)
    requires env.parseInt(one) == Some(1) && tickSeconds > 0.0 && bucketCount > 0 && tick > 0
    requires r0(0) == r1(0) == 0.0 && r1(1) > 0.0 && first < r1(1) + 1.0 < second
    requires TickOf(0.0, tickSeconds, first) == TickOf(0.0, tickSeconds, r1(1) + 1.0) == tick
    requires TickOf(0.0, tickSeconds, second) < tick + bucketCount
    ensures var put := Command(Request(SET, [k, "v"]), r0);
            var expire := Command(Request(EXPIRE, [k, one]), r1);
            var s := Run(env, Store(map[], EmptyWheel(tickSeconds, bucketCount)),
                         [put, expire, Cycle(first)] + [Cycle(second)]);
            && k in s.data && k in s.wheel.deadlines && s.wheel.deadlines[k] == r1(1) + 1.0
            && s.wheel.bucketCount == bucketCount && s.wheel.tickSeconds == tickSeconds
  {
    hide TickOf, Swept, Execute;
    var s0 := Store(map[], EmptyWheel(tickSeconds, bucketCount));
    var put, expire := Command(Request(SET, [k, "v"]), r0), Command(Request(EXPIRE, [k, one]), r1);
    TwoCommands(env, k, one, s0, r0, r1);
    FourSteps(env, s0, put, expire, Cycle(first), Cycle(second));
    var w := Wheel(tickSeconds, bucketCount, Some(0.0), 0, map[k := r1(1) + 1.0]);
    TwoDrainsMiss(w, k, tick, first, second);
    var s := Store(map[k := "v"], w).AfterExpirations(first).AfterExpirations(second);
    assert s.WellFormed() && k in s.wheel.deadlines.Keys;
  }

  lemma TwoCommands(env: Env, k: string, one: string, s: Store, r0: Readings, r1: Readings)
    requires env.parseInt(one) == Some(1) && r0(0) == r1(0) == 0.0 && r1(1) > 0.0
    requires s.WellFormed() && s.data == map[] && s.wheel == EmptyWheel(s.wheel.tickSeconds, s.wheel.bucketCount)
    ensures Do(env, Do(env, s, Command(Request(SET, [k, "v"]), r0)), Command(Request(EXPIRE, [k, one]), r1))
         == Store(map[k := "v"],
                  Wheel(s.wheel.tickSeconds, s.wheel.bucketCount, Some(0.0), 0, map[k := r1(1) + 1.0]))
  {
    var width, n := s.wheel.tickSeconds, s.wheel.bucketCount;
    TickIs(0.0, width, 0.0, 0);
    var s1 := s.AfterSet(k, "v", 0.0);
    assert s.wheel.Drained(0.0).deadlines == map[];
    assert s1 == Store(map[k := "v"], Wheel(width, n, Some(0.0), 0, map[]));
    assert s1.AfterExpirations(0.0) == s1;
  }

  lemma FourSteps(env: Env, s: Store, a: Step, b: Step, c: Step, d: Step)
    requires s.WellFormed()
    ensures Run(env, s, [a, b, c] + [d]) == Do(env, Do(env, Do(env, Do(env, s, a), b), c), d)
  {
    RunOneMore(env, s, [], a);
    RunOneMore(env, s, [a], b);
    RunOneMore(env, s, [a, b], c);
    RunOneMore(env, s, [a, b, c], d);
    assert [] + [a] == [a] && [a] + [b] == [a, b] && [a, b] + [c] == [a, b, c];
  }

  lemma FourStepsInOrder(a: Step, b: Step, c: Step, d: Step)
    requires Ordered(a) && Ordered(b) && Ordered(c) && Ordered(d)
    requires Precedes(a, b) && Precedes(b, c) && Precedes(c, d)
    ensures ClockInOrder([a, b, c] + [d])
  {
    PrecedesTransitive(a, b, c);
    PrecedesTransitive(b, c, d);
    PrecedesTransitive(a, b, d);
  }

  lemma PrecedesTransitive(a: Step, b: Step, c: Step)
    requires Precedes(a, b) && Precedes(b, c)
    ensures Precedes(a, c)
  {
    forall m: nat, n: nat ensures Reading(a, m) <= Reading(c, n) {
      assert Reading(a, m) <= Reading(b, 0) <= Reading(c, n);
    }
  }
}
