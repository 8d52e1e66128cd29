/** Exactly how long a store keeps a key past its deadline, read off the commands and their clock. */
module StoreLateness {
  import opened Options
  import opened Types
  import opened Ticks
  import opened WheelSpec
  import opened WheelRuns
  import opened StoreSpec
  import opened Commands
  import opened StoreRuns

  function Drains(readings: Readings, n: nat): seq<WheelOp> {
    seq(n, i requires 0 <= i < n => Drain(readings(i)))
  }

  /** What a step does to the wheel. */
  ghost function OpsOf(env: Env, s: Store, step: Step): seq<WheelOp>
    requires s.WellFormed()
  {
    match step
    case Cycle(now) => [Drain(now)]
    case Command(Request(command, args), readings) =>
      var found := s.AfterExpirations(readings(0));
      match command
      case PING => []
      case SET => if |args| != 2 then [] else [Drain(readings(0)), Cancel(args[0])]
      case GET => if |args| != 1 then [] else [Drain(readings(0))]
      case DEL => if |args| != 1 then [] else [Drain(readings(0)), Cancel(args[0])]
      case EXPIRE =>
        if |args| != 2 || env.parseInt(args[1]).None? then []
        else if args[0] !in found.data then [Drain(readings(0))]
        else if env.parseInt(args[1]).value <= 0 then [Drain(readings(0)), Drain(readings(1)), Cancel(args[0])]
        else [Drain(readings(0)), Schedule(args[0], readings(1) + env.parseInt(args[1]).value as real)]
      case TTL =>
        if |args| != 1 then []
        else if args[0] in found.wheel.deadlines && Truncate(found.wheel.deadlines[args[0]] - readings(1)) < 0
        then [Drain(readings(0)), Drain(readings(2)), Cancel(args[0])]
        else [Drain(readings(0))]
      case MGET => Drains(readings, |args|)
      case KEYS => if |args| > 1 then [] else [Drain(readings(0))]
      case FLUSHALL => []
  }

  ghost function OpsOfRun(env: Env, s: Store, steps: seq<Step>): seq<WheelOp>
    requires s.WellFormed()
  {
    if steps == [] then []
    else
      var front := steps[..|steps| - 1];
      OpsOfRun(env, s, front) + OpsOf(env, Run(env, s, front), steps[|steps| - 1])
  }

  /** The step neither sets, deletes nor expires `k`, whose deadline is `e`, nor finds it long overdue
      by a TTL; and it is no FLUSHALL. */
  predicate Spares(step: Step, k: string, e: real) {
    match step
    case Cycle(_) => true
    case Command(Request(command, args), readings) =>
      && (command == FLUSHALL ==> args != [])
      && (command in {SET, DEL, EXPIRE} && args != [] ==> args[0] != k)
      && (command == TTL && args == [k] ==> !LongOverdue(Some(e), readings(1)))
  }

  lemma RunOpsOneMore(w: Wheel, ops: seq<WheelOp>, op: WheelOp)
    requires w.WellFormed()
    ensures RunOps(w, ops + [op]) == Apply(RunOps(w, ops), op)
  {
    hide Apply;
    assert (ops + [op])[..|ops|] == ops;
  }

  lemma RunFewOps(w: Wheel, a: WheelOp, b: WheelOp, c: WheelOp)
    requires w.WellFormed()
    ensures RunOps(w, []) == w && RunOps(w, [a]) == Apply(w, a)
    ensures RunOps(w, [a, b]) == Apply(Apply(w, a), b)
    ensures RunOps(w, [a, b, c]) == Apply(Apply(Apply(w, a), b), c)
  {
    hide Apply;
    assert [] + [a] == [a] && [a] + [b] == [a, b] && [a, b] + [c] == [a, b, c];
    RunOpsOneMore(w, [], a);
    RunOpsOneMore(w, [a], b);
    RunOpsOneMore(w, [a, b], c);
  }

  lemma {:induction false} RunOpsConcat(w: Wheel, a: seq<WheelOp>, b: seq<WheelOp>)
    requires w.WellFormed()
    ensures RunOps(w, a + b) == RunOps(RunOps(w, a), b)
  {
    hide Apply;
    if b == [] {
      assert a + b == a;
    } else {
      RunOpsConcat(w, a, b[..|b| - 1]);
      assert (a + b)[..|a + b| - 1] == a + b[..|b| - 1];
    }
  }

  lemma {:induction false} GetsRunOps(s: Store, keys: seq<string>, readings: Readings)
    requires s.WellFormed()
    ensures RunOps(s.wheel, Drains(readings, |keys|)) == AfterGets(s, keys, readings).0.wheel
  {
    hide Swept;
    if keys == [] {
    } else {
      var n := |keys| - 1;
      GetsRunOps(s, keys[..n], readings);
      assert Drains(readings, |keys|) == Drains(readings, n) + [Drain(readings(n))];
      RunOpsOneMore(s.wheel, Drains(readings, n), Drain(readings(n)));
    }
  }

  lemma StepRunsOps(env: Env, s: Store, step: Step)
    requires s.WellFormed() && (step.Command? && step.request.command == FLUSHALL ==> step.request.args != [])
    ensures RunOps(s.wheel, OpsOf(env, s, step)) == Do(env, s, step).wheel
  {
    hide Swept, RunOps, Wheel.DueKeys;
    var ops := OpsOf(env, s, step);
    var pad := Drain(0.0);
    RunFewOps(s.wheel, if |ops| > 0 then ops[0] else pad, if |ops| > 1 then ops[1] else pad,
              if |ops| > 2 then ops[2] else pad);
    if step.Command? && step.request.command == MGET {
      GetsRunOps(s, step.request.args, step.readings);
    } else {
      assert |ops| == 0 ==> ops == [];
      assert |ops| == 1 ==> ops == [ops[0]];
      assert |ops| == 2 ==> ops == [ops[0], ops[1]];
      assert |ops| == 3 ==> ops == [ops[0], ops[1], ops[2]];
    }
  }

  ghost predicate DrainsFrom(ops: seq<WheelOp>, t: real) {
    forall i :: 0 <= i < |ops| && ops[i].Drain? ==> t <= ops[i].now
  }

  ghost predicate DrainsBy(ops: seq<WheelOp>, t: real) {
    forall i :: 0 <= i < |ops| && ops[i].Drain? ==> ops[i].now <= t
  }

  lemma StepDrainsInOrder(env: Env, s: Store, step: Step)
    requires s.WellFormed() && Ordered(step)
    ensures DrainsInOrder(OpsOf(env, s, step)) && DrainsFrom(OpsOf(env, s, step), Reading(step, 0))
  {
    hide Swept, Wheel.DueKeys, Store.AfterExpirations;
    if step.Command? {
      assert forall m: nat :: step.readings(m) == Reading(step, m);
    }
  }

  lemma StepDrainsBy(env: Env, s: Store, step: Step, t: real)
    requires s.WellFormed() && forall m: nat :: Reading(step, m) <= t
    ensures DrainsBy(OpsOf(env, s, step), t)
  {
    hide Swept, Wheel.DueKeys, Store.AfterExpirations;
    if step.Command? {
      assert forall m: nat :: step.readings(m) == Reading(step, m);
    } else {
      assert step.now == Reading(step, 0);
    }
  }

  lemma {:induction false} RunDrainsBy(env: Env, s: Store, steps: seq<Step>, t: real)
    requires s.WellFormed() && ReadBy(steps, t)
    ensures DrainsBy(OpsOfRun(env, s, steps), t)
  {
    if steps == [] {
    } else {
      hide OpsOf, Run, Reading;
      var front := steps[..|steps| - 1];
      assert forall i :: 0 <= i < |front| ==> front[i] == steps[i];
      RunDrainsBy(env, s, front, t);
      StepDrainsBy(env, Run(env, s, front), steps[|steps| - 1], t);
    }
  }

  lemma StepLeavesAlone(env: Env, s: Store, step: Step, k: string, e: real, origin: real)
    requires s.WellFormed() && Spares(step, k, e) && (k in s.wheel.deadlines ==> s.wheel.deadlines[k] == e)
    requires forall m: nat :: origin <= Reading(step, m)
    ensures LeaveAlone(OpsOf(env, s, step), k, origin)
  {
    hide Swept, Wheel.DueKeys;
    if step.Command? {
      assert forall m: nat :: step.readings(m) == Reading(step, m);
    }
  }

  /** A key that only time can remove is there as long as its deadline is. */
  lemma StepKeepsTimed(env: Env, s: Store, step: Step, k: string, e: real)
    requires s.WellFormed() && Spares(step, k, e)
    requires k in s.data ==> k in s.wheel.deadlines && s.wheel.deadlines[k] == e
    ensures k in Do(env, s, step).data ==> k in Do(env, s, step).wheel.deadlines
  {
    hide Swept, Wheel.DueKeys;
    if step.Command? && step.request.command == MGET {
      GetsKeepTimed(s, step.request.args, step.readings, k);
    }
  }

  lemma {:induction false} GetsKeepTimed(s: Store, keys: seq<string>, readings: Readings, k: string)
    requires s.WellFormed() && (k in s.data ==> k in s.wheel.deadlines)
    ensures k in AfterGets(s, keys, readings).0.data ==> k in AfterGets(s, keys, readings).0.wheel.deadlines
  {
    hide Swept, Wheel.DueKeys;
    if keys == [] {
    } else {
      GetsKeepTimed(s, keys[..|keys| - 1], readings, k);
    }
  }

  lemma JoinRuns(a: seq<WheelOp>, b: seq<WheelOp>, k: string, origin: real, t: real)
    requires LeaveAlone(a, k, origin) && LeaveAlone(b, k, origin) && DrainsInOrder(a) && DrainsInOrder(b)
    requires DrainsBy(a, t) && DrainsFrom(b, t)
    ensures LeaveAlone(a + b, k, origin) && DrainsInOrder(a + b)
  {
  }

  lemma NoOps(env: Env, s: Store, k: string)
    requires s.WellFormed() && k in s.wheel.deadlines
    ensures var ops := OpsOfRun(env, s, []);
            && RunOps(s.wheel, ops) == s.wheel && LeaveAlone(ops, k, s.wheel.origin.value) && DrainsInOrder(ops)
  {
  }

  /** The run of the store is a run of wheel operations that leaves `k` alone, with drains in order. */
  lemma {:induction false} RunIsOps(env: Env, s: Store, steps: seq<Step>, k: string)
    requires s.WellFormed() && k in s.wheel.deadlines && ClockInOrder(steps)
    requires forall i, m: nat :: 0 <= i < |steps| ==> s.wheel.origin.value <= Reading(steps[i], m)
    requires forall i :: 0 <= i < |steps| ==> Spares(steps[i], k, s.wheel.deadlines[k])
    ensures var ops, s' := OpsOfRun(env, s, steps), Run(env, s, steps);
            && RunOps(s.wheel, ops) == s'.wheel && LeaveAlone(ops, k, s.wheel.origin.value) && DrainsInOrder(ops)
            && (k in s'.data ==> k in s'.wheel.deadlines && s'.wheel.deadlines[k] == s.wheel.deadlines[k])
  {
    hide OpsOf, Do, RunOps, Spares, LeaveAlone, DrainsInOrder, DrainsBy, DrainsFrom, Swept, TickOf;
    var w, e := s.wheel, s.wheel.deadlines[k];
    if steps == [] {
      NoOps(env, s, k);
    } else {
      var front, step := steps[..|steps| - 1], steps[|steps| - 1];
      assert steps == front + [step];
      ClockPrefix(front, step);
      assert forall m: nat :: Reading(step, m) == Reading(steps[|front|], m);
      RunIsOps(env, s, front, k);
      var before := Run(env, s, front);
      var a, b := OpsOfRun(env, s, front), OpsOf(env, before, step);
      RunKeepsNumbering(w, a, k, 0);
      NoFlush(step, k, e);
      StepRunsOps(env, before, step);
      RunOpsConcat(w, a, b);
      StepDrainsInOrder(env, before, step);
      RunDrainsBy(env, s, front, Reading(step, 0));
      StepLeavesAlone(env, before, step, k, e, w.origin.value);
      StepKeepsTimed(env, before, step, k, e);
      JoinRuns(a, b, k, w.origin.value, Reading(step, 0));
      RunKeepsNumbering(w, a + b, k, 0);
    }
  }

  lemma NoFlush(step: Step, k: string, e: real)
    requires Spares(step, k, e)
    ensures step.Command? && step.request.command == FLUSHALL ==> step.request.args != []
  {
  }

  /** Exactly when a store still has a key past its deadline.  Under a clock in order, while no command
      touches the key, one scheduled ahead of the wheel is readable after the run if and only if no
      drain that the steps make has reached its deadline, or some drain fell in the deadline's own tick
      just before the deadline and none has yet come a full revolution after that tick. */
  lemma StoreLateExactly(env: Env, s: Store, steps: seq<Step>, k: string)
    requires s.WellFormed() && k in s.wheel.deadlines && s.wheel.last < s.wheel.TickOfKey(k) && ClockInOrder(steps)
    requires forall i, m: nat :: 0 <= i < |steps| ==> s.wheel.origin.value <= Reading(steps[i], m)
    requires forall i :: 0 <= i < |steps| ==> Spares(steps[i], k, s.wheel.deadlines[k])
    ensures k in Run(env, s, steps).data <==>
            StillThere(s.wheel, OpsOfRun(env, s, steps), s.wheel.TickOfKey(k), s.wheel.deadlines[k])
  {
    hide Run, OpsOfRun, RunOps, Spares, LeaveAlone, DrainsInOrder, StillThere, ClockInOrder, Reading, TickOf, Swept;
    RunIsOps(env, s, steps, k);
    LateExactly(s.wheel, OpsOfRun(env, s, steps), k);
  }

  // ----- from the EXPIRE on -----

  /** An EXPIRE of at least a tick schedules its key ahead of the wheel. */
  lemma ExpireSchedulesAhead(s: Store, k: string, seconds: int, now: real, then': real)
    requires s.WellFormed() && Paced(s.wheel, now) && now <= then' && seconds > 0
    requires seconds as real >= s.wheel.tickSeconds && k in s.AfterExpirations(now).data
    ensures var w := s.AfterExpire(k, seconds, now, then').0.wheel;
            k in w.deadlines && w.last < w.TickOfKey(k)
  {
    hide TickOf, Swept, Wheel.DueKeys;
    var w := s.wheel.Drained(now);
    var o, width, e := w.origin.value, w.tickSeconds, then' + seconds as real;
    var n := TickOf(o, width, now);
    DrainPaced(s.wheel, now);
    TickBounds(o, width, now);
    assert TickStart(o, width, n + 1) == TickStart(o, width, n) + width by {
      assert (n + 1) as real == n as real + 1.0;
    }
    TickAtLeast(o, width, e, n + 1);
  }

  lemma ClockSplit(a: seq<Step>, b: seq<Step>)
    requires ClockInOrder(a + b)
    ensures ClockInOrder(a) && ClockInOrder(b)
    ensures forall i, m: nat :: 0 <= i < |b| ==> ReadBy(a, Reading(b[i], m))
  {
    var all := a + b;
    assert forall i :: 0 <= i < |a| ==> a[i] == all[i];
    assert forall i :: 0 <= i < |b| ==> b[i] == all[|a| + i];
    forall i, j, m: nat, n: nat | 0 <= i < |b| && 0 <= j < |a| ensures Reading(a[j], n) <= Reading(b[i], m) {
      assert Precedes(all[j], all[|a| + i]);
    }
  }

  lemma OriginIsEarlier(env: Env, s0: Store, a: seq<Step>, b: seq<Step>)
    requires s0.WellFormed() && s0.wheel.origin.None? && ClockInOrder(a + b)
    ensures var w := Run(env, s0, a).wheel;
            w.origin.Some? ==> forall i, m: nat :: 0 <= i < |b| ==> w.origin.value <= Reading(b[i], m)
  {
    hide Run, Reading, TickOf;
    ClockSplit(a, b);
    var w := Run(env, s0, a).wheel;
    if w.origin.Some? {
      forall i, m: nat | 0 <= i < |b| ensures w.origin.value <= Reading(b[i], m) {
        RunPaced(env, s0, a, Reading(b[i], m));
      }
    }
  }

  lemma ExpireStepIsAhead(env: Env, s: Store, expire: Step, k: string)
    requires s.WellFormed() && expire.Command? && expire.request.command == EXPIRE && |expire.request.args| == 2
    requires expire.request.args[0] == k && env.parseInt(expire.request.args[1]).Some?
    requires var seconds := env.parseInt(expire.request.args[1]).value;
             seconds > 0 && seconds as real >= s.wheel.tickSeconds
    requires Paced(s.wheel, expire.readings(0)) && expire.readings(0) <= expire.readings(1)
    requires k in Do(env, s, expire).wheel.deadlines
    ensures Do(env, s, expire).wheel.last < Do(env, s, expire).wheel.TickOfKey(k)
  {
    hide TickOf, Swept, Wheel.DueKeys;
    var seconds := env.parseInt(expire.request.args[1]).value;
    assert k in s.AfterExpirations(expire.readings(0)).data;
    ExpireSchedulesAhead(s, k, seconds, expire.readings(0), expire.readings(1));
  }

  /** In particular from the EXPIRE on, in any run from a fresh wheel under a clock in order. */
  lemma ExpiredKeyLateExactly(env: Env, s0: Store, before: seq<Step>, expire: Step, steps: seq<Step>, k: string)
    requires s0.WellFormed() && s0.wheel.origin.None? && ClockInOrder(before + [expire] + steps)
    requires expire.Command? && expire.request.command == EXPIRE && |expire.request.args| == 2
    requires expire.request.args[0] == k && env.parseInt(expire.request.args[1]).Some?
    requires var seconds := env.parseInt(expire.request.args[1]).value;
             seconds > 0 && seconds as real >= Run(env, s0, before).wheel.tickSeconds
    requires k in Run(env, s0, before + [expire]).wheel.deadlines
    requires var e := Run(env, s0, before + [expire]).wheel.deadlines[k];
             forall i :: 0 <= i < |steps| ==> Spares(steps[i], k, e)
    ensures var s := Run(env, s0, before + [expire]);
            k in Run(env, s, steps).data <==>
            StillThere(s.wheel, OpsOfRun(env, s, steps), s.wheel.TickOfKey(k), s.wheel.deadlines[k])
  {
    hide Run, OpsOfRun, Spares, StillThere, TickOf, Swept, Execute, Paced;
    ClockSplit(before + [expire], steps);
    ClockPrefix(before, expire);
    assert forall m: nat :: expire.readings(m) == Reading(expire, m);
    RunPaced(env, s0, before, Reading(expire, 0));
    RunOneMore(env, s0, before, expire);
    ExpireStepIsAhead(env, Run(env, s0, before), expire, k);
    OriginIsEarlier(env, s0, before + [expire], steps);
    StoreLateExactly(env, Run(env, s0, before + [expire]), steps, k);
  }
}
