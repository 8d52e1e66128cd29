/** What a whole run of wheel operations does to one scheduled entry. */
module WheelRuns {
  import opened Ticks
  import opened WheelSpec

  datatype WheelOp =
    | Schedule(key: string, deadline: real)
    | Cancel(key: string)
    | Drain(now: real)

  ghost function Apply(w: Wheel, op: WheelOp): (w': Wheel)
    requires w.WellFormed()
    ensures w'.WellFormed()
  {
    match op
    case Schedule(k, deadline) => w.Scheduled(k, deadline)
    case Cancel(k) => w.Cancelled(k)
    case Drain(now) => w.Drained(now)
  }

  ghost function RunOps(w: Wheel, ops: seq<WheelOp>): (w': Wheel)
    requires w.WellFormed()
    ensures w'.WellFormed()
  {
    if ops == [] then w else Apply(RunOps(w, ops[..|ops| - 1]), ops[|ops| - 1])
  }

  /** The operations schedule and cancel other keys only, and never move the origin back. */
  ghost predicate LeaveAlone(ops: seq<WheelOp>, k: string, origin: real) {
    forall i :: 0 <= i < |ops| ==>
      match ops[i]
      case Schedule(j, deadline) => j != k && origin <= deadline
      case Cancel(j) => j != k
      case Drain(_) => true
  }

  ghost predicate DrainsBefore(ops: seq<WheelOp>, t: real) {
    forall i :: 0 <= i < |ops| && ops[i].Drain? ==> ops[i].now < t
  }

  ghost predicate DrainsInOrder(ops: seq<WheelOp>) {
    forall i, j :: 0 <= i < j < |ops| && ops[i].Drain? && ops[j].Drain? ==> ops[i].now <= ops[j].now
  }

  /** Every drain falls in a tick before `n`. */
  ghost predicate DrainTicksBefore(w: Wheel, ops: seq<WheelOp>, n: int)
    requires w.tickSeconds > 0.0
  {
    forall i :: 0 <= i < |ops| && ops[i].Drain? ==> w.Tick(ops[i].now) < n
  }

  /** Some drain falls in tick `s` at a time before `t`. */
  ghost predicate DrainedInTickBefore(w: Wheel, ops: seq<WheelOp>, s: int, t: real)
    requires w.tickSeconds > 0.0
  {
    exists i :: 0 <= i < |ops| && ops[i].Drain? && ops[i].now < t && w.Tick(ops[i].now) == s
  }

  /** While `k` is left alone the origin stays, and the last processed tick is the latest one
      that a drain has fallen in. */
  lemma {:induction false} RunKeepsNumbering(w: Wheel, ops: seq<WheelOp>, k: string, n: int)
    requires w.WellFormed() && k in w.deadlines && LeaveAlone(ops, k, w.origin.value)
    ensures var w' := RunOps(w, ops);
            && w'.origin == w.origin && w'.tickSeconds == w.tickSeconds
            && w'.bucketCount == w.bucketCount
            && (k in w'.deadlines ==> w'.deadlines[k] == w.deadlines[k])
            && (w'.last < n <==> w.last < n && DrainTicksBefore(w, ops, n))
  {
    if ops == [] {
    } else {
      var front, op := ops[..|ops| - 1], ops[|ops| - 1];
      RunKeepsNumbering(w, front, k, n);
      SplitLast(w, ops, n, 0.0);
      assert op.Drain? ==> RunOps(w, front).Tick(op.now) == w.Tick(op.now);
    }
  }

  /** An entry scheduled ahead of the wheel whose deadline is a whole number of ticks from the
      origin leaves with the first drain at or after the deadline, whatever came before. */
  lemma {:induction false} AlignedDeadlineNeverLate(w: Wheel, ops: seq<WheelOp>, k: string)
    requires w.WellFormed() && k in w.deadlines && LeaveAlone(ops, k, w.origin.value)
    requires w.last < w.TickOfKey(k)
    requires w.deadlines[k] == TickStart(w.origin.value, w.tickSeconds, w.TickOfKey(k))
    ensures k in RunOps(w, ops).deadlines <==> DrainsBefore(ops, w.deadlines[k])
  {
    if ops == [] {
    } else {
      var front, op := ops[..|ops| - 1], ops[|ops| - 1];
      var mid, s := RunOps(w, front), w.TickOfKey(k);
      AlignedDeadlineNeverLate(w, front, k);
      RunKeepsNumbering(w, front, k, s);
      SplitLast(w, ops, s, w.deadlines[k]);
      if k in mid.deadlines {
        forall i | 0 <= i < |front| && front[i].Drain? ensures w.Tick(front[i].now) < s {
          TickAtLeast(w.origin.value, w.tickSeconds, front[i].now, s);
        }
        if op.Drain? {
          DrainNotEarlyAndNotMissed(mid, op.now, k);
        }
      }
    }
  }

  /** No drain has reached the deadline `e`, or some drain fell in the deadline's own tick `s`
      before the deadline and no drain has yet come a full revolution after that tick. */
  ghost predicate StillThere(w: Wheel, ops: seq<WheelOp>, s: int, e: real)
    requires w.WellFormed()
  {
    || DrainsBefore(ops, e)
    || (DrainedInTickBefore(w, ops, s, e) && DrainTicksBefore(w, ops, s + w.bucketCount))
  }

  /** Exactly when an entry outlives its deadline.  With drains at non-decreasing times, an entry
      scheduled ahead of the wheel is still there after the run if and only if no drain has
      reached its deadline, or some drain fell in the deadline's own tick just before the deadline
      and no drain has yet come a full revolution after that tick. */
  lemma {:induction false} LateExactly(w: Wheel, ops: seq<WheelOp>, k: string)
    requires w.WellFormed() && k in w.deadlines && LeaveAlone(ops, k, w.origin.value)
    requires w.last < w.TickOfKey(k) && DrainsInOrder(ops)
    ensures k in RunOps(w, ops).deadlines <==> StillThere(w, ops, w.TickOfKey(k), w.deadlines[k])
  {
    if ops == [] {
    } else {
      var front, op := ops[..|ops| - 1], ops[|ops| - 1];
      LateExactly(w, front, k);
      if op.Drain? {
        LateStep(w, front, op.now, k);
      }
      SplitLast(w, ops, w.TickOfKey(k) + w.bucketCount, w.deadlines[k]);
      DrainedInTickSplit(w, ops, w.TickOfKey(k), w.deadlines[k]);
    }
  }

  lemma LateStep(w: Wheel, front: seq<WheelOp>, now: real, k: string)
    requires w.WellFormed() && k in w.deadlines && LeaveAlone(front, k, w.origin.value)
    requires w.last < w.TickOfKey(k)
    requires forall i :: 0 <= i < |front| && front[i].Drain? ==> front[i].now <= now
    requires k in RunOps(w, front).deadlines <==> StillThere(w, front, w.TickOfKey(k), w.deadlines[k])
    ensures var s, e := w.TickOfKey(k), w.deadlines[k];
            k in RunOps(w, front).Drained(now).deadlines <==>
            || (DrainsBefore(front, e) && now < e)
            || (DrainedInTickBefore(w, front, s, e) && DrainTicksBefore(w, front, s + w.bucketCount)
                && w.Tick(now) < s + w.bucketCount)
            || (now < e && w.Tick(now) == s && DrainTicksBefore(w, front, s + w.bucketCount))
  {
    var s, e, n, mid := w.TickOfKey(k), w.deadlines[k], w.bucketCount, RunOps(w, front);
    RunKeepsNumbering(w, front, k, s);
    RunKeepsNumbering(w, front, k, s + n);
    DrainBeforeDeadlineTicks(w, front, k);
    TickOrder(w, now, e);
    if k in mid.deadlines {
      if e <= now {
        OverdueSurvivesExactly(mid, now, k);
        if DrainedInTickBefore(w, front, s, e) {
          assert !DrainTicksBefore(w, front, s);
        }
      } else {
        DrainNotEarlyAndNotMissed(mid, now, k);
        assert DrainsBefore(front, e);
      }
    }
  }

  lemma SplitLast(w: Wheel, ops: seq<WheelOp>, n: int, t: real)
    requires w.WellFormed() && ops != []
    ensures var front, op := ops[..|ops| - 1], ops[|ops| - 1];
            && (DrainTicksBefore(w, ops, n) <==>
                DrainTicksBefore(w, front, n) && (op.Drain? ==> w.Tick(op.now) < n))
            && (DrainsBefore(ops, t) <==> DrainsBefore(front, t) && (op.Drain? ==> op.now < t))
  {
    assert forall i :: 0 <= i < |ops| - 1 ==> ops[..|ops| - 1][i] == ops[i];
  }

  lemma TickOrder(w: Wheel, t: real, t': real)
    requires w.WellFormed() && w.origin.Some?
    ensures t <= t' ==> w.Tick(t) <= w.Tick(t')
    ensures t' <= t ==> w.Tick(t') <= w.Tick(t)
  {
    if t <= t' {
      TickMonotone(w.origin.value, w.origin.value, w.tickSeconds, t, t');
    } else {
      TickMonotone(w.origin.value, w.origin.value, w.tickSeconds, t', t);
    }
  }

  lemma DrainedInTickSplit(w: Wheel, ops: seq<WheelOp>, s: int, t: real)
    requires w.WellFormed() && ops != []
    ensures var front, op := ops[..|ops| - 1], ops[|ops| - 1];
            DrainedInTickBefore(w, ops, s, t) <==>
            || DrainedInTickBefore(w, front, s, t)
            || (op.Drain? && op.now < t && w.Tick(op.now) == s)
  {
    var front, op := ops[..|ops| - 1], ops[|ops| - 1];
    if DrainedInTickBefore(w, front, s, t) {
      var i :| 0 <= i < |front| && front[i].Drain? && front[i].now < t && w.Tick(front[i].now) == s;
      assert ops[i] == front[i];
    }
    if DrainedInTickBefore(w, ops, s, t) {
      var i :| 0 <= i < |ops| && ops[i].Drain? && ops[i].now < t && w.Tick(ops[i].now) == s;
      assert i < |front| ==> ops[i] == front[i];
    }
  }

  /** Drains before the deadline of `k` fall in its tick or earlier; if none fell in its tick,
      all fell earlier. */
  lemma DrainBeforeDeadlineTicks(w: Wheel, ops: seq<WheelOp>, k: string)
    requires w.WellFormed() && k in w.deadlines
    ensures DrainsBefore(ops, w.deadlines[k]) ==>
      && DrainTicksBefore(w, ops, w.TickOfKey(k) + 1)
      && DrainTicksBefore(w, ops, w.TickOfKey(k) + w.bucketCount)
      && (DrainedInTickBefore(w, ops, w.TickOfKey(k), w.deadlines[k])
          || DrainTicksBefore(w, ops, w.TickOfKey(k)))
  {
    if DrainsBefore(ops, w.deadlines[k]) {
      forall i | 0 <= i < |ops| && ops[i].Drain? ensures w.Tick(ops[i].now) <= w.TickOfKey(k) {
        TickOrder(w, ops[i].now, w.deadlines[k]);
      }
    }
  }
}
