/**
 The timing wheel without its buckets: a map from keys to deadlines, the origin of the tick
 numbering, and the last tick that a drain has processed.  The class TimingWheel refines this.
 */
module WheelSpec {
  import opened Integers
  import opened Options
  import opened Ticks

  /** A drain that reaches tick `t` looks at an entry scheduled for tick `s`, with `n` buckets. */
  ghost predicate Visits(t: int, s: int, n: nat)
    requires n > 0
  {
    s <= t && t % n == s % n
  }

  /** Some tick in (last, current] looks at the entry. */
  ghost predicate Swept(last: int, current: int, s: int, n: nat)
    requires n > 0
  {
    exists t :: last < t <= current && Visits(t, s, n)
  }

  datatype Wheel = Wheel(
    tickSeconds: real,
    bucketCount: nat,
    origin: Option<real>,
    last: int,
    deadlines: map<string, real>)
  {
    ghost predicate WellFormed() {
      && tickSeconds > 0.0
      && bucketCount > 0
      && last >= -1
      && (origin.None? ==> last == -1 && deadlines == map[])
      && (forall k :: k in deadlines ==> origin.GetOr(deadlines[k]) <= deadlines[k])
    }

    /** The first timestamp the wheel ever sees becomes its origin. */
    function Tick(t: real): int
      requires tickSeconds > 0.0
    {
      TickOf(origin.GetOr(t), tickSeconds, t)
    }

    /** The tick that the entry of `k` was scheduled for. */
    function TickOfKey(k: string): int
      requires tickSeconds > 0.0 && k in deadlines
    {
      Tick(deadlines[k])
    }

    ghost predicate Due(k: string, now: real)
      requires WellFormed() && k in deadlines
    {
      deadlines[k] <= now && Swept(last, Tick(now), TickOfKey(k), bucketCount)
    }

    ghost function DueKeys(now: real): set<string>
      requires WellFormed()
    {
      set k | k in deadlines && Due(k, now)
    }

    ghost function Drained(now: real): (w: Wheel)
      requires WellFormed()
      ensures w.WellFormed()
    {
      this.(origin := Some(origin.GetOr(now)),
            last := if last < Tick(now) then Tick(now) else last,
            deadlines := deadlines - DueKeys(now))
    }

    ghost function Scheduled(k: string, deadline: real): (w: Wheel)
      requires WellFormed()
      ensures w.WellFormed()
    {
      var base := origin.GetOr(deadline);
      this.(origin := Some(if deadline < base then deadline else base),
            deadlines := deadlines[k := deadline])
    }

    ghost function Cancelled(k: string): (w: Wheel)
      ensures WellFormed() ==> w.WellFormed()
    {
      this.(deadlines := deadlines - {k})
    }

    /** No entry is a full revolution or more behind the last processed tick. */
    ghost predicate WithinRevolution()
      requires WellFormed()
    {
      forall k :: k in deadlines ==> last < TickOfKey(k) + bucketCount
    }

    /** Nothing in the wheel is later than `t` except deadlines. */
    ghost predicate NotAheadOf(t: real)
      requires WellFormed()
    {
      origin.Some? ==> origin.value <= t && last <= Tick(t)
    }
  }

  function EmptyWheel(tickSeconds: real, bucketCount: nat): Wheel {
    Wheel(tickSeconds, bucketCount, None, -1, map[])
  }

  // ----- what a drain sees -----

  lemma NextSameBucket(s: int, t: int, n: nat)
    requires n > 0 && s < t && t % n == s % n
    ensures s + n <= t
  {
    var qs, qt := s / n, t / n;
    assert s == qs * n + s % n && t == qt * n + t % n;
    ScaleInt(qt, qs, n);
    ScaleInt(qs + 1, qt, n);
  }

  lemma SameBucketNextRound(s: int, n: nat)
    requires n > 0
    ensures (s + n) % n == s % n
  {
    var x := s + n;
    var q := x / n - s / n;
    assert x == (x / n) * n + x % n && s == (s / n) * n + s % n;
    assert q * n == n + s % n - x % n;
    ScaleInt(2, q, n);
    ScaleInt(q, 0, n);
  }

  /** For an entry less than a revolution behind, a sweep either catches its own tick, or, once
      that tick has gone by, the same bucket one revolution later. */
  lemma SweptExactly(last: int, current: int, s: int, n: nat)
    requires n > 0 && last < s + n
    ensures Swept(last, current, s, n) <==> (if last < s then s else s + n) <= current
  {
    if Swept(last, current, s, n) {
      var t :| last < t <= current && Visits(t, s, n);
      if s < t {
        NextSameBucket(s, t, n);
      }
    }
    if last < s <= current {
      assert Visits(s, s, n);
    } else if s + n <= current {
      SameBucketNextRound(s, n);
      assert Visits(s + n, s, n);
    }
  }

  lemma SweptOneMore(last: int, tick: int, s: int, n: nat)
    requires n > 0 && last < tick
    ensures Swept(last, tick, s, n) <==> Swept(last, tick - 1, s, n) || Visits(tick, s, n)
  {
    if Swept(last, tick - 1, s, n) {
      var t :| last < t <= tick - 1 && Visits(t, s, n);
      assert last < t <= tick;
    }
  }

  // ----- drains: nothing early, nothing ahead of the wheel missed -----

  /** A drain removes only entries whose deadline has come, and every due entry that is scheduled
      ahead of the last processed tick. */
  lemma DrainNotEarlyAndNotMissed(w: Wheel, now: real, k: string)
    requires w.WellFormed() && k in w.deadlines
    ensures k !in w.Drained(now).deadlines ==> w.deadlines[k] <= now
    ensures w.deadlines[k] <= now && w.last < w.TickOfKey(k) ==> k !in w.Drained(now).deadlines
  {
    if w.deadlines[k] <= now && w.last < w.TickOfKey(k) {
      var s := w.TickOfKey(k);
      TickMonotone(w.origin.value, w.origin.value, w.tickSeconds, w.deadlines[k], now);
      SweptExactly(w.last, w.Tick(now), s, w.bucketCount);
    }
  }

  /** Exactly when an entry survives a drain at or after its deadline: its own tick has already
      been processed, and the drain does not reach the same bucket one revolution later. */
  lemma OverdueSurvivesExactly(w: Wheel, now: real, k: string)
    requires w.WellFormed() && k in w.deadlines
    requires w.last < w.TickOfKey(k) + w.bucketCount && w.deadlines[k] <= now
    ensures k in w.Drained(now).deadlines <==>
            w.TickOfKey(k) <= w.last && w.Tick(now) < w.TickOfKey(k) + w.bucketCount
  {
    TickMonotone(w.origin.value, w.origin.value, w.tickSeconds, w.deadlines[k], now);
    SweptExactly(w.last, w.Tick(now), w.TickOfKey(k), w.bucketCount);
  }

  // ----- staleness -----

  lemma DrainKeepsWithinRevolution(w: Wheel, now: real)
    requires w.WellFormed() && w.WithinRevolution()
    ensures w.Drained(now).WellFormed() && w.Drained(now).WithinRevolution()
  {
    var w' := w.Drained(now);
    forall k | k in w'.deadlines
      ensures w'.last < w'.TickOfKey(k) + w'.bucketCount
    {
      if w.deadlines[k] <= now {
        OverdueSurvivesExactly(w, now, k);
      } else {
        TickMonotone(w.origin.value, w.origin.value, w.tickSeconds, now, w.deadlines[k]);
      }
    }
  }

  /** Scheduling keeps the bound exactly when the new entry is not already a revolution behind;
      moving the origin back never hurts the other entries. */
  lemma ScheduleKeepsWithinRevolution(w: Wheel, k: string, deadline: real)
    requires w.WellFormed() && w.WithinRevolution()
    ensures w.Scheduled(k, deadline).WellFormed()
    ensures w.Scheduled(k, deadline).WithinRevolution() <==>
            w.last < w.Scheduled(k, deadline).Tick(deadline) + w.bucketCount
  {
    var w' := w.Scheduled(k, deadline);
    forall j | j in w'.deadlines && j != k
      ensures w'.last < w'.TickOfKey(j) + w'.bucketCount
    {
      assert j in w.deadlines;
      TickMonotone(w.origin.value, w'.origin.value, w.tickSeconds, w.deadlines[j], w.deadlines[j]);
    }
    assert k in w'.deadlines && w'.TickOfKey(k) == w'.Tick(deadline);
  }

  /** Whatever has survived a drain at `now` is overdue by strictly less than one revolution. */
  lemma OverdueLessThanRevolution(w: Wheel, now: real, k: string)
    requires w.WellFormed() && w.WithinRevolution()
    requires k in w.Drained(now).deadlines
    ensures now - w.deadlines[k] < w.bucketCount as real * w.tickSeconds
  {
    hide TickOf, Swept;
    var o, s := w.origin.value, w.TickOfKey(k);
    DrainKeepsWithinRevolution(w, now);
    assert w.Tick(now) < s + w.bucketCount;
    TickBounds(o, w.tickSeconds, w.deadlines[k]);
    TickAtLeast(o, w.tickSeconds, now, s + w.bucketCount);
    assert (s + w.bucketCount) as real == s as real + w.bucketCount as real;
    assert TickStart(o, w.tickSeconds, s + w.bucketCount)
        == TickStart(o, w.tickSeconds, s) + w.bucketCount as real * w.tickSeconds;
  }

  /** The first timestamp that a wheel sees, of a drain or of a deadline, is the start of tick zero. */
  lemma FirstTimestampStartsTicks(w: Wheel, k: string, t: real)
    requires w.WellFormed() && w.origin.None?
    ensures w.Drained(t).Tick(t) == 0 == w.Drained(t).last
    ensures w.Scheduled(k, t).Tick(t) == 0 == w.Scheduled(k, t).TickOfKey(k)
    ensures TickStart(w.Drained(t).origin.value, w.tickSeconds, 0)
         == TickStart(w.Scheduled(k, t).origin.value, w.tickSeconds, 0) == t
  {
    TickOfStart(t, w.tickSeconds, 0);
  }

  // ----- moving the origin back -----

  /** Rebasing on an earlier deadline keeps every other deadline and the last processed tick
      number, makes all tick numbers non-negative, and never moves an entry that was ahead of the
      last processed tick to behind it. */
  lemma RebaseIsSafe(w: Wheel, k: string, deadline: real, j: string)
    requires w.WellFormed() && w.origin.Some? && deadline < w.origin.value
    requires j in w.deadlines && j != k
    ensures var w' := w.Scheduled(k, deadline);
            && w'.WellFormed() && w'.last == w.last
            && w'.Tick(deadline) == 0
            && w'.deadlines[j] == w.deadlines[j]
            && 0 <= w.TickOfKey(j) <= w'.TickOfKey(j)
            && (w.last < w.TickOfKey(j) ==> w'.last < w'.TickOfKey(j))
  {
    var w' := w.Scheduled(k, deadline);
    TickIs(deadline, w.tickSeconds, deadline, 0);
    TickAtLeast(w.origin.value, w.tickSeconds, w.deadlines[j], 0);
    TickMonotone(w.origin.value, deadline, w.tickSeconds, w.deadlines[j], w.deadlines[j]);
  }
}
