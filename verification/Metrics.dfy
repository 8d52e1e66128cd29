/** Command counters and the latency histogram: src/metrics.py. */
module Metrics {
  import opened Types
  import opened CountMin
  import opened Heap
  import opened HeavyHitters
  import opened TopK

  const LATENCY_BUCKETS: seq<real> := [0.001, 0.005, 0.01, 0.05, 0.1, 0.5, 1.0, 5.0]

  const COMMANDS: seq<CommandName> := [PING, SET, GET, DEL, EXPIRE, TTL, MGET, KEYS, FLUSHALL]

  datatype Observation = Observation(command: CommandName, seconds: real)

  function CountIf(observed: seq<Observation>, p: Observation -> bool): nat {
    if observed == [] then 0
    else CountIf(observed[..|observed| - 1], p) + if p(observed[|observed| - 1]) then 1 else 0
  }

  function OfCommand(command: CommandName): Observation -> bool {
    (o: Observation) => o.command == command
  }

  /** Observations of the command that take at most the i-th bound. */
  function Within(command: CommandName, i: nat): Observation -> bool
    requires i < |LATENCY_BUCKETS|
  {
    (o: Observation) => o.command == command && o.seconds <= LATENCY_BUCKETS[i]
  }

  /** Observations of the command whose first bound is the i-th. */
  function FirstWithin(command: CommandName, i: nat): Observation -> bool
    requires i < |LATENCY_BUCKETS|
  {
    (o: Observation) => o.command == command && o.seconds <= LATENCY_BUCKETS[i]
                        && (i == 0 || LATENCY_BUCKETS[i - 1] < o.seconds)
  }

  lemma CountIfOneMore(observed: seq<Observation>, o: Observation, p: Observation -> bool)
    ensures CountIf(observed + [o], p) == CountIf(observed, p) + if p(o) then 1 else 0
  {
    assert (observed + [o])[..|observed|] == observed;
  }

  lemma {:induction false} CountIfSplits(observed: seq<Observation>, p: Observation -> bool,
          q: Observation -> bool, r: Observation -> bool)
    requires forall o :: p(o) == (q(o) || r(o)) && !(q(o) && r(o))
    ensures CountIf(observed, p) == CountIf(observed, q) + CountIf(observed, r)
  {
    if observed == [] {
    } else {
      CountIfSplits(observed[..|observed| - 1], p, q, r);
      assert p(observed[|observed| - 1]) == (q(observed[|observed| - 1]) || r(observed[|observed| - 1]));
    }
  }

  lemma {:induction false} CountIfMonotone(observed: seq<Observation>, p: Observation -> bool, q: Observation -> bool)
    requires forall o :: p(o) ==> q(o)
    ensures CountIf(observed, p) <= CountIf(observed, q)
  {
    if observed == [] {
    } else {
      CountIfMonotone(observed[..|observed| - 1], p, q);
    }
  }

  /** What the histogram shows is consistent: cumulative counts never decrease from bound to bound
      and never exceed the +Inf count. */
  lemma CumulativeNeverDecreases(observed: seq<Observation>, command: CommandName, i: nat, j: nat)
    requires i <= j < |LATENCY_BUCKETS|
    ensures CountIf(observed, Within(command, i)) <= CountIf(observed, Within(command, j))
    ensures CountIf(observed, Within(command, j)) <= CountIf(observed, OfCommand(command))
  {
    CountIfMonotone(observed, Within(command, i), Within(command, j));
    CountIfMonotone(observed, Within(command, j), OfCommand(command));
  }

  /** The observations of a command. */
  ghost function Observed(observed: seq<Observation>, command: CommandName): set<nat> {
    set n: nat | n < |observed| && observed[n].command == command
  }

  /** Those that took at most `bound` seconds. */
  ghost function ObservedWithin(observed: seq<Observation>, command: CommandName, bound: real): set<nat> {
    set n: nat | n < |observed| && observed[n].command == command && observed[n].seconds <= bound
  }

  ghost function Positions(observed: seq<Observation>, p: Observation -> bool): set<nat> {
    set n: nat | n < |observed| && p(observed[n])
  }

  lemma {:induction false} CountIfIsPositions(observed: seq<Observation>, p: Observation -> bool)
    ensures CountIf(observed, p) == |Positions(observed, p)|
  {
    if observed == [] {
      assert Positions(observed, p) == {};
    } else {
      var n := |observed| - 1;
      var front := Positions(observed[..n], p);
      CountIfIsPositions(observed[..n], p);
      if p(observed[n]) {
        assert Positions(observed, p) == front + {n} && n !in front;
      } else {
        assert Positions(observed, p) == front;
      }
    }
  }

  lemma CountsAreObserved(observed: seq<Observation>, command: CommandName)
    ensures CountIf(observed, OfCommand(command)) == |Observed(observed, command)|
  {
    hide CountIf;
    CountIfIsPositions(observed, OfCommand(command));
    assert Positions(observed, OfCommand(command)) == Observed(observed, command);
  }

  lemma CountsAreObservedWithin(observed: seq<Observation>, command: CommandName, i: nat)
    requires i < |LATENCY_BUCKETS|
    ensures CountIf(observed, Within(command, i)) == |ObservedWithin(observed, command, LATENCY_BUCKETS[i])|
  {
    hide CountIf;
    CountIfIsPositions(observed, Within(command, i));
    assert Positions(observed, Within(command, i)) == ObservedWithin(observed, command, LATENCY_BUCKETS[i]);
  }

  /** Eight bounds, from a millisecond to five seconds, each above the one before. */
  lemma BoundsAscend()
    ensures |LATENCY_BUCKETS| == 8 && LATENCY_BUCKETS[0] == 0.001 && LATENCY_BUCKETS[7] == 5.0
    ensures forall i, j :: 0 <= i < j < |LATENCY_BUCKETS| ==> LATENCY_BUCKETS[i] < LATENCY_BUCKETS[j]
  {
    assert LATENCY_BUCKETS[1] == 0.005 && LATENCY_BUCKETS[2] == 0.01 && LATENCY_BUCKETS[3] == 0.05;
    assert LATENCY_BUCKETS[4] == 0.1 && LATENCY_BUCKETS[5] == 0.5 && LATENCY_BUCKETS[6] == 1.0;
  }

  function Total(observed: seq<Observation>, commands: seq<CommandName>): nat {
    if commands == [] then 0
    else Total(observed, commands[..|commands| - 1]) + CountIf(observed, OfCommand(commands[|commands| - 1]))
  }

  lemma {:induction false} TotalOneMore(observed: seq<Observation>, o: Observation, commands: seq<CommandName>)
    requires forall i, j :: 0 <= i < j < |commands| ==> commands[i] != commands[j]
    ensures Total(observed + [o], commands) == Total(observed, commands) + if o.command in commands then 1 else 0
  {
    if commands == [] {
    } else {
      var front, last := commands[..|commands| - 1], commands[|commands| - 1];
      TotalOneMore(observed, o, front);
      CountIfOneMore(observed, o, OfCommand(last));
      assert commands == front + [last];
    }
  }

  lemma {:induction false} NothingTotals(commands: seq<CommandName>)
    ensures Total([], commands) == 0
  {
    if commands == [] {
    } else {
      NothingTotals(commands[..|commands| - 1]);
    }
  }

  /** The per-command totals add up to the overall total. */
  lemma {:induction false} CommandTotalsAddUp(observed: seq<Observation>)
    ensures Total(observed, COMMANDS) == |observed|
  {
    if observed == [] {
      NothingTotals(COMMANDS);
    } else {
      var front, o := observed[..|observed| - 1], observed[|observed| - 1];
      CommandTotalsAddUp(front);
      TotalOneMore(front, o, COMMANDS);
      assert observed == front + [o];
      assert o.command in COMMANDS by {
        assert COMMANDS[0] == PING && COMMANDS[1] == SET && COMMANDS[2] == GET && COMMANDS[3] == DEL;
        assert COMMANDS[4] == EXPIRE && COMMANDS[5] == TTL && COMMANDS[6] == MGET && COMMANDS[7] == KEYS;
        assert COMMANDS[8] == FLUSHALL;
      }
    }
  }

  /** A missing counter reads as zero. */
  function At<K>(counter: map<K, nat>, key: K): nat {
    if key in counter then counter[key] else 0
  }

  class MetricsCollector {
    var throughputTotal: nat
    var throughputByCommand: map<CommandName, nat>
    var latencyCountByCommand: map<CommandName, nat>
    var latencyBucketCounts: map<CommandName, map<real, nat>>
    const hotKeyTracker: TopKTracker
    ghost var observed: seq<Observation>

    function BucketCounts(command: CommandName): map<real, nat>
      reads this
    {
      if command in latencyBucketCounts then latencyBucketCounts[command] else map[]
    }

    ghost predicate Valid()
      reads this, hotKeyTracker, hotKeyTracker.sketch, hotKeyTracker.sketch.table
    {
      hotKeyTracker.Valid() && CountersValid()
    }

    /** Each counter is a count of observations. */
    ghost predicate CountersValid()
      reads this
    {
      && throughputTotal == |observed|
      && (forall command :: At(throughputByCommand, command) == CountIf(observed, OfCommand(command)))
      && (forall command :: At(latencyCountByCommand, command) == CountIf(observed, OfCommand(command)))
      && forall command, i :: 0 <= i < |LATENCY_BUCKETS| ==>
           At(BucketCounts(command), LATENCY_BUCKETS[i]) == CountIf(observed, FirstWithin(command, i))
    }

    constructor (hash: (string, nat) -> nat)
      ensures Valid() && observed == [] && hotKeyTracker.tracked == map[]
      ensures hotKeyTracker.k == 100 && hotKeyTracker.sketch.config == SketchConfig(2048, 4, hash)
    {
      throughputTotal := 0;
      throughputByCommand, latencyCountByCommand, latencyBucketCounts := map[], map[], map[];
      hotKeyTracker := new TopKTracker(100, SketchConfig(2048, 4, hash));
      observed := [];
    }

    method ObserveCommand(request: Request, seconds: real)
      requires Valid()
      modifies this, hotKeyTracker, hotKeyTracker.sketch, hotKeyTracker.sketch.table
      ensures Valid() && observed == old(observed) + [Observation(request.command, seconds)]
      ensures hotKeyTracker.sketch.history ==
              old(hotKeyTracker.sketch.history) + if request.args != [] then [request.args[0]] else []
    {
      CountObservation(request.command, seconds);
      if request.args != [] {
        hotKeyTracker.Record(request.args[0]);
      }
    }

    method CountObservation(command: CommandName, seconds: real)
      requires CountersValid()
      modifies this
      ensures CountersValid() && observed == old(observed) + [Observation(command, seconds)]
    {
      hide CountIf;
      ghost var o := Observation(command, seconds);
      forall c
        ensures CountIf(observed + [o], OfCommand(c)) == CountIf(observed, OfCommand(c)) + if c == command then 1 else 0
      {
        CountIfOneMore(observed, o, OfCommand(c));
      }
      forall c, i | 0 <= i < |LATENCY_BUCKETS|
        ensures CountIf(observed + [o], FirstWithin(c, i))
             == CountIf(observed, FirstWithin(c, i)) + if FirstWithin(c, i)(o) then 1 else 0
      {
        CountIfOneMore(observed, o, FirstWithin(c, i));
      }
      throughputTotal := throughputTotal + 1;
      throughputByCommand := throughputByCommand[command := At(throughputByCommand, command) + 1];
      latencyCountByCommand := latencyCountByCommand[command := At(latencyCountByCommand, command) + 1];
      ObserveLatencyBucket(command, seconds);
      observed := observed + [o];
    }

    /** Counts the first bound that the duration meets, if any. */
    method ObserveLatencyBucket(command: CommandName, seconds: real)
      modifies `latencyBucketCounts
      ensures forall other, i :: 0 <= i < |LATENCY_BUCKETS| ==>
                At(BucketCounts(other), LATENCY_BUCKETS[i]) ==
                At(old(BucketCounts(other)), LATENCY_BUCKETS[i])
                + if FirstWithin(other, i)(Observation(command, seconds)) then 1 else 0
    {
      if command !in latencyBucketCounts {
        latencyBucketCounts := latencyBucketCounts[command := map[]];
      }
      for n := 0 to |LATENCY_BUCKETS|
        invariant forall i :: 0 <= i < n ==> LATENCY_BUCKETS[i] < seconds
        invariant command in latencyBucketCounts
        invariant forall other :: BucketCounts(other) == old(BucketCounts(other))
      {
        var bound := LATENCY_BUCKETS[n];
        if seconds <= bound {
          var counts := latencyBucketCounts[command];
          latencyBucketCounts := latencyBucketCounts[command := counts[bound := At(counts, bound) + 1]];
          return;
        }
      }
    }

    /** The histogram lines of one command: for each bound, exactly the observations within it, and
        for +Inf all of them. */
    method RenderHistogram(command: CommandName) returns (cumulative: seq<nat>, total: nat)
      requires Valid()
      ensures |cumulative| == |LATENCY_BUCKETS|
      ensures forall i :: 0 <= i < |cumulative| ==> cumulative[i] == CountIf(observed, Within(command, i))
      ensures forall i :: 0 <= i < |cumulative| ==>
                cumulative[i] == |ObservedWithin(observed, command, LATENCY_BUCKETS[i])|
      ensures total == CountIf(observed, OfCommand(command)) == |Observed(observed, command)|
    {
      hide CountIf, HeapTracks, Tracked, Mass, IsHeap;
      cumulative := [];
      var sum := 0;
      for n := 0 to |LATENCY_BUCKETS|
        invariant |cumulative| == n
        invariant forall i :: 0 <= i < n ==> cumulative[i] == CountIf(observed, Within(command, i))
        invariant sum == if n == 0 then 0 else CountIf(observed, Within(command, n - 1))
      {
        sum := sum + At(BucketCounts(command), LATENCY_BUCKETS[n]);
        if n > 0 {
          CountIfSplits(observed, Within(command, n), Within(command, n - 1), FirstWithin(command, n));
        } else {
          CountIfMonotone(observed, Within(command, 0), FirstWithin(command, 0));
          CountIfMonotone(observed, FirstWithin(command, 0), Within(command, 0));
        }
        cumulative := cumulative + [sum];
      }
      total := At(latencyCountByCommand, command);
      CountsAreObserved(observed, command);
      forall i | 0 <= i < |cumulative|
        ensures CountIf(observed, Within(command, i)) == |ObservedWithin(observed, command, LATENCY_BUCKETS[i])|
      {
        CountsAreObservedWithin(observed, command, i);
      }
    }
  }
}
