/** A run that a sharded and an unsharded server answer differently. */
module ShardingLimits {
  import opened Options
  import opened Types
  import opened Ticks
  import opened WheelSpec
  import opened StoreSpec
  import opened Sharding

  function DefaultStore(last: int, deadlines: map<string, real>): Store {
    Store(map["a" := "v"], Wheel(DEFAULT_TICK_SECONDS, DEFAULT_BUCKET_COUNT, Some(0.0), last, deadlines))
  }

  lemma DefaultTicks()
    ensures TickOf(0.0, DEFAULT_TICK_SECONDS, 0.0) == TickOf(0.0, DEFAULT_TICK_SECONDS, 0.05) == 0
    ensures TickOf(0.0, DEFAULT_TICK_SECONDS, 1.0) == TickOf(0.0, DEFAULT_TICK_SECONDS, 1.05) == 10
    ensures TickOf(0.0, DEFAULT_TICK_SECONDS, 2.0) == 20
  {
    TickIs(0.0, DEFAULT_TICK_SECONDS, 0.0, 0);
    TickIs(0.0, DEFAULT_TICK_SECONDS, 0.05, 0);
    TickIs(0.0, DEFAULT_TICK_SECONDS, 1.0, 10);
    TickIs(0.0, DEFAULT_TICK_SECONDS, 1.05, 10);
    TickIs(0.0, DEFAULT_TICK_SECONDS, 2.0, 20);
  }

  /** A drain that reaches no deadline only moves the last processed tick. */
  lemma EarlyDrain(last: nat, deadlines: map<string, real>, now: real)
    requires deadlines.Keys <= {"a"} && forall k :: k in deadlines ==> 0.0 <= now < deadlines[k]
    requires last <= TickOf(0.0, DEFAULT_TICK_SECONDS, now)
    ensures DefaultStore(last, deadlines).WellFormed()
    ensures DefaultStore(last, deadlines).AfterExpirations(now)
         == DefaultStore(TickOf(0.0, DEFAULT_TICK_SECONDS, now), deadlines)
  {
    hide TickOf, Swept;
    assert DefaultStore(last, deadlines).wheel.DueKeys(now) == {};
  }

  /** A drain after the deadline: a store that has processed the deadline's own tick still has the
      key, a store that has not removes it. */
  lemma OverdueDrain(last: nat, deadlines: map<string, real>)
    requires last in {0, 10, 20} && deadlines == map["a" := 1.05]
    ensures DefaultStore(last, deadlines).WellFormed()
    ensures var s := DefaultStore(last, deadlines).AfterExpirations(2.0);
            if last >= 10 then s == DefaultStore(20, deadlines) else s.data == map[]
  {
    hide Swept;
    DefaultTicks();
    hide TickOf;
    var w := DefaultStore(last, deadlines).wheel;
    OverdueSurvivesExactly(w, 2.0, "a");
    assert "a" in w.DueKeys(2.0) <==> last < 10;
    assert last >= 10 ==> w.DueKeys(2.0) == {};
  }

  lemma OneRunOneMore(env: Env, s: Store, calls: seq<Call>, call: Call)
    requires s.WellFormed()
    ensures OneRun(env, s, calls + [call]).0 == WorkerExecute(env, OneRun(env, s, calls).0, call).0
    ensures OneRun(env, s, calls + [call]).1
         == OneRun(env, s, calls).1 + [WorkerExecute(env, OneRun(env, s, calls).0, call).1]
  {
    hide WorkerExecute;
    assert (calls + [call])[..|calls|] == calls;
  }

  lemma WitnessPrefix(env: Env, set0: Call, expire: Call)
    requires set0.request == Request(SET, ["a", "v"]) && set0.readings(0) == set0.readings(1) == 0.0
    requires expire.request.command == EXPIRE && |expire.request.args| == 2 && expire.request.args[0] == "a"
    requires env.parseInt(expire.request.args[1]) == Some(1)
    requires expire.readings(0) == expire.readings(1) == expire.readings(2) == 0.05
    ensures OneRun(env, EmptyStore(), [set0, expire]).0 == DefaultStore(0, map["a" := 1.05])
  {
    hide TickOf, Swept, OneRun, WorkerExecute;
    NoCalls(env, EmptyStore());
    OneRunOneMore(env, EmptyStore(), [], set0);
    OneRunOneMore(env, EmptyStore(), [set0], expire);
    assert [] + [set0] == [set0] && [set0] + [expire] == [set0, expire];
    WitnessSet(env, set0);
    WitnessExpire(env, expire);
  }

  lemma NoCalls(env: Env, s: Store)
    requires s.WellFormed()
    ensures OneRun(env, s, []).0 == s
  {
  }

  lemma WitnessSet(env: Env, set0: Call)
    requires set0.request == Request(SET, ["a", "v"]) && set0.readings(0) == set0.readings(1) == 0.0
    ensures WorkerExecute(env, EmptyStore(), set0).0 == DefaultStore(0, map[])
  {
    DefaultTicks();
    hide TickOf, Swept;
    var s := EmptyStore().AfterExpirations(0.0);
    assert s == Store(map[], DefaultStore(0, map[]).wheel) && s.AfterExpirations(0.0) == s;
  }

  lemma WitnessExpire(env: Env, expire: Call)
    requires expire.request.command == EXPIRE && |expire.request.args| == 2 && expire.request.args[0] == "a"
    requires env.parseInt(expire.request.args[1]) == Some(1)
    requires expire.readings(0) == expire.readings(1) == expire.readings(2) == 0.05
    ensures DefaultStore(0, map[]).WellFormed()
    ensures WorkerExecute(env, DefaultStore(0, map[]), expire).0 == DefaultStore(0, map["a" := 1.05])
  {
    DefaultTicks();
    hide TickOf, Swept;
    EarlyDrain(0, map[], 0.05);
    assert (map[])["a" := 1.05] == map["a" := 1.05];
  }

  lemma WitnessOtherKey(env: Env, other: Call)
    requires other.request == Request(GET, ["b"]) && other.readings(0) == other.readings(1) == 1.0
    ensures DefaultStore(0, map["a" := 1.05]).WellFormed()
    ensures WorkerExecute(env, DefaultStore(0, map["a" := 1.05]), other).0 == DefaultStore(10, map["a" := 1.05])
  {
    DefaultTicks();
    hide TickOf, Swept;
    EarlyDrain(0, map["a" := 1.05], 1.0);
    EarlyDrain(10, map["a" := 1.05], 1.0);
  }

  lemma WitnessRead(env: Env, last: nat, read: Call)
    requires last in {0, 10} && read.request == Request(GET, ["a"]) && read.readings(0) == read.readings(1) == 2.0
    ensures DefaultStore(last, map["a" := 1.05]).WellFormed()
    ensures WorkerExecute(env, DefaultStore(last, map["a" := 1.05]), read).1 == if last == 10 then Bulk("v") else Null
  {
    hide TickOf, Swept;
    OverdueDrain(last, map["a" := 1.05]);
    OverdueDrain(20, map["a" := 1.05]);
  }

  /** With a deadline falling due the refinement can fail: a command on another key drains the one
      store in the deadline's own tick, and so keeps the overdue key readable there, while the shard
      that owns the key is not drained then and removes it on the next read. */
  lemma ShardsCanAnswerDifferently(env: Env, one: string) returns (router: Router, calls: seq<Call>)
    requires env.parseInt(one) == Some(1)
    ensures router.Valid() && forall call :: call in calls ==> SingleKey(call.request.command)
    ensures OneRun(env, EmptyStore(), calls).1 != ShardRun(env, router, NewShards(router.workers), calls).1
  {
    hide OneRun, ShardRun, WorkerExecute;
    router := Router(2, (key: string) => if key == "a" then 0 else 1);
    var set0 := Call(Request(SET, ["a", "v"]), (m: nat) => 0.0);
    var expire := Call(Request(EXPIRE, ["a", one]), (m: nat) => 0.05);
    var other := Call(Request(GET, ["b"]), (m: nat) => 1.0);
    var read := Call(Request(GET, ["a"]), (m: nat) => 2.0);
    calls := [set0, expire, other, read];
    WitnessAnswers(env, router, NewShards(2), set0, expire, other, read);
  }

  lemma WitnessAnswers(env: Env, router: Router, shards: seq<Store>, set0: Call, expire: Call, other: Call, read: Call)
    requires router.workers == 2 && router.RouteKey("a") == 0 && router.RouteKey("b") == 1
    requires |shards| == 2 && shards[0] == shards[1] == EmptyStore()
    requires set0.request == Request(SET, ["a", "v"]) && set0.readings(0) == set0.readings(1) == 0.0
    requires expire.request.command == EXPIRE && |expire.request.args| == 2 && expire.request.args[0] == "a"
    requires env.parseInt(expire.request.args[1]) == Some(1)
    requires expire.readings(0) == expire.readings(1) == expire.readings(2) == 0.05
    requires other.request == Request(GET, ["b"]) && other.readings(0) == other.readings(1) == 1.0
    requires read.request == Request(GET, ["a"]) && read.readings(0) == read.readings(1) == 2.0
    ensures AllWellFormed(shards)
    ensures OneRun(env, EmptyStore(), [set0, expire, other, read]).1
         != ShardRun(env, router, shards, [set0, expire, other, read]).1
  {
    hide WorkerExecute, TickOf, Swept;
    var front := [set0, expire, other];
    WitnessPrefix(env, set0, expire);
    OneRunOneMore(env, EmptyStore(), [set0, expire], other);
    OneRunOneMore(env, EmptyStore(), front, read);
    WitnessOtherKey(env, other);
    WitnessRead(env, 10, read);
    assert [set0, expire] + [other] == front && front + [read] == [set0, expire, other, read];
    SharedLogFactorsByShard(env, router, shards, front, 0);
    WitnessRouted(router, set0, expire, other);
    WitnessRead(env, 0, read);
    assert [set0, expire, other, read][..3] == front;
    var answers := OneRun(env, EmptyStore(), front + [read]).1;
    var answers' := ShardRun(env, router, shards, front + [read]).1;
    assert answers[|answers| - 1] == Bulk("v") && answers'[|answers'| - 1] == Null;
  }

  lemma WitnessRouted(router: Router, a: Call, b: Call, c: Call)
    requires router.Valid()
    requires router.RouteRequest(a.request) == router.RouteRequest(b.request) == 0 != router.RouteRequest(c.request)
    ensures RoutedTo(router, [a, b, c], 0) == [a, b]
  {
    assert [a, b, c][..2] == [a, b] && [a, b][..1] == [a] && [a][..0] == [];
    assert RoutedTo(router, [a], 0) == [a];
    assert RoutedTo(router, [a, b], 0) == [a, b];
  }
}
