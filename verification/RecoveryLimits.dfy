/** Runs that recovery does not survive. */
module RecoveryLimits {
  import opened Options
  import opened Types
  import opened Ticks
  import opened WheelSpec
  import opened StoreSpec
  import opened Replay
  import opened ReplayLimits
  import opened Recovery

  function WitnessStore(deadlines: map<string, real>): Store {
    Store(map["k" := "v"], Wheel(DEFAULT_TICK_SECONDS, DEFAULT_BUCKET_COUNT, Some(0.0), 0, deadlines))
  }

  lemma WitnessAtZero(deadlines: map<string, real>)
    requires deadlines.Keys <= {"k"} && forall k :: k in deadlines ==> deadlines[k] > 0.0
    ensures WitnessStore(deadlines).WellFormed()
    ensures WitnessStore(deadlines).AfterExpirations(0.0) == WitnessStore(deadlines)
  {
    hide TickOf, Swept;
    TickOfStart(0.0, DEFAULT_TICK_SECONDS, 0);
    var s := WitnessStore(deadlines);
    assert s.wheel.DueKeys(0.0) == {};
    assert s.wheel.Tick(0.0) == 0;
  }

  lemma WitnessFirstSet()
    ensures EmptyStore().AfterSet("k", "v", 0.0) == WitnessStore(map[])
  {
    hide TickOf, Swept;
    TickOfStart(0.0, DEFAULT_TICK_SECONDS, 0);
    var s := EmptyStore().AfterExpirations(0.0);
    assert s == Store(map[], WitnessStore(map[]).wheel);
    assert s.AfterExpirations(0.0) == s;
  }

  lemma WitnessExpire(deadlines: map<string, real>, seconds: int)
    requires deadlines.Keys <= {"k"} && (forall k :: k in deadlines ==> deadlines[k] > 0.0) && seconds > 0
    ensures WitnessStore(deadlines).WellFormed()
    ensures WitnessStore(deadlines).AfterExpire("k", seconds, 0.0, 0.0)
         == (WitnessStore(map["k" := seconds as real]), true)
  {
    hide TickOf, Swept;
    WitnessAtZero(deadlines);
    assert deadlines["k" := seconds as real] == map["k" := seconds as real];
  }

  lemma TwoSteps(env: Env, a: ServerStep, b: ServerStep)
    ensures Run(env, [a, b]) == Do(env, Do(env, Server(EmptyStore(), []), a), b)
    ensures Allowed(Server(EmptyStore(), []), a) ==>
      (AllAllowed(env, [a, b]) <==> Allowed(Do(env, Server(EmptyStore(), []), a), b))
  {
    hide Do, Run, AllAllowed, Allowed;
    RunNone(env);
    assert [] + [a] == [a] && [a] + [b] == [a, b];
    RunOneMore(env, [], a);
    RunOneMore(env, [a], b);
  }

  lemma ThreeSteps(env: Env, a: ServerStep, b: ServerStep, c: ServerStep)
    requires a.Serve? && b.Serve? && c.Serve? && a.stored && b.stored && c.stored
    requires a.request.command != FLUSHALL && b.request.command != FLUSHALL && c.request.command != FLUSHALL
    ensures Run(env, [a, b, c]) == Do(env, Do(env, Do(env, Server(EmptyStore(), []), a), b), c)
    ensures AllAllowed(env, [a, b, c])
  {
    hide Do, Run, AllAllowed;
    TwoSteps(env, a, b);
    assert [a, b] + [c] == [a, b, c];
    RunOneMore(env, [a, b], c);
  }

  lemma WitnessLive(env: Env, a: Request, b: Request, c: Request, zero: Readings)
    requires a == Request(SET, ["k", "v"]) && zero(0) == zero(1) == 0.0
    requires b.command == EXPIRE && |b.args| == 2 && b.args[0] == "k" && env.parseInt(b.args[1]) == Some(1)
    requires c.command == EXPIRE && |c.args| == 2 && c.args[0] == "k" && env.parseInt(c.args[1]) == Some(100)
    ensures Run(env, [Serve(a, zero, true), Serve(b, zero, true), Serve(c, zero, true)])
         == Server(WitnessStore(map["k" := 100.0]), [a, b, c])
  {
    hide TickOf, Swept, Run, AllAllowed;
    ThreeSteps(env, Serve(a, zero, true), Serve(b, zero, true), Serve(c, zero, true));
    WitnessFirstSet();
    assert Do(env, Server(EmptyStore(), []), Serve(a, zero, true)) == Server(WitnessStore(map[]), [a]);
    WitnessServeExpire(env, map[], b, 1, [a], zero);
    WitnessServeExpire(env, map["k" := 1.0], c, 100, [a, b], zero);
  }

  lemma WitnessServeExpire(env: Env, deadlines: map<string, real>, request: Request, seconds: int,
                           log: seq<Request>, zero: Readings)
    requires deadlines.Keys <= {"k"} && (forall k :: k in deadlines ==> deadlines[k] > 0.0) && seconds > 0
    requires request.command == EXPIRE && |request.args| == 2 && request.args[0] == "k"
    requires env.parseInt(request.args[1]) == Some(seconds) && zero(0) == zero(1) == 0.0
    ensures WitnessStore(deadlines).WellFormed()
    ensures Do(env, Server(WitnessStore(deadlines), log), Serve(request, zero, true))
         == Server(WitnessStore(map["k" := seconds as real]), log + [request])
  {
    hide TickOf, Swept, Store.AfterExpire;
    WitnessExpire(deadlines, seconds);
  }

  lemma ShortTtlDoesNotLast(env: Env, a: Request, b: Request, c: Request, k: string, spread: real)
    requires TtlFor(env, b, k).Some? && TtlFor(env, b, k).value as real <= spread && !SetsKey(c, k)
    ensures !Lasts(env, [a, b, c], k, spread)
  {
    assert [a, b, c][..2] == [a, b];
    assert !Outlives(env, [a, b], k, spread);
  }

  /** One second is too slow for some logs: SET, EXPIRE 1 and EXPIRE 100 served at once leave a live
      key that some replay within a second loses. */
  lemma SlowReplayLosesLiveKey(env: Env, one: string, hundred: string)
    returns (steps: seq<ServerStep>, replay: nat -> Readings)
    requires env.parseInt(one) == Some(1) && env.parseInt(hundred) == Some(100)
    ensures AllAllowed(env, steps) && ReadBy(steps, 0.0)
    ensures Spread(replay, |Run(env, steps).log|, 0.0, 1.0)
    ensures "k" in Run(env, steps).store.data
    ensures "k" !in Replayed(env, Run(env, steps).log, replay).data
  {
    hide Replayed, Run, Lasts;
    var a, b, c := Request(SET, ["k", "v"]), Request(EXPIRE, ["k", one]), Request(EXPIRE, ["k", hundred]);
    steps := [Serve(a, At(0.0), true), Serve(b, At(0.0), true), Serve(c, At(0.0), true)];
    ThreeSteps(env, steps[0], steps[1], steps[2]);
    WitnessLive(env, a, b, c, At(0.0));
    ShortTtlDoesNotLast(env, a, b, c, "k", 1.0);
    replay := LosingReplay(env, [a, b, c], "k", 1.0, 0.0);
  }

  lemma ReplayedSet(env: Env, k: string, v: string, replay: nat -> Readings)
    ensures k in UntimedKeys(Replayed(env, [Request(SET, [k, v])], replay))
  {
    hide Swept, Replayed;
    var a := Request(SET, [k, v]);
    assert [] + [a] == [a];
    ReplayedNone(env, replay);
    ReplayedOneMore(env, [], a, replay);
  }

  lemma WitnessFlush(env: Env, log: seq<Request>)
    ensures WitnessStore(map[]).WellFormed()
    ensures !Allowed(Server(WitnessStore(map[]), log), Serve(Request(FLUSHALL, []), At(0.0), true))
    ensures Do(env, Server(WitnessStore(map[]), log), Serve(Request(FLUSHALL, []), At(0.0), true))
         == Server(EmptyStore(), log)
  {
    hide TickOf, Swept, Store.AfterExpirations;
    WitnessAtZero(map[]);
    assert "k" in WitnessStore(map[]).data.Keys;
  }

  lemma WitnessSet(env: Env)
    ensures Do(env, Server(EmptyStore(), []), Serve(Request(SET, ["k", "v"]), At(0.0), true))
         == Server(WitnessStore(map[]), [Request(SET, ["k", "v"])])
  {
    hide TickOf, Swept, Store.AfterSet;
    WitnessFirstSet();
    assert [] + [Request(SET, ["k", "v"])] == [Request(SET, ["k", "v"])];
  }

  /** A key without a TTL comes back from a FLUSHALL, however the log is replayed. */
  lemma FlushedKeyComesBack(env: Env, replay: nat -> Readings) returns (steps: seq<ServerStep>)
    ensures !AllAllowed(env, steps) && ReadBy(steps, 0.0)
    ensures Run(env, steps).store == EmptyStore()
    ensures "k" in UntimedKeys(Replayed(env, Run(env, steps).log, replay))
  {
    hide Do, Run, AllAllowed, Allowed, Replayed, UntimedKeys, EmptyStore, WitnessStore;
    steps := [Serve(Request(SET, ["k", "v"]), At(0.0), true), Serve(Request(FLUSHALL, []), At(0.0), true)];
    WitnessSet(env);
    WitnessFlush(env, [Request(SET, ["k", "v"])]);
    assert Allowed(Server(EmptyStore(), []), steps[0]) by { FirstStepAllowed(steps[0]); }
    TwoSteps(env, steps[0], steps[1]);
    ReplayedSet(env, "k", "v", replay);
  }

  lemma FirstStepAllowed(step: ServerStep)
    requires step.Serve? && step.stored && step.request.command != FLUSHALL
    ensures Allowed(Server(EmptyStore(), []), step)
  {
  }
}
