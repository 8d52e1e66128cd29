/** Recovery of the single-process server: one log for all shards, replayed by executing it. */
module RuntimeRecovery {
  import opened Types
  import opened StoreSpec
  import opened Commands
  import opened Replay
  import R = Recovery
  import opened Sharding

  datatype Server = Server(shards: seq<Store>, log: seq<Request>)

  /** What an append runs into: nothing, an error before the line is in the file, or an fsync that
      raises if there is one. */
  datatype StorageFault = NO_FAULT | WRITE_FAILS | SYNC_FAILS

  datatype Step =
    | Serve(call: Call, fault: StorageFault)
    | Snapshot(p: nat, now: real)         // the metrics snapshot of one worker drains it
    | Restart(replay: nat -> Readings)

  /** Each request with its clock readings. */
  function CallsOf(requests: seq<Request>, readings: nat -> Readings): seq<Call> {
    seq(|requests|, i requires 0 <= i < |requests| => Call(requests[i], readings(i)))
  }

  function RequestsIn(calls: seq<Call>): seq<Request> {
    seq(|calls|, i requires 0 <= i < |calls| => calls[i].request)
  }

  ghost predicate WellFormed(router: Router, v: Server) {
    router.Valid() && |v.shards| == router.workers && AllWellFormed(v.shards)
  }

  ghost function Do(env: Env, router: Router, v: Server, step: Step): (v': Server)
    requires WellFormed(router, v)
    ensures WellFormed(router, v')
  {
    match step
    case Serve(call, fault) =>
      var (shards', response) := Dispatch(env, router, v.shards, call);
      Server(shards', if IsWrite(call.request, response) && fault != WRITE_FAILS then v.log + [call.request] else v.log)
    case Snapshot(p, now) =>
      if p < |v.shards| then v.(shards := v.shards[p := v.shards[p].AfterExpirations(now)]) else v
    case Restart(replay) =>
      v.(shards := ShardRun(env, router, NewShards(router.workers), CallsOf(v.log, replay)).0)
  }

  ghost function Run(env: Env, router: Router, steps: seq<Step>): (v: Server)
    requires router.Valid()
    ensures WellFormed(router, v)
  {
    if steps == [] then Server(NewShards(router.workers), [])
    else Do(env, router, Run(env, router, steps[..|steps| - 1]), steps[|steps| - 1])
  }

  // ----- one shard's part -----

  /** The records of the log that are routed to shard `p`. */
  function PartOf(router: Router, log: seq<Request>, p: nat): seq<Request>
    requires router.Valid()
  {
    if log == [] then []
    else
      var request := log[|log| - 1];
      PartOf(router, log[..|log| - 1], p) + if router.RouteRequest(request) == p then [request] else []
  }

  /** The clock readings of a replay that are made for shard `p`; past its last record
      any will do. */
  function PartialReplay(router: Router, log: seq<Request>, replay: nat -> Readings, p: nat, latest: real)
    : nat -> Readings
    requires router.Valid()
  {
    var mine := RoutedTo(router, CallsOf(log, replay), p);
    (i: nat) => if i < |mine| then mine[i].readings else (m: nat) => latest
  }

  /** A step as it looks to shard `p`: a worker drains before it executes. */
  ghost function PartOfStep(router: Router, v: Server, step: Step, p: nat, latest: real)
    : (steps: seq<R.ServerStep>)
    requires router.Valid()
    ensures |steps| <= 2
  {
    match step
    case Serve(call, fault) =>
      if router.RouteRequest(call.request) != p then []
      else [R.Cycle(call.readings(0)),
            R.Serve(call.request, (i: nat) => call.readings(i + 1), fault != WRITE_FAILS)]
    case Snapshot(q, now) => if q == p then [R.Cycle(now)] else []
    case Restart(replay) => [R.Restart(PartialReplay(router, v.log, replay, p, latest))]
  }

  /** The history of shard `p`. */
  ghost function PartOfRun(env: Env, router: Router, steps: seq<Step>, p: nat, latest: real): seq<R.ServerStep>
    requires router.Valid()
  {
    if steps == [] then []
    else
      var front := steps[..|steps| - 1];
      PartOfRun(env, router, front, p, latest)
      + PartOfStep(router, Run(env, router, front), steps[|steps| - 1], p, latest)
  }

  predicate Logged(log: seq<Request>) {
    forall i :: 0 <= i < |log| ==> log[i].command in {SET, DEL, EXPIRE, FLUSHALL}
  }

  lemma {:induction false} RoutedCallsArePart(router: Router, log: seq<Request>, replay: nat -> Readings, p: nat)
    requires router.Valid()
    ensures RequestsIn(RoutedTo(router, CallsOf(log, replay), p)) == PartOf(router, log, p)
  {
    if log == [] {
    } else {
      var n := |log| - 1;
      RoutedCallsArePart(router, log[..n], replay, p);
      assert CallsOf(log, replay)[..n] == CallsOf(log[..n], replay);
    }
  }

  lemma {:induction false} PartIsLogged(router: Router, log: seq<Request>, p: nat)
    requires router.Valid() && Logged(log)
    ensures Logged(PartOf(router, log, p))
  {
    if log == [] {
    } else {
      PartIsLogged(router, log[..|log| - 1], p);
    }
  }

  /** Executing logged commands on a new store is the worker process's replay. */
  lemma {:induction false} OneRunIsReplayed(env: Env, calls: seq<Call>, replay: nat -> Readings)
    requires Logged(RequestsIn(calls)) && forall i :: 0 <= i < |calls| ==> replay(i) == calls[i].readings
    ensures OneRun(env, EmptyStore(), calls).0 == Replayed(env, RequestsIn(calls), replay)
  {
    if calls == [] {
    } else {
      hide WorkerExecute, Store.AfterReplay;
      var n := |calls| - 1;
      assert RequestsIn(calls)[..n] == RequestsIn(calls[..n]);
      assert forall i :: 0 <= i < n ==> RequestsIn(calls[..n])[i] == RequestsIn(calls)[i];
      OneRunIsReplayed(env, calls[..n], replay);
      assert RequestsIn(calls)[n] == calls[n].request;
      ExecuteIsReplay(env, OneRun(env, EmptyStore(), calls[..n]).0, calls[n]);
    }
  }

  lemma RestartedShard(env: Env, router: Router, log: seq<Request>, replay: nat -> Readings, p: nat, latest: real)
    requires router.Valid() && p < router.workers && Logged(log)
    ensures ShardRun(env, router, NewShards(router.workers), CallsOf(log, replay)).0[p]
         == Replayed(env, PartOf(router, log, p), PartialReplay(router, log, replay, p, latest))
  {
    hide ShardRun, OneRun, Replayed, PartOf, RoutedTo;
    var mine := RoutedTo(router, CallsOf(log, replay), p);
    SharedLogFactorsByShard(env, router, NewShards(router.workers), CallsOf(log, replay), p);
    RoutedCallsArePart(router, log, replay, p);
    PartIsLogged(router, log, p);
    OneRunIsReplayed(env, mine, PartialReplay(router, log, replay, p, latest));
  }

  lemma PartOneMore(router: Router, log: seq<Request>, request: Request, p: nat)
    requires router.Valid()
    ensures PartOf(router, log + [request], p)
         == PartOf(router, log, p) + if router.RouteRequest(request) == p then [request] else []
  {
    assert (log + [request])[..|log|] == log;
  }

  ghost function PartOfServer(router: Router, v: Server, p: nat): R.Server
    requires WellFormed(router, v) && p < router.workers
  {
    R.Server(v.shards[p], PartOf(router, v.log, p))
  }

  /** A sequence of one shard's steps. */
  ghost function DoAll(env: Env, v: R.Server, steps: seq<R.ServerStep>): (v': R.Server)
    requires v.store.WellFormed() && |steps| <= 2
    ensures v'.store.WellFormed()
  {
    if steps == [] then v
    else if |steps| == 1 then R.Do(env, v, steps[0])
    else R.Do(env, R.Do(env, v, steps[0]), steps[1])
  }

  lemma ServeFactorsByShard(env: Env, router: Router, v: Server, step: Step, p: nat, latest: real)
    requires WellFormed(router, v) && p < router.workers && Logged(v.log) && step.Serve?
    ensures Logged(Do(env, router, v, step).log)
    ensures PartOfServer(router, Do(env, router, v, step), p)
         == DoAll(env, PartOfServer(router, v, p), PartOfStep(router, v, step, p, latest))
  {
    hide Execute, PartOf;
    PartOneMore(router, v.log, step.call.request, p);
    assert PartOf(router, v.log, p) + [] == PartOf(router, v.log, p);
  }

  lemma SnapshotFactorsByShard(env: Env, router: Router, v: Server, step: Step, p: nat, latest: real)
    requires WellFormed(router, v) && p < router.workers && Logged(v.log) && step.Snapshot?
    ensures Logged(Do(env, router, v, step).log)
    ensures PartOfServer(router, Do(env, router, v, step), p)
         == DoAll(env, PartOfServer(router, v, p), PartOfStep(router, v, step, p, latest))
  {
    hide PartOf;
  }

  lemma RestartFactorsByShard(env: Env, router: Router, v: Server, step: Step, p: nat, latest: real)
    requires WellFormed(router, v) && p < router.workers && Logged(v.log) && step.Restart?
    ensures Logged(Do(env, router, v, step).log)
    ensures PartOfServer(router, Do(env, router, v, step), p)
         == DoAll(env, PartOfServer(router, v, p), PartOfStep(router, v, step, p, latest))
  {
    hide Replayed, PartOf, ShardRun, PartialReplay;
    RestartedShard(env, router, v.log, step.replay, p, latest);
  }

  lemma DoAllRuns(env: Env, earlier: seq<R.ServerStep>, steps: seq<R.ServerStep>)
    requires |steps| <= 2
    ensures R.Run(env, earlier + steps) == DoAll(env, R.Run(env, earlier), steps)
  {
    hide R.Run, R.Do;
    if steps == [] {
      assert earlier + steps == earlier;
    } else if |steps| == 1 {
      R.RunOneMore(env, earlier, steps[0]);
      assert earlier + steps == earlier + [steps[0]];
    } else {
      R.RunOneMore(env, earlier, steps[0]);
      R.RunOneMore(env, earlier + [steps[0]], steps[1]);
      assert earlier + steps == earlier + [steps[0]] + [steps[1]];
    }
  }

  lemma NoSteps(env: Env, router: Router, p: nat, latest: real)
    requires router.Valid() && p < router.workers
    ensures Logged(Run(env, router, []).log)
    ensures PartOfServer(router, Run(env, router, []), p) == R.Run(env, PartOfRun(env, router, [], p, latest))
  {
  }

  /** Each shard, with its part of the shared log, goes through the history of a single store. */
  lemma {:induction false} RunFactorsByShard(env: Env, router: Router, steps: seq<Step>, p: nat, latest: real)
    requires router.Valid() && p < router.workers
    ensures Logged(Run(env, router, steps).log)
    ensures PartOfServer(router, Run(env, router, steps), p) == R.Run(env, PartOfRun(env, router, steps, p, latest))
  {
    hide Do, DoAll, R.Do, R.Run, PartOfServer, PartOfStep, Logged;
    if steps == [] {
      NoSteps(env, router, p, latest);
    } else {
      var front, step := steps[..|steps| - 1], steps[|steps| - 1];
      var v := Run(env, router, front);
      RunFactorsByShard(env, router, front, p, latest);
      match step {
        case Serve(_, _) => ServeFactorsByShard(env, router, v, step, p, latest);
        case Snapshot(_, _) => SnapshotFactorsByShard(env, router, v, step, p, latest);
        case Restart(_) => RestartFactorsByShard(env, router, v, step, p, latest);
      }
      DoAllRuns(env, PartOfRun(env, router, front, p, latest), PartOfStep(router, v, step, p, latest));
    }
  }

  lemma {:induction false} RoutedReadings(router: Router, calls: seq<Call>, p: nat, first: real, spread: real)
    requires router.Valid()
    requires forall i, m: nat :: 0 <= i < |calls| ==> first <= calls[i].readings(m) <= first + spread
    ensures forall i, m: nat :: 0 <= i < |RoutedTo(router, calls, p)| ==>
              first <= RoutedTo(router, calls, p)[i].readings(m) <= first + spread
  {
    if calls == [] {
    } else {
      RoutedReadings(router, calls[..|calls| - 1], p, first, spread);
    }
  }

  /** Recovery of the single-process server.  After any run, storage errors included, a restart gives
      each shard back but for its spoiled keys: those whose last write the storage refused, or that a
      FLUSHALL deleted without a TTL.  Keys without a TTL come back however slow the replay, and every
      key that lasts through it. */
  lemma RestartRecoversShard(env: Env, router: Router, steps: seq<Step>, p: nat, latest: real,
          replay: nat -> Readings, first: real, spread: real)
    requires router.Valid() && p < router.workers
    requires R.ReadBy(PartOfRun(env, router, steps, p, latest), latest)
    requires Spread(replay, |Run(env, router, steps).log|, first, spread)
    ensures var v := Run(env, router, steps);
            var live, recovered := v.shards[p], Do(env, router, v, Restart(replay)).shards[p];
            var spoiled := R.Spoiled(env, PartOfRun(env, router, steps, p, latest));
            && (forall k :: k !in spoiled && (k !in live.data || Lasts(env, PartOf(router, v.log, p), k, spread)) ==>
                  R.RecoversKey(live, recovered, k))
            && R.UntimedKeys(recovered) - spoiled == R.UntimedKeys(live) - spoiled
            && (latest <= first ==> forall k :: k !in spoiled ==> R.LivesAsLong(live, recovered, k))
  {
    hide Run, R.Run, ShardRun, Replayed, PartOf, PartOfRun, RoutedTo, Lasts;
    hide R.Spoiled, R.ReadBy, R.RecoversKey, R.UntimedKeys, R.LivesAsLong;
    var v := Run(env, router, steps);
    RunFactorsByShard(env, router, steps, p, latest);
    RestartedShard(env, router, v.log, replay, p, latest);
    RoutedReadings(router, CallsOf(v.log, replay), p, first, spread);
    RoutedCallsArePart(router, v.log, replay, p);
    var mine := PartialReplay(router, v.log, replay, p, latest);
    assert Spread(mine, |PartOf(router, v.log, p)|, first, spread);
    R.RecoverySimulatesLiveStore(env, PartOfRun(env, router, steps, p, latest), latest, mine, first, spread);
  }
}
