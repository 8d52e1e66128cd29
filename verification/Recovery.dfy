/**
 Crash recovery: the store rebuilt by replaying the log against the store that wrote it
 (src/process_worker.py, src/store.py).
 */
module Recovery {
  import opened Options
  import opened Types
  import opened WheelSpec
  import opened StoreSpec
  import opened Commands
  import opened Replay
  import opened ReplayLimits

  // ----- the live store against the meaning of its log -----

  lemma ExpirationsMirror(s: Store, image: Image, latest: real, now: real, k: string)
    requires s.WellFormed() && MirrorsKey(s, image, latest, k)
    ensures MirrorsKey(s.AfterExpirations(now), image, latest, k)
  {
  }

  lemma {:induction false} GetsMirror(s: Store, keys: seq<string>, readings: Readings, image: Image,
          latest: real, k: string)
    requires s.WellFormed() && MirrorsKey(s, image, latest, k)
    ensures MirrorsKey(AfterGets(s, keys, readings).0, image, latest, k)
  {
    if keys == [] {
    } else {
      var n := |keys| - 1;
      GetsMirror(s, keys[..n], readings, image, latest, k);
      ExpirationsMirror(AfterGets(s, keys[..n], readings).0, image, latest, readings(n), k);
    }
  }

  /** Serving any command but FLUSHALL, and logging it if it is a write, keeps every key mirrored. */
  lemma ExecuteMirrors(env: Env, s: Store, request: Request, readings: Readings, image: Image, latest: real, k: string)
    requires s.WellFormed() && MirrorsKey(s, image, latest, k) && request.command != FLUSHALL
    requires forall m: nat :: readings(m) <= latest
    ensures var (s', response) := Execute(env, s, request, readings);
            MirrorsKey(s', if IsWrite(request, response) then ImageStep(env, image, request) else image, latest, k)
  {
    hide Swept, Store.AfterExpire;
    var args := request.args;
    ExpirationsMirror(s, image, latest, readings(0), k);
    match request.command {
      case EXPIRE =>
        if |args| == 2 && env.parseInt(args[1]).Some? {
          ExpireMirrors(s, args[0], env.parseInt(args[1]).value, readings, image, latest, k);
        }
      case TTL =>
        ExpirationsMirror(s.AfterExpirations(readings(0)), image, latest, readings(2), k);
      case MGET => GetsMirror(s, args, readings, image, latest, k);
      case _ =>
    }
  }

  lemma ExpireMirrors(s: Store, j: string, seconds: int, readings: Readings, image: Image, latest: real, k: string)
    requires s.WellFormed() && MirrorsKey(s, image, latest, k)
    requires forall m: nat :: readings(m) <= latest
    ensures var (s', done) := s.AfterExpire(j, seconds, readings(0), readings(1));
            MirrorsKey(s',
                       if !done || j !in image.data then image
                       else if seconds <= 0 then Image(image.data - {j}, image.ttls - {j})
                       else Image(image.data, image.ttls[j := seconds]), latest, k)
  {
    hide Swept;
    ExpirationsMirror(s, image, latest, readings(0), k);
    ExpirationsMirror(s.AfterExpirations(readings(0)), image, latest, readings(1), k);
  }

  // ----- runs of a server over its log -----

  datatype Server = Server(store: Store, log: seq<Request>)

  /** `stored` tells whether the append of a write gets its line into the file. */
  datatype ServerStep =
    | Serve(request: Request, readings: Readings, stored: bool)
    | Cycle(now: real)
    | Restart(replay: nat -> Readings)

  ghost function Do(env: Env, v: Server, step: ServerStep): (v': Server)
    requires v.store.WellFormed()
    ensures v'.store.WellFormed()
  {
    match step
    case Serve(request, readings, stored) =>
      var (s', response) := Execute(env, v.store, request, readings);
      Server(s', if IsWrite(request, response) && stored then v.log + [request] else v.log)
    case Cycle(now) => v.(store := v.store.AfterExpirations(now))
    case Restart(replay) => v.(store := Replayed(env, v.log, replay))
  }

  ghost function Run(env: Env, steps: seq<ServerStep>): (v: Server)
    ensures v.store.WellFormed()
  {
    if steps == [] then Server(EmptyStore(), [])
    else Do(env, Run(env, steps[..|steps| - 1]), steps[|steps| - 1])
  }

  ghost predicate StepReadBy(step: ServerStep, latest: real) {
    match step
    case Serve(_, readings, _) => forall m: nat :: readings(m) <= latest
    case Cycle(now) => now <= latest
    case Restart(replay) => forall i: nat, m: nat :: replay(i)(m) <= latest
  }

  ghost predicate ReadBy(steps: seq<ServerStep>, latest: real) {
    forall i :: 0 <= i < |steps| ==> StepReadBy(steps[i], latest)
  }

  /** The keys without a TTL, and their values. */
  ghost function UntimedKeys(s: Store): map<string, string> {
    map k | k in s.data && k !in s.wheel.deadlines :: s.data[k]
  }

  /** The keys whose state the log no longer tells: a write of the key was not stored, or a FLUSHALL,
      which is never logged, deleted it without a TTL; until the key is set or deleted again. */
  ghost function SpoiledAfter(env: Env, v: Server, spoiled: set<string>, step: ServerStep): set<string>
    requires v.store.WellFormed()
  {
    match step
    case Cycle(_) => spoiled
    case Restart(_) => {}
    case Serve(request, readings, stored) =>
      if request == Request(FLUSHALL, []) then spoiled + UntimedKeys(v.store.AfterExpirations(readings(0))).Keys
      else if !IsWrite(request, Execute(env, v.store, request, readings).1) || request.args == [] then spoiled
      else if !stored then spoiled + {request.args[0]}
      else if TtlFor(env, request, request.args[0]).Some? then spoiled
      else spoiled - {request.args[0]}
  }

  ghost function Spoiled(env: Env, steps: seq<ServerStep>): set<string> {
    if steps == [] then {}
    else
      var front := steps[..|steps| - 1];
      SpoiledAfter(env, Run(env, front), Spoiled(env, front), steps[|steps| - 1])
  }

  /** A write spoils at most its own key, and none if it is stored; nothing else but FLUSHALL spoils any. */
  lemma SpoilsOnlyItsKey(env: Env, v: Server, spoiled: set<string>, step: ServerStep)
    requires v.store.WellFormed() && (step.Serve? ==> step.request.command != FLUSHALL)
    ensures SpoiledAfter(env, v, spoiled, step)
         <= if step.Serve? && !step.stored && step.request.args != [] then spoiled + {step.request.args[0]} else spoiled
  {
    hide Execute, IsWrite;
  }

  /** Every key that a FLUSHALL deletes has a TTL. */
  ghost predicate FlushSpares(s: Store, now: real)
    requires s.WellFormed()
  {
    var s' := s.AfterExpirations(now);
    s'.data.Keys <= s'.wheel.deadlines.Keys
  }

  /** Every write is stored, and no FLUSHALL deletes a key without a TTL. */
  ghost predicate Allowed(v: Server, step: ServerStep)
    requires v.store.WellFormed()
  {
    step.Serve? ==> step.stored && (step.request == Request(FLUSHALL, []) ==> FlushSpares(v.store, step.readings(0)))
  }

  ghost predicate AllAllowed(env: Env, steps: seq<ServerStep>) {
    steps == [] ||
    (AllAllowed(env, steps[..|steps| - 1]) && Allowed(Run(env, steps[..|steps| - 1]), steps[|steps| - 1]))
  }

  lemma {:induction false} AllowedSpoilsNothing(env: Env, steps: seq<ServerStep>)
    requires AllAllowed(env, steps)
    ensures Spoiled(env, steps) == {}
  {
    if steps == [] {
    } else {
      hide Run, Execute, IsWrite, Store.AfterExpirations;
      AllowedSpoilsNothing(env, steps[..|steps| - 1]);
    }
  }

  // ----- the live store against its log, over runs -----

  lemma FlushMirrors(s: Store, image: Image, latest: real, now: real, k: string)
    requires s.WellFormed() && MirrorsKey(s, image, latest, k)
    requires k !in UntimedKeys(s.AfterExpirations(now))
    ensures MirrorsKey(s.AfterFlush(now).0, image, latest, k)
  {
    hide Swept;
    ExpirationsMirror(s, image, latest, now, k);
  }

  /** What is not stored leaves the meaning of the log, and every other key mirrored. */
  lemma UnstoredMirrors(env: Env, s: Store, request: Request, readings: Readings, image: Image, latest: real,
          k: string)
    requires s.WellFormed() && MirrorsKey(s, image, latest, k)
    requires request.args != [] && request.args[0] != k && forall m: nat :: readings(m) <= latest
    requires IsWrite(request, Execute(env, s, request, readings).1)
    ensures MirrorsKey(Execute(env, s, request, readings).0, image, latest, k)
  {
    ExecuteMirrors(env, s, request, readings, image, latest, k);
    hide Execute, Swept;
  }

  /** A stored SET, DEL or non-positive EXPIRE makes its key agree again. */
  lemma StoredWriteAgrees(env: Env, s: Store, request: Request, readings: Readings, image: Image, latest: real)
    requires s.WellFormed() && TtlsBelongToKeys(image) && request.args != []
    requires IsWrite(request, Execute(env, s, request, readings).1)
    requires TtlFor(env, request, request.args[0]).None?
    ensures MirrorsKey(Execute(env, s, request, readings).0, ImageStep(env, image, request), latest, request.args[0])
  {
    hide Swept;
  }

  lemma ServeMirrors(env: Env, v: Server, spoiled: set<string>, step: ServerStep, latest: real, k: string)
    requires v.store.WellFormed() && step.Serve? && StepReadBy(step, latest)
    requires k !in spoiled ==> MirrorsKey(v.store, ImageOf(env, v.log), latest, k)
    requires k !in SpoiledAfter(env, v, spoiled, step)
    ensures MirrorsKey(Do(env, v, step).store, ImageOf(env, Do(env, v, step).log), latest, k)
  {
    hide Swept, ImageOf, MirrorsKey, Execute, UntimedKeys, ImageStep;
    var image, request, readings := ImageOf(env, v.log), step.request, step.readings;
    ImageOfOneMore(env, v.log, request);
    ImageTtlsBelongToKeys(env, v.log);
    if request.command == FLUSHALL {
      FlushServed(env, v.store, request, readings);
      if request.args == [] { FlushMirrors(v.store, image, latest, readings(0), k); }
    } else if !IsWrite(request, Execute(env, v.store, request, readings).1) {
      ExecuteMirrors(env, v.store, request, readings, image, latest, k);
    } else {
      WriteHasKey(env, v.store, request, readings);
      if !step.stored {
        UnstoredMirrors(env, v.store, request, readings, image, latest, k);
      } else if k in spoiled {
        StoredWriteAgrees(env, v.store, request, readings, image, latest);
      } else {
        ExecuteMirrors(env, v.store, request, readings, image, latest, k);
      }
    }
  }

  lemma FlushServed(env: Env, s: Store, request: Request, readings: Readings)
    requires s.WellFormed() && request.command == FLUSHALL
    ensures Execute(env, s, request, readings).0 == if request.args == [] then s.AfterFlush(readings(0)).0 else s
  {
  }

  lemma WriteHasKey(env: Env, s: Store, request: Request, readings: Readings)
    requires s.WellFormed() && IsWrite(request, Execute(env, s, request, readings).1)
    ensures request.args != []
  {
  }

  lemma StepMirrors(env: Env, v: Server, spoiled: set<string>, step: ServerStep, latest: real, k: string)
    requires v.store.WellFormed() && StepReadBy(step, latest)
    requires k !in spoiled ==> MirrorsKey(v.store, ImageOf(env, v.log), latest, k)
    requires k !in SpoiledAfter(env, v, spoiled, step)
    ensures MirrorsKey(Do(env, v, step).store, ImageOf(env, Do(env, v, step).log), latest, k)
  {
    hide Swept, ImageOf, MirrorsKey, Execute;
    match step {
      case Serve(_, _, _) => ServeMirrors(env, v, spoiled, step, latest, k);
      case Cycle(now) => ExpirationsMirror(v.store, ImageOf(env, v.log), latest, now, k);
      case Restart(replay) => ReplayMirrors(env, v.log, replay, latest, k);
    }
  }

  /** In every reachable state, through any commands, failed appends, expiration cycles and restarts,
      every key that is not spoiled is mirrored by the log. */
  lemma {:induction false} RunMirrors(env: Env, steps: seq<ServerStep>, latest: real, k: string)
    requires ReadBy(steps, latest) && k !in Spoiled(env, steps)
    ensures MirrorsKey(Run(env, steps).store, ImageOf(env, Run(env, steps).log), latest, k)
  {
    if steps == [] {
    } else {
      hide Do, MirrorsKey, StepReadBy, SpoiledAfter;
      var front := steps[..|steps| - 1];
      if k !in Spoiled(env, front) { RunMirrors(env, front, latest, k); }
      StepMirrors(env, Run(env, front), Spoiled(env, front), steps[|steps| - 1], latest, k);
    }
  }

  // ----- what recovery gives back -----

  /** A live key comes back with its value, and with a deadline exactly when it has one; any other
      key that comes back carries a deadline. */
  ghost predicate RecoversKey(live: Store, recovered: Store, k: string) {
    if k in live.data then
      && k in recovered.data && recovered.data[k] == live.data[k]
      && (k in recovered.wheel.deadlines <==> k in live.wheel.deadlines)
    else
      k in recovered.data ==> k in recovered.wheel.deadlines
  }

  ghost predicate Recovers(live: Store, recovered: Store) {
    forall k :: RecoversKey(live, recovered, k)
  }

  ghost predicate LivesAsLong(live: Store, recovered: Store, k: string) {
    k in live.wheel.deadlines && k in recovered.wheel.deadlines ==>
      live.wheel.deadlines[k] <= recovered.wheel.deadlines[k]
  }

  lemma KeyRecovers(env: Env, live: Store, log: seq<Request>, replay: nat -> Readings, first: real, spread: real,
          k: string)
    requires live.WellFormed() && AgreesKey(live, ImageOf(env, log), k)
    requires Spread(replay, |log|, first, spread)
    ensures var recovered := Replayed(env, log, replay);
            && (k !in live.data || Lasts(env, log, k, spread) ==> RecoversKey(live, recovered, k))
            && (k in UntimedKeys(recovered) <==> k in UntimedKeys(live))
            && (k in UntimedKeys(live) ==> UntimedKeys(recovered)[k] == UntimedKeys(live)[k])
  {
    hide Replayed, ImageOf, Lasts, Outlives, Swept;
    ReplayMirrors(env, log, replay, first + spread, k);
    if k in live.data && k !in live.wheel.deadlines {
      KeyWithoutTtlOutlives(env, log, k, spread);
    }
    if Lasts(env, log, k, spread) {
      LastingKeyStays(env, log, replay, first, spread, k);
    }
  }

  lemma KeyLivesAsLong(env: Env, live: Store, log: seq<Request>, latest: real, replay: nat -> Readings, first: real,
          spread: real, k: string)
    requires live.WellFormed() && MirrorsKey(live, ImageOf(env, log), latest, k)
    requires Spread(replay, |log|, first, spread) && latest <= first
    ensures LivesAsLong(live, Replayed(env, log, replay), k)
  {
    hide Replayed, ImageOf, Swept;
    ReplayMirrors(env, log, replay, first + spread, k);
    ReplayNotBefore(env, log, replay, first, spread, k);
  }

  /** Crash recovery.  After any run, and however slow the replay, for every key that is not spoiled:
      it comes back only if the live store has it or it carries a deadline; without a TTL it comes back
      exactly; otherwise a live key comes back too if each of its TTLs since its last SET is longer than
      the replay; and if the replay comes after the run, its deadline is no earlier than the live one. */
  lemma RecoverySimulatesLiveStore(env: Env, steps: seq<ServerStep>, latest: real, replay: nat -> Readings,
          first: real, spread: real)
    requires ReadBy(steps, latest) && Spread(replay, |Run(env, steps).log|, first, spread)
    ensures var v, spoiled := Run(env, steps), Spoiled(env, steps);
            var live, recovered := v.store, Replayed(env, v.log, replay);
            && (forall k :: k !in spoiled && (k !in live.data || Lasts(env, v.log, k, spread)) ==>
                  RecoversKey(live, recovered, k))
            && UntimedKeys(recovered) - spoiled == UntimedKeys(live) - spoiled
            && (latest <= first ==> forall k :: k !in spoiled ==> LivesAsLong(live, recovered, k))
  {
    hide Swept, Run, Replayed, ImageOf, MirrorsKey, Spread, ReadBy, Lasts, RecoversKey, LivesAsLong, UntimedKeys;
    hide Spoiled;
    var v, spoiled := Run(env, steps), Spoiled(env, steps);
    var live, recovered := v.store, Replayed(env, v.log, replay);
    forall k | k !in spoiled
      ensures k !in live.data || Lasts(env, v.log, k, spread) ==> RecoversKey(live, recovered, k)
      ensures k in UntimedKeys(recovered) <==> k in UntimedKeys(live)
      ensures k in UntimedKeys(live) ==> UntimedKeys(recovered)[k] == UntimedKeys(live)[k]
      ensures latest <= first ==> LivesAsLong(live, recovered, k)
    {
      RunMirrors(env, steps, latest, k);
      MirrorAgrees(live, ImageOf(env, v.log), latest, k);
      KeyRecovers(env, live, v.log, replay, first, spread, k);
      if latest <= first { KeyLivesAsLong(env, live, v.log, latest, replay, first, spread, k); }
    }
  }

  lemma MirrorAgrees(s: Store, image: Image, latest: real, k: string)
    requires MirrorsKey(s, image, latest, k)
    ensures AgreesKey(s, image, k)
  {
  }

  // ----- exactly which keys recovery gives back -----

  /** Every replay that starts at `from` or later, runs in clock order and takes at most `spread`
      seconds recovers `k`. */
  ghost predicate RecoversFrom(env: Env, live: Store, log: seq<Request>, from: real, spread: real, k: string) {
    forall replay: nat -> Readings, first: real ::
      from <= first && ClockInOrder(replay) && Spread(replay, |log|, first, spread) ==>
        RecoversKey(live, Replayed(env, log, replay), k)
  }

  lemma {:induction false} EveryKeyOutlivesUnderASecond(env: Env, log: seq<Request>, k: string, spread: real)
    requires spread < 1.0
    ensures Outlives(env, log, k, spread) && Lasts(env, log, k, spread)
  {
    if log == [] {
    } else {
      EveryKeyOutlivesUnderASecond(env, log[..|log| - 1], k, spread);
    }
  }

  /** A replay at one instant keeps all that the log means, so it recovers nothing else. */
  lemma InstantReplayAgrees(env: Env, live: Store, log: seq<Request>, from: real, spread: real, k: string)
    requires live.WellFormed() && RecoversFrom(env, live, log, from, spread, k) && spread >= 0.0
    ensures AgreesKey(live, ImageOf(env, log), k)
  {
    hide Replayed, ImageOf, Lasts, Outlives;
    var replay: nat -> Readings := (i: nat) => At(from);
    assert forall i: nat, m: nat :: replay(i)(m) == from;
    assert Spread(replay, |log|, from, spread) && Spread(replay, |log|, from, 0.0) && ClockInOrder(replay);
    ReplayMirrors(env, log, replay, from, k);
    EveryKeyOutlivesUnderASecond(env, log, k, 0.0);
    LastingKeyStays(env, log, replay, from, 0.0, k);
  }

  /** Exactly which keys of a store a log recovers: those on which its meaning agrees with the store,
      and which, if live, have since their last SET no TTL as short as the replay may be, other than by
      the log's last record. */
  lemma KeyRecoversExactly(env: Env, live: Store, log: seq<Request>, from: real, spread: real, k: string)
    requires live.WellFormed() && spread >= 0.0
    ensures RecoversFrom(env, live, log, from, spread, k) <==>
            AgreesKey(live, ImageOf(env, log), k) && (k in live.data ==> Lasts(env, log, k, spread))
  {
    hide Replayed, ImageOf, Lasts, Spread, ClockInOrder, AgreesKey;
    if !AgreesKey(live, ImageOf(env, log), k) {
      if RecoversFrom(env, live, log, from, spread, k) { InstantReplayAgrees(env, live, log, from, spread, k); }
    } else if k in live.data && !Lasts(env, log, k, spread) {
      var replay := LosingReplay(env, log, k, spread, from);
      assert Spread(replay, |log|, from, spread) && !RecoversKey(live, Replayed(env, log, replay), k);
    } else {
      forall replay: nat -> Readings, first: real | Spread(replay, |log|, first, spread)
        ensures RecoversKey(live, Replayed(env, log, replay), k)
      {
        KeyRecovers(env, live, log, replay, first, spread, k);
      }
    }
  }

  /** So after any run, a key that is not spoiled comes back from every replay within `spread` seconds
      that follows the run if and only if, being live, it lasts that long. */
  lemma RecoveryExactly(env: Env, steps: seq<ServerStep>, latest: real, spread: real, k: string)
    requires ReadBy(steps, latest) && spread >= 0.0 && k !in Spoiled(env, steps)
    ensures var v := Run(env, steps);
            RecoversFrom(env, v.store, v.log, latest, spread, k) <==>
            (k in v.store.data ==> Lasts(env, v.log, k, spread))
  {
    hide Run, ImageOf, Lasts, ReadBy, RecoversFrom, Spoiled;
    var v := Run(env, steps);
    RunMirrors(env, steps, latest, k);
    KeyRecoversExactly(env, v.store, v.log, latest, spread, k);
  }

  /** In particular a replay quicker than a second recovers every key that is not spoiled. */
  lemma QuickReplayRecovers(env: Env, steps: seq<ServerStep>, latest: real, replay: nat -> Readings, first: real,
          spread: real, k: string)
    requires ReadBy(steps, latest) && spread < 1.0 && k !in Spoiled(env, steps)
    requires Spread(replay, |Run(env, steps).log|, first, spread)
    ensures RecoversKey(Run(env, steps).store, Replayed(env, Run(env, steps).log, replay), k)
  {
    hide Run, Replayed, Lasts, Spread, ReadBy, RecoversKey, Spoiled;
    RecoverySimulatesLiveStore(env, steps, latest, replay, first, spread);
    EveryKeyOutlivesUnderASecond(env, Run(env, steps).log, k, spread);
  }

  // ----- FLUSHALL -----

  lemma FlushedRecoversExactly(s: Store, recovered: Store, now: real)
    requires s.WellFormed() && UntimedKeys(recovered).Keys == UntimedKeys(s.AfterExpirations(now)).Keys
    ensures Recovers(s.AfterFlush(now).0, recovered) <==> FlushSpares(s, now)
  {
    hide Swept, Store.AfterExpirations;
    var s' := s.AfterExpirations(now);
    if FlushSpares(s, now) {
      forall k ensures RecoversKey(s.AfterFlush(now).0, recovered, k) {
        assert k !in UntimedKeys(s').Keys;
      }
    } else {
      var k :| k in s'.data.Keys && k !in s'.wheel.deadlines.Keys;
      assert k in UntimedKeys(s').Keys;
      assert !RecoversKey(s.AfterFlush(now).0, recovered, k);
    }
  }

  /** A FLUSHALL on a store that mirrors its log, as every reachable one without spoiled keys does, is
      recovered by a replay if and only if every key it deletes has a TTL. */
  lemma FlushRecoversExactly(env: Env, s: Store, log: seq<Request>, latest: real, now: real,
          replay: nat -> Readings, first: real, spread: real)
    requires s.WellFormed() && Mirrors(s, ImageOf(env, log), latest)
    requires Spread(replay, |log|, first, spread)
    ensures Recovers(s.AfterFlush(now).0, Replayed(env, log, replay)) <==> FlushSpares(s, now)
  {
    hide Swept, Replayed, ImageOf, Spread, MirrorsKey, Recovers, FlushSpares, Store.AfterExpirations;
    var s', recovered := s.AfterExpirations(now), Replayed(env, log, replay);
    forall k ensures k in UntimedKeys(recovered).Keys <==> k in UntimedKeys(s').Keys {
      assert MirrorsKey(s, ImageOf(env, log), latest, k);
      ExpirationsMirror(s, ImageOf(env, log), latest, now, k);
      MirrorAgrees(s', ImageOf(env, log), latest, k);
      KeyRecovers(env, s', log, replay, first, spread, k);
    }
    FlushedRecoversExactly(s, recovered, now);
  }

  // ----- which requests are logged -----

  /** Every SET and every DEL that takes its arguments, and an EXPIRE that finds its key. */
  ghost predicate Logs(env: Env, s: Store, request: Request, now: real)
    requires s.WellFormed()
  {
    var args := request.args;
    match request.command
    case SET => |args| == 2
    case DEL => |args| == 1
    case EXPIRE => |args| == 2 && env.parseInt(args[1]).Some? && args[0] in s.AfterExpirations(now).data
    case _ => false
  }

  /** Exactly which requests are logged; a DEL also when it finds nothing to delete, because the log may
      still mean the key. */
  lemma LoggedExactly(env: Env, v: Server, request: Request, readings: Readings)
    requires v.store.WellFormed()
    ensures Do(env, v, Serve(request, readings, true)).log
         == v.log + if Logs(env, v.store, request, readings(0)) then [request] else []
    ensures Do(env, v, Serve(request, readings, false)).log == v.log
  {
    hide Store.AfterExpirations, Store.AfterTtl, AfterGets;
    assert v.log + [] == v.log;
  }

  /** The last write of a key decides what every replay brings back of it, whatever store and log were
      before: a key set comes back with its value, and a key deleted does not, even if it had lapsed. */
  lemma LastWriteDecides(env: Env, v: Server, k: string, value: string, readings: Readings, replay: nat -> Readings)
    requires v.store.WellFormed()
    ensures Replayed(env, Do(env, v, Serve(Request(SET, [k, value]), readings, true)).log, replay).Lookup(k)
         == Some(value)
    ensures Replayed(env, Do(env, v, Serve(Request(DEL, [k]), readings, true)).log, replay).Lookup(k) == None
  {
    hide Swept, Replayed, Do, Logs, Store.AfterExpirations;
    LoggedExactly(env, v, Request(SET, [k, value]), readings);
    LoggedExactly(env, v, Request(DEL, [k]), readings);
    SetAndDelAreLogged(env, v.store, k, value, readings(0));
    ReplayedOneMore(env, v.log, Request(SET, [k, value]), replay);
    ReplayedOneMore(env, v.log, Request(DEL, [k]), replay);
  }

  lemma SetAndDelAreLogged(env: Env, s: Store, k: string, value: string, now: real)
    requires s.WellFormed()
    ensures Logs(env, s, Request(SET, [k, value]), now) && Logs(env, s, Request(DEL, [k]), now)
  {
  }

  // ----- one step at a time -----

  lemma RunOneMore(env: Env, steps: seq<ServerStep>, step: ServerStep)
    ensures Run(env, steps + [step]) == Do(env, Run(env, steps), step)
    ensures AllAllowed(env, steps + [step]) <==> AllAllowed(env, steps) && Allowed(Run(env, steps), step)
  {
    hide Do, Allowed, SpoiledAfter;
    assert (steps + [step])[..|steps|] == steps;
  }

  lemma RunNone(env: Env)
    ensures Run(env, []) == Server(EmptyStore(), []) && AllAllowed(env, [])
  {
  }
}
