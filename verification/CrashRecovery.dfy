/** A worker that crashes between any two of its steps, and the store its log gives back. */
module CrashRecovery {
  import opened Types
  import opened Commands
  import opened Replay
  import R = Recovery
  import opened WorkerProtocol

  /** The worker's history as steps of the recovery model. */
  function StepOf(event: Event): seq<R.ServerStep> {
    match event
    case Took(Submit(_, request), readings) => [R.Serve(request, readings, true)]
    case Took(Snapshot(_), readings) => [R.Cycle(readings(0))]
    case Took(_, _) => []
    case Drained(now) => [R.Cycle(now)]
  }

  function StepsOf(events: seq<Event>): seq<R.ServerStep> {
    if events == [] then [] else StepsOf(events[..|events| - 1]) + StepOf(events[|events| - 1])
  }

  function ServerOf(v: Serial): R.Server {
    R.Server(v.store, v.log)
  }

  lemma StepOfSize(event: Event)
    ensures |StepOf(event)| <= 1
  {
  }

  lemma StepAgrees(env: Env, v: Serial, event: Event)
    requires v.store.WellFormed()
    ensures ServerOf(SerialStep(env, v, event))
         == if StepOf(event) == [] then ServerOf(v) else R.Do(env, ServerOf(v), StepOf(event)[0])
  {
    hide Execute, IsWrite;
  }

  lemma {:induction false} SerialRunIsServerRun(env: Env, earlier: seq<R.ServerStep>, events: seq<Event>)
    ensures var server := R.Run(env, earlier);
            var serial := SerialRun(env, StartSerial(server.store, server.log), events);
            R.Run(env, earlier + StepsOf(events)) == ServerOf(serial)
  {
    hide SerialStep, R.Do, StepOf, R.Run;
    if events == [] {
      assert earlier + [] == earlier;
    } else {
      var front, event := events[..|events| - 1], events[|events| - 1];
      var done := earlier + StepsOf(front);
      SerialRunIsServerRun(env, earlier, front);
      StepAgrees(env, SerialRun(env, StartSerial(R.Run(env, earlier).store, R.Run(env, earlier).log), front), event);
      StepOfSize(event);
      assert earlier + StepsOf(events) == done + StepOf(event);
      if StepOf(event) == [] {
        assert done + [] == done;
      } else {
        R.RunOneMore(env, done, StepOf(event)[0]);
        assert [StepOf(event)[0]] == StepOf(event);
      }
    }
  }

  lemma ReadByPrefix(steps: seq<R.ServerStep>, more: seq<R.ServerStep>, latest: real)
    requires R.ReadBy(steps + more, latest)
    ensures R.ReadBy(steps, latest)
  {
    hide R.StepReadBy;
    assert forall i :: 0 <= i < |steps| ==> steps[i] == (steps + more)[i];
  }

  /** Crash recovery at any instant.  Whatever earlier life the store had, and wherever in its
      handling of messages the worker stops, a replay of the log gives back the store after some
      prefix of the history that covers every answered request and leaves out at most the one message
      in hand: every key without a TTL however slow the replay, and every key that lasts through it, but for keys
      that a FLUSHALL has spoiled. */
  lemma CrashLosesOnlyUnanswered(env: Env, earlier: seq<R.ServerStep>, actions: seq<Action>, latest: real,
          replay: nat -> Readings, first: real, spread: real)
    returns (done: seq<Event>)
    requires var server := R.Run(env, earlier);
             && CanRun(env, Start(server.store, server.log), actions)
             && var v := RunActions(env, Start(server.store, server.log), actions);
                && R.ReadBy(earlier + StepsOf(v.events), latest) && Spread(replay, |v.log|, first, spread)
    ensures var server := R.Run(env, earlier);
            var v := RunActions(env, Start(server.store, server.log), actions);
            var serial := SerialRun(env, StartSerial(server.store, server.log), done);
            var spoiled, recovered := R.Spoiled(env, earlier + StepsOf(done)), Replayed(env, v.log, replay);
            && done <= v.events && |v.events| <= |done| + 1
            && v.delivered + v.replies <= serial.replies && serial.log == v.log
            && R.UntimedKeys(recovered) - spoiled == R.UntimedKeys(serial.store) - spoiled
            && forall k :: k !in spoiled && (k !in serial.store.data || Lasts(env, v.log, k, spread)) ==>
                 R.RecoversKey(serial.store, recovered, k)
  {
    hide R.Run, RunActions, CanRun, SerialRun, R.Spoiled, R.ReadBy, Spread, R.RecoversKey, Replayed, Lasts;
    hide R.UntimedKeys;
    var server := R.Run(env, earlier);
    var v, v0 := RunActions(env, Start(server.store, server.log), actions), StartSerial(server.store, server.log);
    EveryRunIsLinear(env, server.store, server.log, actions);
    done := if v.phase.Executed? then v.events[..|v.events| - 1] else v.events;
    if v.phase.Executed? {
      var event := v.events[|v.events| - 1];
      assert earlier + StepsOf(v.events) == (earlier + StepsOf(done)) + StepOf(event);
      assert R.ReadBy(earlier + StepsOf(done), latest) by {
        ReadByPrefix(earlier + StepsOf(done), StepOf(event), latest);
      }
    }
    SerialRunIsServerRun(env, earlier, done);
    R.RecoverySimulatesLiveStore(env, earlier + StepsOf(done), latest, replay, first, spread);
  }
}
