/** A machine that stops: what is left on disk, and the store that it gives back. */
module MachineStop {
  import opened Types
  import opened StoreSpec
  import opened Replay
  import opened Journals
  import R = Recovery
  import opened WorkerProtocol

  /** The requests left when the file keeps its first `survivors` lines. */
  ghost function Left(j: Journal, survivors: nat): seq<Request>
    requires survivors <= |j.lines|
  {
    RequestsOf(Decoded(j.codec, j.lines[..survivors]))
  }

  lemma LeftIsPrefix(j: Journal, survivors: nat)
    requires j.Valid() && j.synced <= survivors <= |j.lines|
    ensures Left(j, survivors) <= RequestsOf(j.Records())
    ensures |RequestsOf(j.Records())| - |Left(j, survivors)| <= j.WorstLoss()
    ensures j.WorstLoss() == 0 ==> Left(j, survivors) == RequestsOf(j.Records())
  {
    hide Decoded, Journal.Valid;
    MachineStopLoses(j, survivors);
  }

  lemma StepLogsAtMostOne(env: Env, v: R.Server, step: R.ServerStep)
    requires v.store.WellFormed()
    ensures v.log <= R.Do(env, v, step).log && |R.Do(env, v, step).log| <= |v.log| + 1
  {
  }

  /** Every prefix of the log is the log after some prefix of the history. */
  lemma {:induction false} LogPrefixIsRunPrefix(env: Env, steps: seq<R.ServerStep>, n: nat) returns (done: nat)
    requires n <= |R.Run(env, steps).log|
    ensures done <= |steps| && R.Run(env, steps[..done]).log == R.Run(env, steps).log[..n]
    ensures n == |R.Run(env, steps).log| ==> done == |steps|
  {
    hide R.Do;
    var log := R.Run(env, steps).log;
    if n == |log| {
      done := |steps|;
      assert steps[..done] == steps && log[..n] == log;
    } else {
      if steps == [] {
        assert false;
      } else {
        var front := steps[..|steps| - 1];
        StepLogsAtMostOne(env, R.Run(env, front), steps[|steps| - 1]);
        done := LogPrefixIsRunPrefix(env, front, n);
        assert front[..done] == steps[..done] && R.Run(env, front).log[..n] == log[..n];
      }
    }
  }

  /** A machine that stops after any history, keeping any part of the file that includes what was on
      disk, and starts again: it is where a shorter history with a restart would be, having lost at
      most the records off disk; and it recovers what that shorter history had, as after a crash. */
  lemma MachineStopRecoversPrefix(env: Env, steps: seq<R.ServerStep>, j: Journal, survivors: nat, latest: real,
          replay: nat -> Readings, first: real, spread: real)
    returns (done: nat)
    requires R.ReadBy(steps, latest)
    requires j.Valid() && RequestsOf(j.Records()) == R.Run(env, steps).log && j.synced <= survivors <= |j.lines|
    requires Spread(replay, |Left(j, survivors)|, first, spread)
    ensures done <= |steps| && (j.WorstLoss() == 0 ==> done == |steps|)
    ensures var left, then' := Left(j, survivors), R.Run(env, steps[..done]);
            var recovered, spoiled := Replayed(env, left, replay), R.Spoiled(env, steps[..done]);
            && then'.log == left && |R.Run(env, steps).log| - |left| <= j.WorstLoss()
            && R.Run(env, steps[..done] + [R.Restart(replay)]) == R.Server(recovered, left)
            && R.UntimedKeys(recovered) - spoiled == R.UntimedKeys(then'.store) - spoiled
            && forall k :: k !in spoiled && (k !in then'.store.data || Lasts(env, left, k, spread)) ==>
                 R.RecoversKey(then'.store, recovered, k)
  {
    hide R.Run, Decoded, Journal.Valid, Replayed, Lasts, R.UntimedKeys, R.RecoversKey, Spread, R.Spoiled;
    hide R.StepReadBy;
    LeftIsPrefix(j, survivors);
    done := LogPrefixIsRunPrefix(env, steps, |Left(j, survivors)|);
    assert R.ReadBy(steps[..done], latest);
    R.RunOneMore(env, steps[..done], R.Restart(replay));
    R.RecoverySimulatesLiveStore(env, steps[..done], latest, replay, first, spread);
  }

  /** The writes of everything answered are left, but for as many as were off disk; all of them, if no
      more was off disk than is not answered yet. */
  lemma AcknowledgedWritesSurvive(env: Env, store: Store, log: seq<Request>, actions: seq<Action>, j: Journal,
          survivors: nat)
    requires store.WellFormed() && CanRun(env, Start(store, log), actions)
    requires j.Valid() && RequestsOf(j.Records()) == RunActions(env, Start(store, log), actions).log
    requires j.synced <= survivors <= |j.lines|
    ensures var v := RunActions(env, Start(store, log), actions);
            var answered := SerialRun(env, StartSerial(store, log), Answered(v));
            && v.delivered + v.replies == answered.replies
            && |answered.log| - j.WorstLoss() <= |Left(j, survivors)|
            && (Left(j, survivors) <= answered.log || answered.log <= Left(j, survivors))
            && (j.WorstLoss() <= |v.log| - |answered.log| ==> answered.log <= Left(j, survivors))
  {
    hide RunActions, CanRun, SerialRun, Decoded, Journal.Backlog, Journal.WorstLoss;
    AcknowledgedWritesAreLogged(env, store, log, actions);
    LeftIsPrefix(j, survivors);
    MachineStopLoses(j, survivors);
  }
}
