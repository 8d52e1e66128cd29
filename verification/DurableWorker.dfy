/**
 The worker's protocol together with its log file: a write and its fsync are separate steps, and the
 machine may stop between any two (src/process_worker.py, src/persistence.py).
 */
module DurableWorker {
  import opened Types
  import opened StoreSpec
  import opened Commands
  import opened Replay
  import opened Journals
  import opened WorkerProtocol
  import M = MachineStop
  import R = Recovery
  import C = CrashRecovery

  /** `written`: the line of the write in hand is in the file, and its append has not ended. */
  datatype Durable = Durable(v: System, j: Journal, written: bool)

  datatype Move =
    | Other(action: Action)
    | Write
    | Finish  // the fsync that the policy asks for, and the end of the append

  ghost predicate Possible(d: Durable, move: Move) {
    match move
    case Other(action) => Enabled(d.v, action) && (action.Append? ==> d.v.phase.write.None?)
    case Write => d.v.phase.Executed? && d.v.phase.write.Some? && !d.written
    case Finish => d.v.phase.Executed? && d.written
  }

  ghost function After(env: Env, d: Durable, move: Move): (d': Durable)
    requires d.v.store.WellFormed() && Possible(d, move)
    ensures d'.v.store.WellFormed()
  {
    match move
    case Other(action) => d.(v := Next(env, d.v, action))
    case Write => d.(j := d.j.Written(LogRecord(d.j.nextSequence, d.v.phase.write.value)), written := true)
    case Finish => Durable(Next(env, d.v, Append), Finished(d.j), false)
  }

  ghost predicate CanMove(env: Env, d: Durable, moves: seq<Move>)
    requires d.v.store.WellFormed()
    decreases |moves|, 1
  {
    moves == [] ||
    (CanMove(env, d, moves[..|moves| - 1])
     && Possible(RunMoves(env, d, moves[..|moves| - 1]), moves[|moves| - 1]))
  }

  ghost function RunMoves(env: Env, d: Durable, moves: seq<Move>): (d': Durable)
    requires d.v.store.WellFormed() && CanMove(env, d, moves)
    ensures d'.v.store.WellFormed()
    decreases |moves|, 2
  {
    if moves == [] then d
    else After(env, RunMoves(env, d, moves[..|moves| - 1]), moves[|moves| - 1])
  }

  /** A worker that has opened its log and replayed it into `store`. */
  ghost function Opened(store: Store, j: Journal): Durable {
    Durable(Start(store, RequestsOf(j.Records())), j, false)
  }

  // ----- the protocol is followed -----

  function ActionsOf(moves: seq<Move>): seq<Action> {
    if moves == [] then []
    else
      var move := moves[|moves| - 1];
      ActionsOf(moves[..|moves| - 1])
      + match move
        case Other(action) => [action]
        case Write => []
        case Finish => [Append]
  }

  lemma {:induction false} MovesFollowProtocol(env: Env, d: Durable, moves: seq<Move>)
    requires d.v.store.WellFormed() && CanMove(env, d, moves)
    ensures CanRun(env, d.v, ActionsOf(moves))
    ensures RunActions(env, d.v, ActionsOf(moves)) == RunMoves(env, d, moves).v
  {
    if moves == [] {
    } else {
      hide Next, RunActions, CanRun;
      var front, move := moves[..|moves| - 1], moves[|moves| - 1];
      MovesFollowProtocol(env, d, front);
      match move {
        case Other(action) => OneMoreAction(env, d.v, ActionsOf(front), action);
        case Write => assert ActionsOf(front) + [] == ActionsOf(front);
        case Finish => OneMoreAction(env, d.v, ActionsOf(front), Append);
      }
    }
  }

  // ----- the file and the log of the protocol -----

  ghost predicate SameSession(j: Journal, j0: Journal) {
    && j.codec == j0.codec && j.policy == j0.policy && j.everyN == j0.everyN && j.openedAt == j0.openedAt
  }

  /** The file holds the protocol's log, and while an append is under way one record more; then the
      counter may be one above its bound. */
  ghost predicate InFile(d: Durable, j0: Journal) {
    && SameSession(d.j, j0) && d.j.Valid() && j0.openedAt <= |j0.lines| && d.j.Backlog() <= j0.Backlog()
    && if d.written then
         && d.v.phase.Executed? && d.v.phase.write.Some?
         && RequestsOf(d.j.Records()) == d.v.log + [d.v.phase.write.value]
         && d.j.nextSequence + 1 == NextSequence(d.j.Records())
         && (d.j.policy == ALWAYS ==> d.j.writes <= 1)
         && (d.j.policy == EVERY_N ==> d.j.writes <= 1 || d.j.writes <= d.j.everyN)
       else
         RequestsOf(d.j.Records()) == d.v.log && d.j.InSequence() && d.j.Bounded()
  }

  lemma OtherKeepsInFile(env: Env, d: Durable, j0: Journal, action: Action)
    requires d.v.store.WellFormed() && InFile(d, j0) && Possible(d, Other(action))
    ensures InFile(After(env, d, Other(action)), j0)
  {
    hide Execute, IsWrite, Decoded, NextSequence, Journal.Valid, Journal.Backlog, Journal.Records;
  }

  lemma WriteKeepsInFile(env: Env, d: Durable, j0: Journal)
    requires d.v.store.WellFormed() && InFile(d, j0) && Possible(d, Write)
    ensures InFile(After(env, d, Write), j0)
  {
    hide Decoded, NextSequence, Journal.Valid, Journal.Backlog, Journal.Records;
    WriteKeepsValid(d.j, d.v.phase.write.value);
    RequestsOfOneMore(d.j.Records(), LogRecord(d.j.nextSequence, d.v.phase.write.value));
  }

  lemma FinishKeepsInFile(env: Env, d: Durable, j0: Journal)
    requires d.v.store.WellFormed() && InFile(d, j0) && Possible(d, Finish)
    ensures InFile(After(env, d, Finish), j0)
  {
    hide Decoded, NextSequence, Journal.Backlog, Journal.Records;
    FinishKeepsValid(d.j);
    MachineStopLoses(d.j, d.j.synced);
  }

  lemma {:induction false} EveryMoveIsInFile(env: Env, store: Store, j0: Journal, moves: seq<Move>)
    requires store.WellFormed() && j0.Valid() && j0.InSequence() && j0.Bounded()
    requires CanMove(env, Opened(store, j0), moves)
    ensures InFile(RunMoves(env, Opened(store, j0), moves), j0)
  {
    if moves == [] {
    } else {
      hide After, Possible, InFile;
      var front, move := moves[..|moves| - 1], moves[|moves| - 1];
      var d := RunMoves(env, Opened(store, j0), front);
      EveryMoveIsInFile(env, store, j0, front);
      match move {
        case Other(action) => OtherKeepsInFile(env, d, j0, action);
        case Write => WriteKeepsInFile(env, d, j0);
        case Finish => FinishKeepsInFile(env, d, j0);
      }
    }
  }

  // ----- a machine that stops at any instant -----

  /** How much of the file is known to be on disk; a shutdown closes it. */
  function OnDisk(d: Durable): nat {
    if d.v.running then d.j.synced else d.j.Closed().synced
  }

  /** The log of the writes of everything answered, as the sequential worker leaves it. */
  ghost function AcknowledgedLog(env: Env, store: Store, j0: Journal, v: System): seq<Request>
    requires store.WellFormed()
  {
    SerialRun(env, StartSerial(store, RequestsOf(j0.Records())), Answered(v)).log
  }

  lemma LogsAtAnyInstant(env: Env, store: Store, j0: Journal, moves: seq<Move>)
    requires store.WellFormed() && j0.Valid() && j0.InSequence() && j0.Bounded()
    requires CanMove(env, Opened(store, j0), moves)
    ensures var d := RunMoves(env, Opened(store, j0), moves);
            var acknowledged, inFile := AcknowledgedLog(env, store, j0, d.v), RequestsOf(d.j.Records());
            && InFile(d, j0)
            && acknowledged <= d.v.log <= inFile && |inFile| <= |acknowledged| + 1
            && (d.v.phase.Idle? ==> acknowledged == inFile)
            && (d.written ==> |inFile| == |acknowledged| + 1)
            && (!d.v.running ==> d.v.phase.Idle?)
            && var serial := SerialRun(env, StartSerial(store, RequestsOf(j0.Records())), d.v.events);
               (inFile == acknowledged || inFile == serial.log) && d.v.delivered + d.v.replies <= serial.replies
  {
    hide RunMoves, CanMove, SerialRun, RunActions, Decoded, NextSequence, Journal.Valid, Journal.Backlog;
    var start, log := Opened(store, j0), RequestsOf(j0.Records());
    var v := RunMoves(env, start, moves).v;
    MovesFollowProtocol(env, start, moves);
    AcknowledgedWritesAreLogged(env, store, log, ActionsOf(moves));
    EveryRunIsLinear(env, store, log, ActionsOf(moves));
    EveryMoveIsInFile(env, store, j0, moves);
  }

  /** Wherever the worker is, with a line written and not synced or an answer not yet sent, the machine
      may stop.  If the session found nothing off disk, all acknowledged writes are left under ALWAYS,
      all but fewer than n under EVERY_N, and after a shutdown everything under both. */
  lemma StopKeepsAcknowledged(env: Env, store: Store, j0: Journal, moves: seq<Move>, survivors: nat)
    requires store.WellFormed() && j0.Valid() && j0.InSequence() && j0.Bounded() && j0.Backlog() == 0
    requires CanMove(env, Opened(store, j0), moves)
    requires var d := RunMoves(env, Opened(store, j0), moves);
             OnDisk(d) <= survivors <= |d.j.lines|
    ensures var d := RunMoves(env, Opened(store, j0), moves);
            var acknowledged, left := AcknowledgedLog(env, store, j0, d.v), M.Left(d.j, survivors);
            && (left <= acknowledged || acknowledged <= left)
            && (j0.policy == ALWAYS ==> acknowledged <= left)
            && (j0.policy == EVERY_N && j0.everyN >= 1 ==> |acknowledged| - |left| < j0.everyN)
            && (!d.v.running && j0.policy != NEVER ==> left == acknowledged)
  {
    hide RunMoves, CanMove, AcknowledgedLog, Decoded, NextSequence, Journal.Backlog, Journal.WorstLoss;
    var d := RunMoves(env, Opened(store, j0), moves);
    LogsAtAnyInstant(env, store, j0, moves);
    MachineStopLoses(d.j, d.j.synced);
    M.LeftIsPrefix(d.j, survivors);
    if !d.v.running && d.j.writes > 0 && j0.policy != NEVER {
      assert d.j.lines[..survivors] == d.j.lines;
    }
  }

  /** Under ALWAYS, if the session found nothing off disk, a machine that stops at any instant and then
      replays what is left gives back the store after a prefix of the history that covers every answered
      request and leaves out at most the one message in hand. */
  lemma StopLosesOnlyUnanswered(env: Env, earlier: seq<R.ServerStep>, j0: Journal, moves: seq<Move>, survivors: nat,
          latest: real, replay: nat -> Readings, first: real, spread: real)
    returns (done: seq<Event>)
    requires j0.Valid() && j0.InSequence() && j0.Bounded() && j0.Backlog() == 0 && j0.policy == ALWAYS
    requires RequestsOf(j0.Records()) == R.Run(env, earlier).log
    requires var start := Opened(R.Run(env, earlier).store, j0);
             && CanMove(env, start, moves)
             && var d := RunMoves(env, start, moves);
                && OnDisk(d) <= survivors <= |d.j.lines| && R.ReadBy(earlier + C.StepsOf(d.v.events), latest)
                && Spread(replay, |M.Left(d.j, survivors)|, first, spread)
    ensures var server := R.Run(env, earlier);
            var d := RunMoves(env, Opened(server.store, j0), moves);
            var serial := SerialRun(env, StartSerial(server.store, server.log), done);
            var left := M.Left(d.j, survivors);
            var spoiled, recovered := R.Spoiled(env, earlier + C.StepsOf(done)), Replayed(env, left, replay);
            && done <= d.v.events && |d.v.events| <= |done| + 1
            && d.v.delivered + d.v.replies <= serial.replies && serial.log == left
            && R.UntimedKeys(recovered) - spoiled == R.UntimedKeys(serial.store) - spoiled
            && forall k :: k !in spoiled && (k !in serial.store.data || Lasts(env, left, k, spread)) ==>
                 R.RecoversKey(serial.store, recovered, k)
  {
    hide R.Run, RunMoves, CanMove, SerialRun, R.Spoiled, R.ReadBy, Spread, R.RecoversKey, Replayed, Lasts;
    hide R.UntimedKeys, Decoded, Journal.Backlog, Journal.Valid;
    var server := R.Run(env, earlier);
    var d := RunMoves(env, Opened(server.store, j0), moves);
    LogsAtAnyInstant(env, server.store, j0, moves);
    StopKeepsAcknowledged(env, server.store, j0, moves, survivors);
    M.LeftIsPrefix(d.j, survivors);
    if M.Left(d.j, survivors) == AcknowledgedLog(env, server.store, j0, d.v) {
      done := Answered(d.v);
      AnsweredReplies(env, server.store, j0, moves);
    } else {
      done := d.v.events;
    }
    if done != d.v.events {
      var event := d.v.events[|d.v.events| - 1];
      assert earlier + C.StepsOf(d.v.events) == (earlier + C.StepsOf(done)) + C.StepOf(event);
      C.ReadByPrefix(earlier + C.StepsOf(done), C.StepOf(event), latest);
    }
    C.SerialRunIsServerRun(env, earlier, done);
    R.RecoverySimulatesLiveStore(env, earlier + C.StepsOf(done), latest, replay, first, spread);
  }

  lemma AnsweredReplies(env: Env, store: Store, j0: Journal, moves: seq<Move>)
    requires store.WellFormed() && j0.Valid() && CanMove(env, Opened(store, j0), moves)
    ensures var v, v0 := RunMoves(env, Opened(store, j0), moves).v, StartSerial(store, RequestsOf(j0.Records()));
            v.delivered + v.replies == SerialRun(env, v0, Answered(v)).replies
  {
    hide RunMoves, CanMove, SerialRun, RunActions, Decoded;
    MovesFollowProtocol(env, Opened(store, j0), moves);
    AcknowledgedWritesAreLogged(env, store, RequestsOf(j0.Records()), ActionsOf(moves));
  }

  // ----- exactly when -----

  /** A stop after these moves, with this much of the file, loses fewer than `bound` acknowledged writes. */
  ghost predicate StopsWithin(env: Env, store: Store, j0: Journal, moves: seq<Move>, survivors: nat, bound: int)
    requires store.WellFormed()
  {
    CanMove(env, Opened(store, j0), moves) ==>
      var d := RunMoves(env, Opened(store, j0), moves);
      OnDisk(d) <= survivors <= |d.j.lines| ==>
        |AcknowledgedLog(env, store, j0, d.v)| - |M.Left(d.j, survivors)| < bound
  }

  lemma OneMoreMove(env: Env, d: Durable, moves: seq<Move>, move: Move)
    requires d.v.store.WellFormed() && CanMove(env, d, moves) && Possible(RunMoves(env, d, moves), move)
    ensures CanMove(env, d, moves + [move])
    ensures RunMoves(env, d, moves + [move]) == After(env, RunMoves(env, d, moves), move)
  {
    hide After, Possible;
    assert (moves + [move])[..|moves|] == moves;
  }

  lemma SetIsWrite(env: Env, s: Store, readings: Readings)
    requires s.WellFormed()
    ensures IsWrite(Request(SET, ["k", "v"]), Execute(env, s, Request(SET, ["k", "v"]), readings).1)
  {
  }

  /** A worker that waits for its next message, having served `count` calls. */
  ghost predicate Waits(d: Durable, count: nat) {
    && d.v.running && d.v.phase.Idle? && d.v.requests == [] && !d.written
    && (forall c :: c in d.v.asked ==> c < count)
  }

  /** One call of SET, from the call to its answer. */
  lemma ServeOneSet(env: Env, d0: Durable, moves: seq<Move>, count: nat, readings: Readings)
    returns (more: seq<Move>)
    requires d0.v.store.WellFormed() && CanMove(env, d0, moves) && Waits(RunMoves(env, d0, moves), count)
    ensures CanMove(env, d0, more) && Waits(RunMoves(env, d0, more), count + 1)
    ensures RunMoves(env, d0, more).j == RunMoves(env, d0, moves).j.Appended(Request(SET, ["k", "v"]), false)
  {
    hide Execute, IsWrite, RunMoves, CanMove;
    var d, set0 := RunMoves(env, d0, moves), Request(SET, ["k", "v"]);
    SetIsWrite(env, d.v.store, readings);
    more := moves + [Other(Call(count, "", set0))];
    OneMoreMove(env, d0, moves, Other(Call(count, "", set0)));
    OneMoreMove(env, d0, more, Other(Take(readings)));
    more := more + [Other(Take(readings))];
    OneMoreMove(env, d0, more, Write);
    more := more + [Write];
    OneMoreMove(env, d0, more, Finish);
    more := more + [Finish];
    OneMoreMove(env, d0, more, Other(Respond));
    more := more + [Other(Respond)];
  }

  lemma {:induction false} ServeSets(env: Env, store: Store, j0: Journal, count: nat, readings: Readings)
    returns (moves: seq<Move>)
    requires store.WellFormed() && j0.Valid() && j0.InSequence() && j0.Bounded()
    requires j0.policy == EVERY_N && j0.writes + count < j0.everyN
    ensures CanMove(env, Opened(store, j0), moves) && Waits(RunMoves(env, Opened(store, j0), moves), count)
    ensures var j := RunMoves(env, Opened(store, j0), moves).j;
            && j.Valid() && j.policy == j0.policy && j.everyN == j0.everyN
            && j.writes == j0.writes + count && j.Backlog() == j0.Backlog()
  {
    if count == 0 {
      moves := [];
    } else {
      hide RunMoves, CanMove, Waits, Journal.Valid, Journal.Backlog;
      var front := ServeSets(env, store, j0, count - 1, readings);
      moves := ServeOneSet(env, Opened(store, j0), front, count - 1, readings);
      AppendKeepsBacklog(RunMoves(env, Opened(store, j0), front).j, Request(SET, ["k", "v"]));
    }
  }

  /** Exactly when a stop at any instant of any run keeps all acknowledged writes under ALWAYS, and all
      but fewer than n under EVERY_N: when no record that the session found is still off disk. */
  lemma StopsWithinExactly(env: Env, store: Store, j0: Journal, bound: int)
    requires store.WellFormed() && j0.Valid() && j0.InSequence() && j0.Bounded()
    requires (j0.policy == ALWAYS && bound == 1) || (j0.policy == EVERY_N && bound == j0.everyN && bound >= 1)
    ensures (forall moves, survivors: nat :: StopsWithin(env, store, j0, moves, survivors, bound)) <==>
            j0.Backlog() == 0
  {
    hide RunMoves, CanMove, AcknowledgedLog, M.Left, Waits, Decoded, Journal.Backlog;
    if j0.Backlog() == 0 {
      forall moves, survivors: nat ensures StopsWithin(env, store, j0, moves, survivors, bound) {
        StopWithin(env, store, j0, moves, survivors, bound);
      }
    } else {
      var moves := WorstStop(env, store, j0, bound);
      assert !StopsWithin(env, store, j0, moves, RunMoves(env, Opened(store, j0), moves).j.synced, bound);
    }
  }

  lemma StopWithin(env: Env, store: Store, j0: Journal, moves: seq<Move>, survivors: nat, bound: int)
    requires store.WellFormed() && j0.Valid() && j0.InSequence() && j0.Bounded() && j0.Backlog() == 0
    requires (j0.policy == ALWAYS && bound == 1) || (j0.policy == EVERY_N && bound == j0.everyN && bound >= 1)
    ensures StopsWithin(env, store, j0, moves, survivors, bound)
  {
    hide RunMoves, CanMove, AcknowledgedLog, M.Left, Decoded, Journal.Valid, Journal.Backlog;
    if CanMove(env, Opened(store, j0), moves) {
      var d := RunMoves(env, Opened(store, j0), moves);
      if OnDisk(d) <= survivors <= |d.j.lines| {
        StopKeepsAcknowledged(env, store, j0, moves, survivors);
      }
    }
  }

  lemma WorstStop(env: Env, store: Store, j0: Journal, bound: int) returns (moves: seq<Move>)
    requires store.WellFormed() && j0.Valid() && j0.InSequence() && j0.Bounded() && j0.Backlog() != 0
    requires (j0.policy == ALWAYS && bound == 1) || (j0.policy == EVERY_N && bound == j0.everyN && bound >= 1)
    ensures CanMove(env, Opened(store, j0), moves)
    ensures !StopsWithin(env, store, j0, moves, RunMoves(env, Opened(store, j0), moves).j.synced, bound)
  {
    hide RunMoves, CanMove, AcknowledgedLog, Decoded, Journal.Backlog, Journal.WorstLoss;
    MachineStopLoses(j0, |j0.lines|);
    if j0.policy == ALWAYS {
      moves := [];
      NoMoves(env, Opened(store, j0));
    } else {
      moves := ServeSets(env, store, j0, bound - 1 - j0.writes, (m: nat) => 0.0);
    }
    var d := RunMoves(env, Opened(store, j0), moves);
    LogsAtAnyInstant(env, store, j0, moves);
    MachineStopLoses(d.j, d.j.synced);
    LossOfLeft(d.j);
  }

  lemma LossOfLeft(j: Journal)
    requires j.synced <= |j.lines|
    ensures |RequestsOf(j.Records())| - |M.Left(j, j.synced)| == j.WorstLoss()
  {
    hide Decoded;
  }

  lemma NoMoves(env: Env, d: Durable)
    requires d.v.store.WellFormed()
    ensures CanMove(env, d, []) && RunMoves(env, d, []) == d
  {
  }
}
