/** The single-process server's dispatch and recovery: src/server.py. */
module Runtime {
  import opened Options
  import opened Types
  import opened Ticks
  import opened WheelSpec
  import opened StoreSpec
  import opened MemoryStores
  import opened Commands
  import opened Journals
  import opened Persistence
  import opened Replay
  import opened Sharding
  import R = RuntimeRecovery

  method WorkerExecuteCommand(env: Env, store: MemoryStore, call: Call) returns (response: Response)
    requires store.Valid()
    modifies store, store.timingWheel
    ensures store.Valid() && (store.timingWheel == old(store.timingWheel) || fresh(store.timingWheel))
    ensures (store.View(), response) == WorkerExecute(env, old(store.View()), call)
  {
    var _ := store.ProcessExpirations(call.readings(0));
    response := ExecuteCommand(env, call.request, store, (i: nat) => call.readings(i + 1));
  }

  const DEFAULT_FSYNC_EVERY_N := 100

  class LiteStoreRuntime {
    const env: Env
    const router: Router
    const stores: seq<MemoryStore>
    const persistence: AofPersistence

    /** The workers share nothing. */
    ghost predicate StoresValid()
      reads this, stores, set s | s in stores :: s.timingWheel
    {
      && router.Valid() && |stores| == router.workers
      && (forall i, j :: 0 <= i < j < |stores| ==>
            stores[i] != stores[j] && stores[i].timingWheel != stores[j].timingWheel)
      && (forall i :: 0 <= i < |stores| ==> stores[i].Valid())
    }

    ghost predicate Valid()
      reads this, stores, set s | s in stores :: s.timingWheel, persistence, persistence.file
    {
      StoresValid() && persistence.Valid()
    }

    ghost function Views(): (shards: seq<Store>)
      requires StoresValid()
      reads this, stores, set s | s in stores :: s.timingWheel
      ensures router.Valid() && |shards| == router.workers && AllWellFormed(shards)
    {
      seq(|stores|, i requires 0 <= i < |stores| reads stores, set s | s in stores :: s.timingWheel => stores[i].View())
    }

    /** A new store for every worker, and the log opened with the default policy. */
    constructor (env: Env, router: Router, codec: Codec, file: LogFile)
      requires router.Valid() && codec.RoundTrips() && file.synced <= |file.lines|
      ensures Valid() && this.env == env && this.router == router && persistence.file == file
      ensures Views() == NewShards(router.workers)
      ensures persistence.View() == Journal(codec, EVERY_N, 100, file.lines, file.synced, |file.lines|, 0,
                                            NextSequence(Decoded(codec, file.lines)))
      ensures Requests() == RequestsOf(Decoded(codec, file.lines))
    {
      var made: seq<MemoryStore> := [];
      for i := 0 to router.workers
        invariant |made| == i
        invariant forall s :: s in made ==> fresh(s) && fresh(s.timingWheel) && s.Valid() && s.View() == EmptyStore()
        invariant forall a, b :: 0 <= a < b < i ==> made[a] != made[b] && made[a].timingWheel != made[b].timingWheel
      {
        var store := new MemoryStore();
        made := made + [store];
      }
      this.env, this.router, stores := env, router, made;
      persistence := new AofPersistence(codec, file, EVERY_N, DEFAULT_FSYNC_EVERY_N);
    }

    method Execute(call: Call) returns (response: Response)
      requires StoresValid()
      modifies stores, set s | s in stores :: s.timingWheel
      ensures StoresValid() && WheelsKeptOrFresh()
      ensures (Views(), response) == Dispatch(env, router, old(Views()), call)
    {
      hide TickOf, Swept, WorkerExecute;
      var p := router.RouteRequest(call.request);
      response := WorkerExecuteCommand(env, stores[p], call);
      assert Views() == old(Views())[p := stores[p].View()];
    }

    twostate predicate WheelsKeptOrFresh()
      reads this, stores
    {
      forall s :: s in stores ==> s.timingWheel == old(s.timingWheel) || fresh(s.timingWheel)
    }

    /** The logged requests. */
    ghost function Requests(): seq<Request>
      reads this, persistence, persistence.file
    {
      RequestsOf(persistence.View().Records())
    }

    /** The server as the value whose runs are studied. */
    ghost function View(): (v: R.Server)
      requires Valid()
      reads this, stores, set s | s in stores :: s.timingWheel, persistence, persistence.file
      ensures R.WellFormed(router, v)
    {
      R.Server(Views(), Requests())
    }

    method LogWrite(request: Request, fault: R.StorageFault) returns (logged: bool)
      requires persistence.Valid()
      modifies persistence, persistence.file
      ensures persistence.Valid()
      ensures persistence.View() == (if fault == R.WRITE_FAILS then old(persistence.View())
                                     else old(persistence.View()).Appended(request, fault == R.SYNC_FAILS))
      ensures Requests() == (if fault == R.WRITE_FAILS then old(Requests()) else old(Requests()) + [request])
      ensures logged <==> !(fault == R.WRITE_FAILS || (fault == R.SYNC_FAILS && old(persistence.View()).SyncsNext()))
    {
      hide Decoded, NextSequence;
      if fault == R.WRITE_FAILS {
        return false;
      }
      RequestsOfOneMore(persistence.View().Records(), LogRecord(persistence.nextSequence, request));
      var record := persistence.AppendRequest(request, fault == R.SYNC_FAILS);
      return record.Some?;
    }

    /** Executes on the routed worker, then logs a write.  A storage error answers an error over the
        changed store; if it was the fsync that failed, the write is in the log all the same. */
    method DispatchRequest(call: Call, fault: R.StorageFault) returns (response: Option<Response>)
      requires Valid()
      modifies stores, set s | s in stores :: s.timingWheel, persistence, persistence.file
      ensures Valid() && WheelsKeptOrFresh()
      ensures var (shards, answer) := Dispatch(env, router, old(Views()), call);
              var write, log := IsWrite(call.request, answer), old(persistence.View());
              && Views() == shards
              && persistence.View() == (if !write || fault == R.WRITE_FAILS then log
                                        else log.Appended(call.request, fault == R.SYNC_FAILS))
              && Requests() == (if !write || fault == R.WRITE_FAILS then old(Requests())
                                else old(Requests()) + [call.request])
              && (response == None <==> write && (fault == R.WRITE_FAILS || (fault == R.SYNC_FAILS && log.SyncsNext())))
              && (response == None || response == Some(answer))
      ensures View() == R.Do(env, router, old(View()), R.Serve(call, fault))
    {
      hide TickOf, Swept, WorkerExecute, Dispatch, Decoded, NextSequence, StoresValid, Views;
      hide Journal.Appended, Journal.Valid;
      var answer := Execute(call);
      if !IsWrite(call.request, answer) {
        return Some(answer);
      }
      var logged := LogWrite(call.request, fault);
      return if logged then Some(answer) else None;
    }

    /** Replays the shared log through the router, by executing it. */
    method ReplayPersistence(readings: nat -> Readings)
      requires Valid()
      modifies stores, set s | s in stores :: s.timingWheel
      ensures Valid() && WheelsKeptOrFresh()
      ensures old(Views()) == NewShards(router.workers) ==>
        View() == R.Do(env, router, old(View()), R.Restart(readings))
      ensures Views() == ShardRun(env, router, old(Views()), R.CallsOf(Requests(), readings)).0
    {
      hide TickOf, Swept, WorkerExecute, Dispatch, StoresValid, Views, Journal.Valid;
      var records := persistence.Replay();
      ghost var calls := R.CallsOf(Requests(), readings);
      for i := 0 to |records|
        invariant Valid() && WheelsKeptOrFresh()
        invariant Views() == ShardRun(env, router, old(Views()), calls[..i]).0
      {
        assert calls[..i + 1][..i] == calls[..i];
        var _ := Execute(Call(records[i].request, readings(i)));
      }
      assert calls[..|records|] == calls;
    }
  }
}
