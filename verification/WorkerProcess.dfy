/** The worker process and the pool's side of its queues: src/process_worker.py, src/worker_pool.py. */
module WorkerProcesses {
  import opened Types
  import opened Ticks
  import opened WheelSpec
  import opened StoreSpec
  import opened MemoryStores
  import opened Commands
  import opened Journals
  import opened Persistence
  import opened Replay
  import opened WorkerProtocol

  /** The pair of queues that the main process and one worker share. */
  class WorkerHandle {
    var requestQueue: seq<Message>
    var responseQueue: seq<Reply>

    constructor ()
      ensures requestQueue == [] && responseQueue == []
    {
      requestQueue, responseQueue := [], [];
    }
  }

  /** One wait on the request queue: what other processes put on it meanwhile, and the clock
      readings of the iteration. */
  datatype Poll = Poll(arrivals: seq<Message>, readings: Readings, now: real, drainAt: real)

  function Arrivals(polls: seq<Poll>): seq<Message> {
    if polls == [] then [] else Arrivals(polls[..|polls| - 1]) + polls[|polls| - 1].arrivals
  }

  /** The loop of a worker: what waits, when it last expired keys, whether it runs, what it has done. */
  datatype Loop = Loop(queue: seq<Message>, lastExpiration: real, running: bool, events: seq<Event>)

  /** One wait: a message if there is one, then an expiration cycle if the last is long enough ago. */
  function LoopStep(v: Loop, poll: Poll): Loop {
    var queue, due := v.queue + poll.arrivals, poll.now - v.lastExpiration > 0.1;
    Loop(if queue == [] then [] else queue[1..],
         if due then poll.now else v.lastExpiration,
         v.running && (queue == [] || queue[0] != Shutdown),
         v.events + (if queue == [] then [] else [Took(queue[0], poll.readings)])
         + if due then [Drained(poll.drainAt)] else [])
  }

  function LoopRun(queue: seq<Message>, startedAt: real, polls: seq<Poll>): Loop {
    if polls == [] then Loop(queue, startedAt, true, [])
    else LoopStep(LoopRun(queue, startedAt, polls[..|polls| - 1]), polls[|polls| - 1])
  }

  /** After every wait, busy or not, the last expiration cycle is at most a tenth of a second ago, and
      it is one that has drained the store; and no cycle follows another within a tenth of a second. */
  lemma {:induction false} ExpirationsKeepUp(queue: seq<Message>, startedAt: real, polls: seq<Poll>)
    ensures var v := LoopRun(queue, startedAt, polls);
            && (polls != [] ==>
                  var now, before := polls[|polls| - 1].now, LoopRun(queue, startedAt, polls[..|polls| - 1]);
                  && now - v.lastExpiration <= 0.1
                  && (v.lastExpiration == before.lastExpiration || now - before.lastExpiration > 0.1))
            && (v.lastExpiration == startedAt || exists i :: (
                  0 <= i < |polls| && polls[i].now == v.lastExpiration && Drained(polls[i].drainAt) in v.events))
  {
    if polls == [] {
    } else {
      var front, poll := polls[..|polls| - 1], polls[|polls| - 1];
      ExpirationsKeepUp(queue, startedAt, front);
      var before, v := LoopRun(queue, startedAt, front), LoopRun(queue, startedAt, polls);
      assert forall e :: e in before.events ==> e in v.events;
      if poll.now - before.lastExpiration > 0.1 {
        assert v.events[|v.events| - 1] == Drained(poll.drainAt);
      } else if before.lastExpiration != startedAt {
        var i :| 0 <= i < |front| && front[i].now == before.lastExpiration
                 && Drained(front[i].drainAt) in before.events;
        assert polls[i] == front[i];
      }
    }
  }

  /** How many messages wait after these polls: each wait that finds one takes one. */
  function Waiting(queued: nat, polls: seq<Poll>): nat {
    if polls == [] then queued
    else
      var waiting := Waiting(queued, polls[..|polls| - 1]) + |polls[|polls| - 1].arrivals|;
      if waiting == 0 then 0 else waiting - 1
  }

  /** Whatever arrives, every wait brings the messages that were queued first one step on. */
  lemma {:induction false} WaitingProgress(queued: nat, polls: seq<Poll>)
    ensures queued + |Arrivals(polls)| - Waiting(queued, polls) >= if |polls| <= queued then |polls| else queued
  {
    if polls == [] {
    } else {
      WaitingProgress(queued, polls[..|polls| - 1]);
    }
  }

  /** The sequential worker runs until it takes a shutdown. */
  lemma {:induction false} RunsUntilShutdown(env: Env, start: Serial, events: seq<Event>)
    requires start.store.WellFormed()
    ensures SerialRun(env, start, events).running <==> start.running && Shutdown !in Messages(events)
  {
    hide Execute, IsWrite;
    if events == [] {
    } else {
      RunsUntilShutdown(env, start, events[..|events| - 1]);
    }
  }

  class WorkerProcess {
    const env: Env
    const handle: WorkerHandle
    const store: MemoryStore
    const persistence: AofPersistence
    var running: bool

    /** Until it stops and closes the log, the worker keeps the numbering and the fsync counter right. */
    ghost predicate Valid()
      reads this, store, store.timingWheel, persistence, persistence.file
    {
      && store.Valid()
      && (running ==> persistence.Valid() && persistence.View().Bounded() && persistence.View().InSequence())
    }

    /** The worker as the sequential worker of the protocol. */
    ghost function View(): (v: Serial)
      requires Valid()
      reads this, handle, store, store.timingWheel, persistence, persistence.file
      ensures v.store.WellFormed()
    {
      Serial(store.View(), handle.responseQueue,
             RequestsOf(Decoded(persistence.codec, persistence.file.lines)), running)
    }

    constructor (env: Env, handle: WorkerHandle, codec: Codec, file: LogFile, policy: FsyncPolicy, everyN: int)
      requires codec.RoundTrips() && file.synced <= |file.lines|
      ensures Valid() && this.env == env && this.handle == handle && persistence.file == file
      ensures fresh(store) && fresh(store.timingWheel) && fresh(persistence)
      ensures View() == Serial(EmptyStore(), handle.responseQueue, RequestsOf(Decoded(codec, file.lines)), true)
      ensures persistence.View() == Journal(codec, policy, everyN, file.lines, file.synced, |file.lines|, 0,
                                            NextSequence(Decoded(codec, file.lines)))
    {
      this.env, this.handle := env, handle;
      store := new MemoryStore();
      persistence := new AofPersistence(codec, file, policy, everyN);
      running := true;
    }

    /** While it runs, the worker has nothing off disk of what it found in the file; and once stopped,
        nothing at all, unless its policy is NEVER. */
    ghost predicate Safe()
      reads this, persistence, persistence.file
    {
      if running then persistence.openedAt <= |persistence.file.lines| && persistence.View().Backlog() == 0
      else persistence.file.synced <= |persistence.file.lines|
           && (persistence.fsyncPolicy != NEVER ==> persistence.View().WorstLoss() == 0)
    }

    method HandleRequest(id: string, request: Request, readings: Readings)
      requires Valid() && running
      modifies handle, store, store.timingWheel, persistence, persistence.file
      ensures Valid() && (store.timingWheel == old(store.timingWheel) || fresh(store.timingWheel))
      ensures handle.requestQueue == old(handle.requestQueue)
      ensures View() == SerialStep(env, old(View()), Took(Submit(id, request), readings))
      ensures persistence.View() == if IsWrite(request, Execute(env, old(store.View()), request, readings).1)
                                    then old(persistence.View()).Appended(request, false)
                                    else old(persistence.View())
      ensures running && (old(Safe()) ==> Safe())
    {
      hide TickOf, Swept, Execute, IsWrite, OnWire, Decoded;
      hide Journal.Appended, Journal.Valid, Journal.Bounded, Journal.InSequence, Journal.Backlog;
      var response := ExecuteCommand(env, request, store, readings);
      if IsWrite(request, response) {
        RequestsOfOneMore(Decoded(persistence.codec, persistence.file.lines),
                          LogRecord(persistence.nextSequence, request));
        AppendStaysOpen(persistence.View(), request);
        var _ := persistence.AppendRequest(request, false);
      }
      handle.responseQueue := handle.responseQueue + [Answer(id, OnWire(response))];
    }

    method HandleControl(message: Message, readings: Readings)
      requires Valid() && running && !message.Submit?
      modifies this, handle, store, store.timingWheel, persistence.file`synced
      ensures Valid() && store.timingWheel == old(store.timingWheel)
      ensures handle.requestQueue == old(handle.requestQueue)
      ensures View() == SerialStep(env, old(View()), Took(message, readings))
      ensures persistence.View() == if message.Shutdown? then old(persistence.View()).Closed()
                                    else old(persistence.View())
      ensures running <==> !message.Shutdown?
      ensures old(Safe()) ==> Safe()
    {
      hide Journal.Backlog, Decoded, NextSequence;
      if message.Shutdown? {
        MachineStopLoses(persistence.View(), persistence.file.synced);
        running := false;
        persistence.Close();
      } else if message.Snapshot? {
        var copy := store.Snapshot(readings(0));
        handle.responseQueue := handle.responseQueue + [SnapshotAnswer(SnapshotId(message.tag), copy)];
      }
    }

    /** Takes the first waiting message and handles it. */
    method HandleNext(readings: Readings) returns (message: Message)
      requires Valid() && running && handle.requestQueue != []
      modifies this, handle, store, store.timingWheel, persistence, persistence.file
      ensures Valid() && (store.timingWheel == old(store.timingWheel) || fresh(store.timingWheel))
      ensures [message] + handle.requestQueue == old(handle.requestQueue)
      ensures View() == SerialStep(env, old(View()), Took(message, readings))
      ensures running <==> message != Shutdown
      ensures old(Safe()) ==> Safe()
    {
      hide Safe, Valid, SerialStep;
      message := handle.requestQueue[0];
      handle.requestQueue := handle.requestQueue[1..];
      if message.Submit? {
        HandleRequest(message.id, message.request, readings);
      } else {
        HandleControl(message, readings);
      }
    }

    /** The expiration cycle that follows every wait, when the last one is long enough ago. */
    method ExpireIfDue(poll: Poll, lastExpiration: real) returns (expired: bool)
      requires Valid()
      modifies store, store.timingWheel
      ensures Valid() && store.timingWheel == old(store.timingWheel)
      ensures expired <==> poll.now - lastExpiration > 0.1
      ensures View() == if expired then SerialStep(env, old(View()), Drained(poll.drainAt)) else old(View())
    {
      expired := poll.now - lastExpiration > 0.1;
      if expired {
        var _ := store.ProcessExpirations(poll.drainAt);
      }
    }

    method ReplayLog(readings: nat -> Readings)
      requires Valid() && running && store.View() == EmptyStore()
      modifies store, store.timingWheel
      ensures Valid() && (store.timingWheel == old(store.timingWheel) || fresh(store.timingWheel))
      ensures View() == old(View()).(store := Replayed(env, old(View()).log, readings))
    {
      hide TickOf, Swept, Replayed;
      var records := persistence.Replay();
      ReplayedNone(env, readings);
      ghost var log := RequestsOf(records);
      for i := 0 to |records|
        invariant Valid() && (store.timingWheel == old(store.timingWheel) || fresh(store.timingWheel))
        invariant View() == old(View()).(store := Replayed(env, log[..i], readings))
      {
        assert log[..i + 1] == log[..i] + [records[i].request];
        ReplayedOneMore(env, log[..i], records[i].request, readings);
        store.ApplyReplayRequest(env, records[i].request, readings(i));
      }
      assert log[..|records|] == log;
    }

    /** The main loop, for as long as the worker runs or `polls` lasts: the messages that were queued or
        arrive are handled in order over the replayed store, one at every wait that finds one, and what
        is not handled still waits.  The worker stops when it handles a shutdown, so a queued shutdown
        stops it after as many waits as there are messages in the queue. */
    method Run(replay: nat -> Readings, startedAt: real, polls: seq<Poll>)
      returns (waits: nat, ghost events: seq<Event>)
      requires Valid() && running && store.View() == EmptyStore()
      modifies this, handle, store, store.timingWheel, persistence, persistence.file
      ensures Valid() && waits <= |polls| && (running ==> waits == |polls|)
      ensures var start := old(View()).(store := Replayed(env, old(View()).log, replay));
              View() == SerialRun(env, start, events)
      ensures old(handle.requestQueue) + Arrivals(polls[..waits]) == Messages(events) + handle.requestQueue
      ensures |handle.requestQueue| == Waiting(|old(handle.requestQueue)|, polls[..waits])
      ensures running <==> Shutdown !in Messages(events)
      ensures Shutdown in old(handle.requestQueue) && |old(handle.requestQueue)| <= |polls| ==> !running
      ensures events == LoopRun(old(handle.requestQueue), startedAt, polls[..waits]).events
      ensures old(Safe()) ==> Safe()
    {
      hide SerialStep, SerialRun, Messages, Replayed, TickOf, Swept, Journal.Valid, Journal.Bounded, Waiting, Arrivals;
      hide Decoded, Valid, Safe, LoopStep;
      ReplayLog(replay);
      ghost var start := View();
      NoEvents(env, start);
      var lastExpiration := startedAt;
      events := [];
      waits := 0;
      NoArrivals(polls, |handle.requestQueue|);
      while running && waits < |polls|
        invariant Valid() && (store.timingWheel == old(store.timingWheel) || fresh(store.timingWheel))
        invariant waits <= |polls|
        invariant View() == SerialRun(env, start, events)
        invariant old(handle.requestQueue) + Arrivals(polls[..waits]) == Messages(events) + handle.requestQueue
        invariant |handle.requestQueue| == Waiting(|old(handle.requestQueue)|, polls[..waits])
        invariant LoopRun(old(handle.requestQueue), startedAt, polls[..waits])
               == Loop(handle.requestQueue, lastExpiration, running, events)
        invariant old(Safe()) ==> Safe()
        decreases |polls| - waits
      {
        ghost var queue, taken := handle.requestQueue, Messages(events);
        assert polls[..waits + 1][..waits] == polls[..waits];
        ArrivalsOneMore(polls, waits, |old(handle.requestQueue)|);
        lastExpiration, events := Iterate(polls[waits], lastExpiration, start, events);
        assert old(handle.requestQueue) + (Arrivals(polls[..waits]) + polls[waits].arrivals)
            == taken + queue + polls[waits].arrivals;
        waits := waits + 1;
      }
      RunsUntilShutdown(env, start, events);
      if running {
        assert polls[..waits] == polls;
        QueuedIsHandled(old(handle.requestQueue), polls, Messages(events), handle.requestQueue);
      }
    }

    method Iterate(poll: Poll, lastExpiration: real, ghost start: Serial, ghost before: seq<Event>)
      returns (lastExpiration': real, ghost events: seq<Event>)
      requires Valid() && running && start.store.WellFormed() && View() == SerialRun(env, start, before)
      modifies this, handle, store, store.timingWheel, persistence, persistence.file
      ensures Valid() && (store.timingWheel == old(store.timingWheel) || fresh(store.timingWheel))
      ensures View() == SerialRun(env, start, events)
      ensures Messages(before) + old(handle.requestQueue) + poll.arrivals == Messages(events) + handle.requestQueue
      ensures var waiting := |old(handle.requestQueue)| + |poll.arrivals|;
              |handle.requestQueue| == if waiting == 0 then 0 else waiting - 1
      ensures Loop(handle.requestQueue, lastExpiration', running, events)
           == LoopStep(Loop(old(handle.requestQueue), lastExpiration, true, before), poll)
      ensures old(Safe()) ==> Safe()
    {
      hide SerialStep, SerialRun, Messages, Valid, Safe;
      events := before;
      handle.requestQueue := handle.requestQueue + poll.arrivals;
      assert Messages(before) + old(handle.requestQueue) + poll.arrivals == Messages(events) + handle.requestQueue;
      if handle.requestQueue != [] {
        ghost var queue := handle.requestQueue;
        var message := HandleNext(poll.readings);
        SerialRunOneMore(env, start, events, Took(message, poll.readings));
        MessagesOneMore(events, Took(message, poll.readings));
        assert Messages(before) + queue == Messages(before) + [message] + handle.requestQueue;
        events := events + [Took(message, poll.readings)];
      }
      lastExpiration' := lastExpiration;
      var expired := ExpireIfDue(poll, lastExpiration);
      if expired {
        SerialRunOneMore(env, start, events, Drained(poll.drainAt));
        MessagesOneMore(events, Drained(poll.drainAt));
        assert Messages(events) + [] == Messages(events);
        events := events + [Drained(poll.drainAt)];
        lastExpiration' := poll.now;
      }
    }
  }

  /** With as many waits as there are messages queued, all of those are handled. */
  lemma QueuedIsHandled(queue: seq<Message>, polls: seq<Poll>, handled: seq<Message>, left: seq<Message>)
    requires queue + Arrivals(polls) == handled + left && |left| == Waiting(|queue|, polls)
    ensures |queue| <= |polls| ==> queue <= handled
  {
    hide Waiting, Arrivals;
    WaitingProgress(|queue|, polls);
    var arrived := Arrivals(polls);
    assert |handled| == |queue| + |arrived| - |left|;
    assert forall i :: 0 <= i < |queue| && i < |handled| ==> handled[i] == (handled + left)[i] == (queue + arrived)[i];
  }

  lemma NoArrivals(polls: seq<Poll>, queued: nat)
    ensures Arrivals(polls[..0]) == [] && Waiting(queued, polls[..0]) == queued
  {
  }

  lemma ArrivalsOneMore(polls: seq<Poll>, n: nat, queued: nat)
    requires n < |polls|
    ensures Arrivals(polls[..n + 1]) == Arrivals(polls[..n]) + polls[n].arrivals
    ensures var waiting := Waiting(queued, polls[..n]) + |polls[n].arrivals|;
            Waiting(queued, polls[..n + 1]) == if waiting == 0 then 0 else waiting - 1
  {
    assert polls[..n + 1][..n] == polls[..n];
  }

  // ----- the pool's side -----

  /** The handle's queues are those of a state of the protocol. */
  ghost predicate Shows(handle: WorkerHandle, v: System)
    reads handle
  {
    handle.requestQueue == v.requests && handle.responseQueue == v.replies
  }

  class WorkerPool {
    const handles: seq<WorkerHandle>

    ghost predicate Valid() {
      forall i, j :: 0 <= i < j < |handles| ==> handles[i] != handles[j]
    }

    constructor (workerCount: nat)
      ensures Valid() && |handles| == workerCount
      ensures forall h :: h in handles ==> fresh(h) && h.requestQueue == [] && h.responseQueue == []
    {
      var made: seq<WorkerHandle> := [];
      for i := 0 to workerCount
        invariant |made| == i && forall a, b :: 0 <= a < b < i ==> made[a] != made[b]
        invariant forall h :: h in made ==> fresh(h) && h.requestQueue == [] && h.responseQueue == []
      {
        var handle := new WorkerHandle();
        made := made + [handle];
      }
      handles := made;
    }

    /** The first half of `execute` is the protocol's Call on the queues of that worker. */
    method Send(worker: nat, ghost caller: Caller, id: string, request: Request, ghost env: Env, ghost v: System)
      requires worker < |handles| && v.store.WellFormed() && Shows(handles[worker], v)
      requires Enabled(v, Call(caller, id, request))
      modifies handles[worker]
      ensures Shows(handles[worker], Next(env, v, Call(caller, id, request)))
    {
      handles[worker].requestQueue := handles[worker].requestQueue + [Submit(id, request)];
    }

    /** The second half is its Deliver. */
    method Receive(worker: nat, ghost caller: Caller, ghost env: Env, ghost v: System) returns (reply: Reply)
      requires worker < |handles| && v.store.WellFormed() && Shows(handles[worker], v)
      requires Enabled(v, Deliver(caller))
      modifies handles[worker]
      ensures Shows(handles[worker], Next(env, v, Deliver(caller)))
      ensures Next(env, v, Deliver(caller)).delivered == v.delivered + [reply]
    {
      reply := handles[worker].responseQueue[0];
      handles[worker].responseQueue := handles[worker].responseQueue[1..];
    }

    /** A whole `execute`, between what happened `before` and what other callers and the worker do
        `meanwhile`, which leaves `requests` and `replies` in the queues.  The reply is the caller's
        own when it is taken in turn, and, identifiers being distinct, only then. */
    method Execute(worker: nat, ghost caller: Caller, id: string, request: Request, requests: seq<Message>,
            replies: seq<Reply>, ghost env: Env, ghost store: Store, ghost log: seq<Request>,
            ghost before: seq<Action>, ghost meanwhile: seq<Action>)
      returns (reply: Reply)
      requires worker < |handles| && store.WellFormed()
      requires var start, called := Start(store, log), before + [Call(caller, id, request)];
               && CanRun(env, start, before) && CanRun(env, start, called) && CanRun(env, start, called + meanwhile)
               && Shows(handles[worker], RunActions(env, start, before))
               && var then' := RunActions(env, start, called + meanwhile);
                  then'.requests == requests && then'.replies == replies && Enabled(then', Deliver(caller))
      modifies handles[worker]
      ensures var start := Start(store, log);
              var actions := before + [Call(caller, id, request)] + meanwhile + [Deliver(caller)];
              && CanRun(env, start, actions)
              && var v := RunActions(env, start, actions);
                 && Shows(handles[worker], v)
                 && v.delivered != [] && v.delivered[|v.delivered| - 1] == reply
                 && (TakenInTurn(v, |v.delivered| - 1) ==> reply.id == id)
                 && (Distinct(Ids(v.submitted)) ==> (reply.id == id <==> TakenInTurn(v, |v.delivered| - 1)))
    {
      hide RunActions, CanRun, Ids, Commands.Execute, IsWrite;
      ghost var start, called := Start(store, log), before + [Call(caller, id, request)];
      BeforeLastAction(env, start, before, Call(caller, id, request));
      Send(worker, caller, id, request, env, RunActions(env, start, before));
      handles[worker].requestQueue, handles[worker].responseQueue := requests, replies;
      ghost var then' := RunActions(env, start, called + meanwhile);
      reply := Receive(worker, caller, env, then');
      OneMoreAction(env, start, called + meanwhile, Deliver(caller));
      AskedStays(env, start, called, meanwhile, caller);
      EveryRunIsAccounted(env, store, log, called + meanwhile);
      OwnReplyExactly(env, store, log, called + meanwhile + [Deliver(caller)], |then'.delivered|);
    }

    method ShutdownAll()
      requires Valid()
      modifies handles
      ensures forall i :: 0 <= i < |handles| ==> handles[i].responseQueue == old(handles[i].responseQueue)
      ensures forall i :: 0 <= i < |handles| ==>
                handles[i].requestQueue == old(handles[i].requestQueue) + [Shutdown]
    {
      for n := 0 to |handles|
        invariant forall i :: 0 <= i < |handles| ==>
          handles[i].requestQueue == old(handles[i].requestQueue) + if i < n then [Shutdown] else []
        invariant forall i :: 0 <= i < |handles| ==> handles[i].responseQueue == old(handles[i].responseQueue)
      {
        handles[n].requestQueue := handles[n].requestQueue + [Shutdown];
      }
    }
  }
}
