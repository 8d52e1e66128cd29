/**
 One worker process and its two queues as a step system: callers in the main process put requests
 and wait for replies while the worker handles one message at a time (src/worker_pool.py,
 src/process_worker.py).  A reply goes to whichever waiting caller takes it first.
 The steps inside the handling of a request are separate, so a crash can fall between any two.
 */
module WorkerProtocol {
  import opened Options
  import opened Types
  import opened StoreSpec
  import opened Commands
  import opened Replay

  datatype Message =
    | Submit(id: string, request: Request)
    | Snapshot(tag: Option<string>)
    | Shutdown
    | OtherControl

  datatype Reply =
    | Answer(id: string, response: Response)
    | SnapshotAnswer(id: string, data: map<string, string>)

  /** A WorkerResponse has no field for the values of an array, so they do not reach the caller. */
  function OnWire(response: Response): Response {
    match response
    case Array(_) => Array([])
    case Names(_) => Array([])
    case _ => response
  }

  const SNAPSHOT_ID := "__snapshot__"

  predicate Answerable(message: Message) {
    message.Submit? || message.Snapshot?
  }

  /** A missing or empty identifier is replaced. */
  function SnapshotId(tag: Option<string>): string {
    if tag == None || tag == Some("") then SNAPSHOT_ID else tag.value
  }

  function IdOf(message: Message): string
    requires Answerable(message)
  {
    match message
    case Submit(id, _) => id
    case Snapshot(tag) => SnapshotId(tag)
  }

  /** The identifiers of the messages that call for a reply, in order. */
  function Ids(messages: seq<Message>): seq<string> {
    if messages == [] then []
    else
      var m := messages[|messages| - 1];
      Ids(messages[..|messages| - 1]) + if Answerable(m) then [IdOf(m)] else []
  }

  function ReplyIds(replies: seq<Reply>): seq<string> {
    seq(|replies|, i requires 0 <= i < |replies| => replies[i].id)
  }

  // ----- the sequential meaning of a history -----

  /** What the worker has done to its store, in order. */
  datatype Event = Took(message: Message, readings: Readings) | Drained(now: real)

  /** A worker that does everything at once: the store, the replies, the log and whether it runs. */
  datatype Serial = Serial(store: Store, replies: seq<Reply>, log: seq<Request>, running: bool)

  ghost function SerialStep(env: Env, v: Serial, event: Event): (v': Serial)
    requires v.store.WellFormed()
    ensures v'.store.WellFormed()
  {
    match event
    case Drained(now) => v.(store := v.store.AfterExpirations(now))
    case Took(Submit(id, request), readings) =>
      var (s', response) := Execute(env, v.store, request, readings);
      Serial(s', v.replies + [Answer(id, OnWire(response))],
             if IsWrite(request, response) then v.log + [request] else v.log, v.running)
    case Took(Snapshot(tag), readings) =>
      var s' := v.store.AfterExpirations(readings(0));
      v.(store := s', replies := v.replies + [SnapshotAnswer(SnapshotId(tag), s'.data)])
    case Took(Shutdown, _) => v.(running := false)
    case Took(OtherControl, _) => v
  }

  ghost function SerialRun(env: Env, v: Serial, events: seq<Event>): (v': Serial)
    requires v.store.WellFormed()
    ensures v'.store.WellFormed()
  {
    if events == [] then v
    else SerialStep(env, SerialRun(env, v, events[..|events| - 1]), events[|events| - 1])
  }

  function Messages(events: seq<Event>): seq<Message> {
    if events == [] then []
    else
      var e := events[|events| - 1];
      Messages(events[..|events| - 1]) + if e.Took? then [e.message] else []
  }

  // ----- the step system -----

  datatype Phase =
    | Idle
    | Executed(reply: Reply, write: Option<Request>)  // the store is changed, nothing is logged yet
    | Logged(reply: Reply)                            // ready to reply

  /** One call of `execute`. */
  type Caller = nat

  datatype System = System(
    requests: seq<Message>,   // the request queue
    phase: Phase,
    replies: seq<Reply>,      // the response queue
    store: Store,
    log: seq<Request>,
    running: bool,
    // history, for the properties only
    submitted: seq<Message>,
    callers: seq<Option<Caller>>,  // who waits for each answerable message; nobody for a snapshot
    asked: map<Caller, string>,    // the identifier of each call
    events: seq<Event>,
    delivered: seq<Reply>,
    takers: seq<Caller>)           // who took each reply delivered

  datatype Action =
    | Call(caller: Caller, id: string, request: Request)
    | Control(message: Message)
    | Take(readings: Readings)
    | Append
    | Respond
    | Cycle(now: real)
    | Deliver(caller: Caller)

  ghost predicate Enabled(v: System, action: Action) {
    match action
    case Call(caller, _, _) => caller !in v.asked
    case Control(message) => !message.Submit?
    case Take(_) => v.running && v.phase.Idle? && v.requests != []
    case Append => v.phase.Executed?
    case Respond => v.phase.Logged?
    case Cycle(_) => v.phase.Idle?  // also once more after a shutdown
    case Deliver(caller) => caller in v.asked && caller !in v.takers && v.replies != []
  }

  ghost function Next(env: Env, v: System, action: Action): (v': System)
    requires v.store.WellFormed() && Enabled(v, action)
    ensures v'.store.WellFormed()
  {
    match action
    case Call(caller, id, request) =>
      var message := Submit(id, request);
      v.(requests := v.requests + [message], submitted := v.submitted + [message],
         callers := v.callers + [Some(caller)], asked := v.asked[caller := id])
    case Control(message) =>
      v.(requests := v.requests + [message], submitted := v.submitted + [message],
         callers := if Answerable(message) then v.callers + [None] else v.callers)
    case Take(readings) =>
      var message := v.requests[0];
      var v1 := v.(requests := v.requests[1..], events := v.events + [Took(message, readings)]);
      (match message
       case Submit(id, request) =>
         var (s', response) := Execute(env, v.store, request, readings);
         v1.(store := s',
             phase := Executed(Answer(id, OnWire(response)),
                               if IsWrite(request, response) then Some(request) else None))
       case Snapshot(tag) =>
         var s' := v.store.AfterExpirations(readings(0));
         v1.(store := s', phase := Logged(SnapshotAnswer(SnapshotId(tag), s'.data)))
       case Shutdown => v1.(running := false)
       case OtherControl => v1)
    case Append =>
      v.(log := if v.phase.write.Some? then v.log + [v.phase.write.value] else v.log,
         phase := Logged(v.phase.reply))
    case Respond => v.(replies := v.replies + [v.phase.reply], phase := Idle)
    case Cycle(now) =>
      v.(store := v.store.AfterExpirations(now), events := v.events + [Drained(now)])
    case Deliver(caller) =>
      v.(replies := v.replies[1..], delivered := v.delivered + [v.replies[0]], takers := v.takers + [caller])
  }

  /** The worker as it starts, after replaying its log. */
  function Start(store: Store, log: seq<Request>): System {
    System([], Idle, [], store, log, true, [], [], map[], [], [], [])
  }

  ghost predicate CanRun(env: Env, v: System, actions: seq<Action>)
    requires v.store.WellFormed()
    decreases |actions|, 1
  {
    actions == [] ||
    (CanRun(env, v, actions[..|actions| - 1])
     && Enabled(RunActions(env, v, actions[..|actions| - 1]), actions[|actions| - 1]))
  }

  ghost function RunActions(env: Env, v: System, actions: seq<Action>): (v': System)
    requires v.store.WellFormed() && CanRun(env, v, actions)
    ensures v'.store.WellFormed()
    decreases |actions|, 2
  {
    if actions == [] then v
    else Next(env, RunActions(env, v, actions[..|actions| - 1]), actions[|actions| - 1])
  }

  // ----- the invariant -----

  /** The sequential worker before the last event of the history. */
  ghost function BeforeLast(env: Env, v0: Serial, v: System): (serial: Serial)
    requires v0.store.WellFormed() && v.events != []
    ensures serial.store.WellFormed()
  {
    SerialRun(env, v0, v.events[..|v.events| - 1])
  }

  /** What is on the log and in the replies at each point of handling a message: the sequential
      worker is at most one message ahead. */
  ghost predicate InStep(env: Env, v0: Serial, v: System)
    requires v0.store.WellFormed()
  {
    var serial := SerialRun(env, v0, v.events);
    match v.phase
    case Idle => v.delivered + v.replies == serial.replies && v.log == serial.log
    case Executed(reply, write) =>
      && v.events != [] && v.running
      && v.delivered + v.replies == BeforeLast(env, v0, v).replies
      && v.delivered + v.replies + [reply] == serial.replies
      && v.log == BeforeLast(env, v0, v).log
      && serial.log == (if write.Some? then v.log + [write.value] else v.log)
    case Logged(reply) =>
      && v.events != [] && v.running
      && v.delivered + v.replies == BeforeLast(env, v0, v).replies
      && v.delivered + v.replies + [reply] == serial.replies
      && v.log == serial.log
  }

  /** Messages taken and messages waiting are the messages submitted, in order, and taking stops at
      the first shutdown. */
  ghost predicate InOrder(v: System) {
    var taken := Messages(v.events);
    && v.submitted == taken + v.requests
    && if v.running then Shutdown !in taken
       else taken != [] && taken[|taken| - 1] == Shutdown && Shutdown !in taken[..|taken| - 1]
  }

  ghost predicate Linear(env: Env, v0: Serial, v: System)
    requires v0.store.WellFormed()
  {
    && v.store == SerialRun(env, v0, v.events).store
    && InStep(env, v0, v)
    && InOrder(v)
  }

  lemma SerialRunOneMore(env: Env, v0: Serial, events: seq<Event>, event: Event)
    requires v0.store.WellFormed()
    ensures SerialRun(env, v0, events + [event]) == SerialStep(env, SerialRun(env, v0, events), event)
  {
    hide SerialStep;
    assert (events + [event])[..|events|] == events;
  }

  lemma NoEvents(env: Env, v0: Serial)
    requires v0.store.WellFormed()
    ensures SerialRun(env, v0, []) == v0 && Messages([]) == []
  {
  }

  lemma MessagesOneMore(events: seq<Event>, event: Event)
    ensures Messages(events + [event]) == Messages(events) + if event.Took? then [event.message] else []
  {
    assert (events + [event])[..|events|] == events;
  }

  lemma TakeKeepsInStep(env: Env, v0: Serial, v: System, readings: Readings)
    requires v0.store.WellFormed() && v.store.WellFormed() && Enabled(v, Take(readings))
    requires v.store == SerialRun(env, v0, v.events).store && InStep(env, v0, v)
    ensures var v' := Next(env, v, Take(readings));
            v'.store == SerialRun(env, v0, v'.events).store && InStep(env, v0, v')
  {
    hide SerialRun, Execute, Messages, IsWrite;
    var event := Took(v.requests[0], readings);
    var v' := Next(env, v, Take(readings));
    SerialRunOneMore(env, v0, v.events, event);
    assert v'.events == v.events + [event] && v'.events[..|v'.events| - 1] == v.events;
  }

  lemma TakeKeepsInOrder(env: Env, v: System, readings: Readings)
    requires v.store.WellFormed() && Enabled(v, Take(readings)) && InOrder(v)
    ensures InOrder(Next(env, v, Take(readings)))
  {
    hide Execute, IsWrite, Messages;
    var m, v', before := v.requests[0], Next(env, v, Take(readings)), Messages(v.events);
    MessagesOneMore(v.events, Took(m, readings));
    assert v'.events == v.events + [Took(m, readings)];
    assert (before + [m])[..|before|] == before;
    assert before + v.requests == before + [m] + v.requests[1..];
  }

  lemma ActionKeepsLinear(env: Env, v0: Serial, v: System, action: Action)
    requires v0.store.WellFormed() && v.store.WellFormed()
    requires Linear(env, v0, v) && Enabled(v, action)
    ensures Linear(env, v0, Next(env, v, action))
  {
    hide SerialRun, Execute;
    match action
    case Call(_, id, request) =>
      var message := Submit(id, request);
      assert Messages(v.events) + v.requests + [message] == Messages(v.events) + (v.requests + [message]);
    case Control(message) =>
      assert Messages(v.events) + v.requests + [message] == Messages(v.events) + (v.requests + [message]);
    case Take(readings) =>
      TakeKeepsInStep(env, v0, v, readings);
      TakeKeepsInOrder(env, v, readings);
    case Append =>
    case Respond =>
      assert v.delivered + v.replies + [v.phase.reply] == v.delivered + (v.replies + [v.phase.reply]);
    case Cycle(now) =>
      SerialRunOneMore(env, v0, v.events, Drained(now));
      MessagesOneMore(v.events, Drained(now));
      assert Messages(v.events) + [] == Messages(v.events);
    case Deliver(_) =>
      assert v.delivered + v.replies == v.delivered + [v.replies[0]] + v.replies[1..];
  }

  /** The worker's start as a sequential worker. */
  function StartSerial(store: Store, log: seq<Request>): Serial {
    Serial(store, [], log, true)
  }

  /** In every reachable state, whatever the interleaving of callers and worker: the messages are
      handled one at a time in the order submitted, and the store, the replies and the log are those
      of the sequential worker, up to the one message in hand. */
  lemma {:induction false} EveryRunIsLinear(env: Env, store: Store, log: seq<Request>, actions: seq<Action>)
    requires store.WellFormed() && CanRun(env, Start(store, log), actions)
    ensures Linear(env, StartSerial(store, log), RunActions(env, Start(store, log), actions))
  {
    hide Next, Enabled;
    if actions == [] {
      assert Messages([]) + [] == [];
    } else {
      var front := actions[..|actions| - 1];
      EveryRunIsLinear(env, store, log, front);
      ActionKeepsLinear(env, StartSerial(store, log), RunActions(env, Start(store, log), front),
                        actions[|actions| - 1]);
    }
  }

  // ----- nothing lost, duplicated or reordered -----

  /** The reply that is being prepared. */
  function InFlight(v: System): seq<Reply> {
    if v.phase.Idle? then [] else [v.phase.reply]
  }

  lemma {:induction false} SerialReplyIds(env: Env, v0: Serial, events: seq<Event>)
    requires v0.store.WellFormed() && v0.replies == []
    ensures ReplyIds(SerialRun(env, v0, events).replies) == Ids(Messages(events))
  {
    if events == [] {
    } else {
      var front, event := events[..|events| - 1], events[|events| - 1];
      SerialReplyIds(env, v0, front);
      SerialRunOneMore(env, v0, front, event);
      MessagesOneMore(front, event);
      assert events == front + [event];
      if event.Took? {
        IdsOneMore(Messages(front), event.message);
      } else {
        assert Messages(front) + [] == Messages(front);
      }
    }
  }

  lemma IdsOneMore(messages: seq<Message>, m: Message)
    ensures Ids(messages + [m]) == Ids(messages) + if Answerable(m) then [IdOf(m)] else []
  {
    assert (messages + [m])[..|messages|] == messages;
  }

  lemma {:induction false} IdsConcat(a: seq<Message>, b: seq<Message>)
    ensures Ids(a + b) == Ids(a) + Ids(b)
  {
    if b == [] {
      assert a + b == a;
    } else {
      var front, m := b[..|b| - 1], b[|b| - 1];
      IdsConcat(a, front);
      IdsOneMore(a + front, m);
      assert a + b == (a + front) + [m];
    }
  }

  /** At every step, the identifiers submitted are those delivered, then those waiting as replies,
      then the one in hand, then those waiting as requests: one sequence, in submission order. */
  lemma QueueConservation(env: Env, store: Store, log: seq<Request>, actions: seq<Action>)
    requires store.WellFormed() && CanRun(env, Start(store, log), actions)
    ensures var v := RunActions(env, Start(store, log), actions);
            Ids(v.submitted) == ReplyIds(v.delivered) + ReplyIds(v.replies) + ReplyIds(InFlight(v)) + Ids(v.requests)
  {
    hide SerialRun, RunActions, Ids, Messages;
    var v, v0 := RunActions(env, Start(store, log), actions), StartSerial(store, log);
    EveryRunIsLinear(env, store, log, actions);
    SerialReplyIds(env, v0, v.events);
    IdsConcat(Messages(v.events), v.requests);
    assert v.delivered + v.replies + InFlight(v) == SerialRun(env, v0, v.events).replies;
    assert ReplyIds(v.delivered + v.replies + InFlight(v))
        == ReplyIds(v.delivered) + ReplyIds(v.replies) + ReplyIds(InFlight(v));
  }

  // ----- whose reply it is -----

  predicate Distinct<T(==)>(s: seq<T>) {
    forall i, j :: 0 <= i < j < |s| ==> s[i] != s[j]
  }

  /** Every answerable message has its place in `callers`, under the identifier of its call; every
      reply delivered has its taker, who takes no other. */
  ghost predicate Accounted(v: System) {
    && |v.callers| == |Ids(v.submitted)| && |v.takers| == |v.delivered|
    && (forall j, c :: 0 <= j < |v.callers| && v.callers[j] == Some(c) ==>
          c in v.asked && v.asked[c] == Ids(v.submitted)[j])
    && (forall i, j :: 0 <= i < j < |v.callers| && v.callers[i].Some? ==> v.callers[i] != v.callers[j])
    && (forall c :: c in v.asked ==> Some(c) in v.callers)
    && (forall c :: c in v.takers ==> c in v.asked)
    && Distinct(v.takers)
  }

  lemma CallKeepsAccounted(env: Env, v: System, caller: Caller, id: string, request: Request)
    requires v.store.WellFormed() && Accounted(v) && caller !in v.asked
    ensures Accounted(Next(env, v, Call(caller, id, request)))
  {
    hide Ids;
    var v' := Next(env, v, Call(caller, id, request));
    IdsOneMore(v.submitted, Submit(id, request));
    assert v'.callers[|v.callers|] == Some(caller);
    forall c | c in v'.asked ensures Some(c) in v'.callers {
      if c != caller { assert Some(c) in v.callers; }
    }
  }

  /** Only calls, controls and deliveries touch what is accounted for. */
  lemma SameAccounts(env: Env, v: System, action: Action)
    requires v.store.WellFormed() && Enabled(v, action) && !action.Call? && !action.Control? && !action.Deliver?
    ensures var v' := Next(env, v, action);
            && v'.submitted == v.submitted && v'.callers == v.callers && v'.asked == v.asked
            && v'.delivered == v.delivered && v'.takers == v.takers
  {
    hide Execute, IsWrite;
  }

  lemma ControlKeepsAccounted(env: Env, v: System, message: Message)
    requires v.store.WellFormed() && Accounted(v) && !message.Submit?
    ensures Accounted(Next(env, v, Control(message)))
  {
    hide Ids;
    var v' := Next(env, v, Control(message));
    IdsOneMore(v.submitted, message);
    forall c | c in v'.asked ensures Some(c) in v'.callers {
      assert Some(c) in v.callers;
    }
  }

  lemma DeliverKeepsAccounted(env: Env, v: System, caller: Caller)
    requires v.store.WellFormed() && Accounted(v) && Enabled(v, Deliver(caller))
    ensures Accounted(Next(env, v, Deliver(caller)))
  {
    hide Ids;
  }

  lemma ActionKeepsAccounted(env: Env, v: System, action: Action)
    requires v.store.WellFormed() && Accounted(v) && Enabled(v, action)
    ensures Accounted(Next(env, v, action))
  {
    match action {
      case Call(caller, id, request) => CallKeepsAccounted(env, v, caller, id, request);
      case Control(message) => ControlKeepsAccounted(env, v, message);
      case Deliver(caller) => DeliverKeepsAccounted(env, v, caller);
      case _ =>
        hide Next, Ids;
        SameAccounts(env, v, action);
    }
  }

  lemma {:induction false} EveryRunIsAccounted(env: Env, store: Store, log: seq<Request>, actions: seq<Action>)
    requires store.WellFormed() && CanRun(env, Start(store, log), actions)
    ensures Accounted(RunActions(env, Start(store, log), actions))
  {
    if actions == [] {
    } else {
      hide Next, Enabled, Accounted;
      var front := actions[..|actions| - 1];
      EveryRunIsAccounted(env, store, log, front);
      ActionKeepsAccounted(env, RunActions(env, Start(store, log), front), actions[|actions| - 1]);
    }
  }

  /** The i-th reply delivered was taken by the caller of the i-th answerable message. */
  ghost predicate TakenInTurn(v: System, i: nat) {
    i < |v.takers| && i < |v.callers| && v.callers[i] == Some(v.takers[i])
  }

  ghost predicate GetsOwn(v: System, i: nat) {
    && i < |v.delivered| && i < |v.takers| && v.takers[i] in v.asked
    && v.delivered[i].id == v.asked[v.takers[i]]
  }

  /** A caller that takes a reply in turn gets its own; and, identifiers being distinct, it gets its
      own only then. */
  lemma OwnReplyExactly(env: Env, store: Store, log: seq<Request>, actions: seq<Action>, i: nat)
    requires store.WellFormed() && CanRun(env, Start(store, log), actions)
    requires i < |RunActions(env, Start(store, log), actions).delivered|
    ensures var v := RunActions(env, Start(store, log), actions);
            && (TakenInTurn(v, i) ==> GetsOwn(v, i))
            && (Distinct(Ids(v.submitted)) ==> (GetsOwn(v, i) <==> TakenInTurn(v, i)))
  {
    hide RunActions, Ids;
    var v := RunActions(env, Start(store, log), actions);
    QueueConservation(env, store, log, actions);
    EveryRunIsAccounted(env, store, log, actions);
    assert v.delivered[i].id == ReplyIds(v.delivered)[i] == Ids(v.submitted)[i];
    assert v.takers[i] in v.takers && Some(v.takers[i]) in v.callers;
  }

  /** With distinct identifiers, every caller gets its own reply if and only if the replies are taken
      in submission order. */
  lemma AllOwnExactly(env: Env, store: Store, log: seq<Request>, actions: seq<Action>)
    requires store.WellFormed() && CanRun(env, Start(store, log), actions)
    requires Distinct(Ids(RunActions(env, Start(store, log), actions).submitted))
    ensures var v := RunActions(env, Start(store, log), actions);
            (forall i: nat :: i < |v.delivered| ==> GetsOwn(v, i)) <==>
            (forall i: nat :: i < |v.delivered| ==> TakenInTurn(v, i))
  {
    hide RunActions, Ids, GetsOwn, TakenInTurn;
    var v := RunActions(env, Start(store, log), actions);
    forall i: nat | i < |v.delivered| ensures GetsOwn(v, i) <==> TakenInTurn(v, i) {
      OwnReplyExactly(env, store, log, actions, i);
    }
  }

  /** Each call is made when no other waits for its reply, and nobody asks for a snapshot. */
  ghost predicate OneOutstanding(env: Env, v: System, actions: seq<Action>)
    requires v.store.WellFormed() && CanRun(env, v, actions)
  {
    actions == [] ||
    var before := RunActions(env, v, actions[..|actions| - 1]);
    (&& OneOutstanding(env, v, actions[..|actions| - 1])
     && (actions[|actions| - 1].Call? ==> |before.callers| == |before.takers|)
     && (actions[|actions| - 1].Control? ==> !actions[|actions| - 1].message.Snapshot?))
  }

  /** At most the last caller has no reply yet. */
  ghost predicate AllInTurn(v: System) {
    && |v.takers| <= |v.callers| <= |v.takers| + 1
    && forall i: nat :: i < |v.takers| ==> v.callers[i] == Some(v.takers[i])
  }

  lemma ActionKeepsInTurn(env: Env, v: System, action: Action)
    requires v.store.WellFormed() && Accounted(v) && Enabled(v, action) && AllInTurn(v)
    requires action.Call? ==> |v.callers| == |v.takers|
    requires action.Control? ==> !action.message.Snapshot?
    ensures AllInTurn(Next(env, v, action))
  {
    hide Ids, Execute, IsWrite;
    match action {
      case Call(_, _, _) =>
      case Control(_) =>
      case Deliver(caller) => assert Some(caller) in v.callers;
      case _ => SameAccounts(env, v, action);
    }
  }

  lemma {:induction false} OneOutstandingIsInTurn(env: Env, store: Store, log: seq<Request>, actions: seq<Action>)
    requires store.WellFormed() && CanRun(env, Start(store, log), actions)
    requires OneOutstanding(env, Start(store, log), actions)
    ensures AllInTurn(RunActions(env, Start(store, log), actions))
  {
    if actions == [] {
    } else {
      hide Next, Enabled, Accounted, AllInTurn;
      var front, action := actions[..|actions| - 1], actions[|actions| - 1];
      OneOutstandingIsInTurn(env, store, log, front);
      EveryRunIsAccounted(env, store, log, front);
      ActionKeepsInTurn(env, RunActions(env, Start(store, log), front), action);
    }
  }

  /** With one request outstanding at a time, every caller gets its own reply, whatever the
      identifiers. */
  lemma OneOutstandingGetsOwn(env: Env, store: Store, log: seq<Request>, actions: seq<Action>, i: nat)
    requires store.WellFormed() && CanRun(env, Start(store, log), actions)
    requires OneOutstanding(env, Start(store, log), actions)
    requires i < |RunActions(env, Start(store, log), actions).delivered|
    ensures GetsOwn(RunActions(env, Start(store, log), actions), i)
  {
    hide RunActions, Ids, OneOutstanding, Start;
    OneOutstandingIsInTurn(env, store, log, actions);
    EveryRunIsAccounted(env, store, log, actions);
    OwnReplyExactly(env, store, log, actions, i);
  }

  lemma OneMoreAction(env: Env, v: System, actions: seq<Action>, action: Action)
    requires v.store.WellFormed() && CanRun(env, v, actions) && Enabled(RunActions(env, v, actions), action)
    ensures CanRun(env, v, actions + [action])
    ensures RunActions(env, v, actions + [action]) == Next(env, RunActions(env, v, actions), action)
  {
    hide Next, Enabled;
    assert (actions + [action])[..|actions|] == actions;
  }

  lemma BeforeLastAction(env: Env, v: System, actions: seq<Action>, action: Action)
    requires v.store.WellFormed() && CanRun(env, v, actions + [action])
    ensures CanRun(env, v, actions) && Enabled(RunActions(env, v, actions), action)
    ensures RunActions(env, v, actions + [action]) == Next(env, RunActions(env, v, actions), action)
  {
    hide Next, Enabled;
    assert (actions + [action])[..|actions|] == actions;
  }

  lemma HandleOne(env: Env, v: System, actions: seq<Action>, readings: Readings)
    requires v.store.WellFormed() && CanRun(env, v, actions)
    requires var now := RunActions(env, v, actions);
             now.running && now.phase.Idle? && now.requests != [] && now.requests[0].Submit?
    ensures var now, all := RunActions(env, v, actions), actions + [Take(readings)] + [Append] + [Respond];
            && CanRun(env, v, all)
            && var then' := RunActions(env, v, all);
               && then'.running && then'.phase.Idle? && then'.requests == now.requests[1..]
               && |then'.replies| == |now.replies| + 1
               && then'.submitted == now.submitted && then'.callers == now.callers && then'.asked == now.asked
               && then'.takers == now.takers && then'.delivered == now.delivered
  {
    hide Execute, IsWrite, RunActions, CanRun;
    OneMoreAction(env, v, actions, Take(readings));
    OneMoreAction(env, v, actions + [Take(readings)], Append);
    OneMoreAction(env, v, actions + [Take(readings)] + [Append], Respond);
  }

  /** Two calls outstanding: the second caller may take the first reply, and then each gets the other's. */
  lemma RepliesCanSwap(env: Env, store: Store, log: seq<Request>, a: string, b: string, first: Request,
          second: Request, readings: Readings)
    returns (actions: seq<Action>)
    requires store.WellFormed()
    ensures CanRun(env, Start(store, log), actions)
    ensures var v := RunActions(env, Start(store, log), actions);
            && v.asked == map[0 := a, 1 := b] && v.takers == [1, 0]
            && |v.delivered| == 2 && v.delivered[0].id == a && v.delivered[1].id == b
  {
    hide Execute, IsWrite, RunActions, CanRun, Ids;
    var v := Start(store, log);
    NoActions(env, v);
    OneMoreAction(env, v, [], Call(0, a, first));
    OneMoreAction(env, v, [] + [Call(0, a, first)], Call(1, b, second));
    actions := [] + [Call(0, a, first)] + [Call(1, b, second)];
    var asked := RunActions(env, v, actions);
    assert asked.submitted == [Submit(a, first)] + [Submit(b, second)] && asked.asked == map[0 := a, 1 := b];
    HandleOne(env, v, actions, readings);
    actions := actions + [Take(readings)] + [Append] + [Respond];
    HandleOne(env, v, actions, readings);
    actions := actions + [Take(readings)] + [Append] + [Respond];
    OneMoreAction(env, v, actions, Deliver(1));
    actions := actions + [Deliver(1)];
    OneMoreAction(env, v, actions, Deliver(0));
    actions := actions + [Deliver(0)];
    QueueConservation(env, store, log, actions);
    TwoIds(a, b, first, second);
    var done := RunActions(env, v, actions);
    assert Ids(done.submitted)[0] == ReplyIds(done.delivered)[0];
    assert Ids(done.submitted)[1] == ReplyIds(done.delivered)[1];
  }

  lemma NoActions(env: Env, v: System)
    requires v.store.WellFormed()
    ensures CanRun(env, v, []) && RunActions(env, v, []) == v
  {
  }

  lemma TwoIds(a: string, b: string, first: Request, second: Request)
    ensures Ids([Submit(a, first)] + [Submit(b, second)]) == [a, b]
  {
    IdsOneMore([], Submit(a, first));
    IdsOneMore([Submit(a, first)], Submit(b, second));
    assert [] + [Submit(a, first)] == [Submit(a, first)];
  }

  /** Once the worker has stopped, everything submitted before the first shutdown has its reply
      delivered or waiting, and nothing after it is ever answered. */
  lemma ShutdownAnswersAllBefore(env: Env, store: Store, log: seq<Request>, actions: seq<Action>)
    requires store.WellFormed() && CanRun(env, Start(store, log), actions)
    requires !RunActions(env, Start(store, log), actions).running
    ensures var v := RunActions(env, Start(store, log), actions);
            exists n :: 0 <= n < |v.submitted| && v.submitted[n] == Shutdown && Shutdown !in v.submitted[..n]
              && ReplyIds(v.delivered + v.replies) == Ids(v.submitted[..n])
              && v.requests == v.submitted[n + 1..]
  {
    hide SerialRun, RunActions, Ids, Messages;
    var v, v0 := RunActions(env, Start(store, log), actions), StartSerial(store, log);
    EveryRunIsLinear(env, store, log, actions);
    SerialReplyIds(env, v0, v.events);
    var taken := Messages(v.events);
    var n := |taken| - 1;
    IdsOneMore(taken[..n], Shutdown);
    assert taken == taken[..n] + [Shutdown];
    assert v.submitted[..n] == taken[..n] && v.submitted[n] == Shutdown;
  }

  lemma ActionKeepsAsked(env: Env, v: System, action: Action, caller: Caller)
    requires v.store.WellFormed() && Enabled(v, action) && caller in v.asked
    ensures caller in Next(env, v, action).asked && Next(env, v, action).asked[caller] == v.asked[caller]
  {
    hide Execute, IsWrite;
  }

  lemma {:induction false} AskedStays(env: Env, v: System, actions: seq<Action>, more: seq<Action>, caller: Caller)
    requires v.store.WellFormed() && CanRun(env, v, actions) && CanRun(env, v, actions + more)
    requires caller in RunActions(env, v, actions).asked
    ensures var now, later := RunActions(env, v, actions), RunActions(env, v, actions + more);
            caller in later.asked && later.asked[caller] == now.asked[caller]
  {
    hide Next, Enabled, RunActions, CanRun;
    if more == [] {
      assert actions + more == actions;
    } else {
      var front, last := more[..|more| - 1], more[|more| - 1];
      assert actions + more == (actions + front) + [last];
      BeforeLastAction(env, v, actions + front, last);
      AskedStays(env, v, actions, front, caller);
      ActionKeepsAsked(env, RunActions(env, v, actions + front), last, caller);
    }
  }

  // ----- what the replies say -----

  /** A request is answered, under its identifier, by what the command answers; only the values of an
      array do not get through. */
  lemma SubmitIsAnswered(env: Env, v: Serial, id: string, request: Request, readings: Readings)
    requires v.store.WellFormed()
    ensures var answer := Execute(env, v.store, request, readings).1;
            var replies := SerialStep(env, v, Took(Submit(id, request), readings)).replies;
            && (request.command !in {MGET, KEYS} || answer.Error? ==> replies == v.replies + [Answer(id, answer)])
            && (request.command in {MGET, KEYS} && !answer.Error? ==> replies == v.replies + [Answer(id, Array([]))])
  {
    hide Store.AfterExpire, Store.AfterTtl, Store.AfterExpirations, AfterGets, IsWrite;
  }

  /** A GET through the queues brings the value of the key, or that there is none. */
  lemma GetIsAnswered(env: Env, v: Serial, id: string, k: string, readings: Readings)
    requires v.store.WellFormed()
    ensures var data, v' := v.store.AfterExpirations(readings(0)).data,
                            SerialStep(env, v, Took(Submit(id, Request(GET, [k])), readings));
            v'.replies == v.replies + [Answer(id, if k in data then Bulk(data[k]) else Null)]
  {
    hide Store.AfterExpirations, IsWrite;
  }

  /** A snapshot is answered by all that is left in the store, under its own identifier if it has one. */
  lemma SnapshotIsAnswered(env: Env, v: Serial, tag: string, readings: Readings)
    requires v.store.WellFormed()
    ensures var data := v.store.AfterExpirations(readings(0)).data;
            && SerialStep(env, v, Took(Snapshot(None), readings)).replies
            == v.replies + [SnapshotAnswer("__snapshot__", data)]
            && SerialStep(env, v, Took(Snapshot(Some(tag)), readings)).replies
            == v.replies + [SnapshotAnswer(if tag == "" then "__snapshot__" else tag, data)]
  {
    hide Store.AfterExpirations;
  }

  // ----- acknowledged writes are on the log -----

  /** The events whose replies are out. */
  function Answered(v: System): seq<Event> {
    if v.phase.Idle? || v.events == [] then v.events else v.events[..|v.events| - 1]
  }

  lemma EventLogsAtMostOne(env: Env, v: Serial, event: Event)
    requires v.store.WellFormed()
    ensures v.log <= SerialStep(env, v, event).log && |SerialStep(env, v, event).log| <= |v.log| + 1
  {
    hide Execute, IsWrite, OnWire;
  }

  /** In every reachable state the log starts with the writes of everything answered, in request
      order; beyond them it holds at most the one write that is logged but not yet answered. */
  lemma AcknowledgedWritesAreLogged(env: Env, store: Store, log: seq<Request>, actions: seq<Action>)
    requires store.WellFormed() && CanRun(env, Start(store, log), actions)
    ensures var v, v0 := RunActions(env, Start(store, log), actions), StartSerial(store, log);
            var answered := SerialRun(env, v0, Answered(v));
            && v.delivered + v.replies == answered.replies
            && answered.log <= v.log <= SerialRun(env, v0, v.events).log
            && |v.log| <= |answered.log| + 1
            && (v.phase.Idle? ==> v.log == answered.log)
  {
    hide RunActions, SerialRun, SerialStep, InOrder, Messages;
    var v, v0 := RunActions(env, Start(store, log), actions), StartSerial(store, log);
    EveryRunIsLinear(env, store, log, actions);
    if !v.phase.Idle? {
      EventLogsAtMostOne(env, SerialRun(env, v0, v.events[..|v.events| - 1]), v.events[|v.events| - 1]);
      SerialRunOneMore(env, v0, v.events[..|v.events| - 1], v.events[|v.events| - 1]);
      assert v.events == v.events[..|v.events| - 1] + [v.events[|v.events| - 1]];
    }
  }
}
