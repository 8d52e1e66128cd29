/** Routing, and N routed stores against one store: src/router.py, src/worker.py. */
module Sharding {
  import opened Integers
  import opened Options
  import opened Types
  import opened Ticks
  import opened WheelSpec
  import opened StoreSpec
  import opened Commands

  /** Hash partitioning over `workers` partitions; the hash is any function. */
  datatype Router = Router(workers: nat, hash: string -> nat) {
    predicate Valid() {
      workers > 0
    }

    function RouteKey(key: string): (partition: nat)
      requires Valid()
      ensures partition < workers
    {
      hash(key) % workers
    }

    function ExtractKey(request: Request): Option<string> {
      if request.command in {SET, GET, DEL, EXPIRE, TTL} && request.args != [] then Some(request.args[0]) else None
    }

    function RouteRequest(request: Request): (partition: nat)
      requires Valid()
      ensures partition < workers
    {
      match ExtractKey(request)
      case None => 0
      case Some(key) => RouteKey(key)
    }
  }

  /** The worker of a request: for a command on one key that of the key's hash, whatever the command;
      for all others the first. */
  lemma RoutesByHash(router: Router, request: Request)
    requires router.Valid()
    ensures forall a, b :: router.RouteKey(a) == router.RouteKey(b) <==>
                           (router.hash(a) - router.hash(b)) % router.workers == 0
    ensures request.command in {PING, MGET, KEYS, FLUSHALL} || request.args == [] ==> router.RouteRequest(request) == 0
    ensures request.command !in {PING, MGET, KEYS, FLUSHALL} && request.args != [] ==>
      router.RouteRequest(request) == router.RouteKey(request.args[0])
  {
    forall a, b
      ensures router.RouteKey(a) == router.RouteKey(b) <==> (router.hash(a) - router.hash(b)) % router.workers == 0
    {
      SameRemainder(router.hash(a), router.hash(b), router.workers);
    }
    match request.command {
      case PING | MGET | KEYS | FLUSHALL =>
      case SET | GET | DEL | EXPIRE | TTL =>
    }
  }

  /** A call and the clock readings made for it. */
  datatype Call = Call(request: Request, readings: Readings)

  /** A store worker drains, then executes. */
  ghost function WorkerExecute(env: Env, s: Store, call: Call): (result: (Store, Response))
    requires s.WellFormed()
    ensures result.0.WellFormed()
  {
    Execute(env, s.AfterExpirations(call.readings(0)), call.request, (i: nat) => call.readings(i + 1))
  }

  /** The server replays its log by executing it; for logged commands that is the effect of the
      worker process's replay. */
  lemma ExecuteIsReplay(env: Env, s: Store, call: Call)
    requires s.WellFormed() && call.request.command in {SET, DEL, EXPIRE, FLUSHALL}
    ensures WorkerExecute(env, s, call).0 == s.AfterReplay(env, call.request, call.readings)
  {
    hide TickOf, Swept;
  }

  // ----- one key at a time -----

  predicate SingleKey(command: CommandName) {
    command in {PING, SET, GET, DEL, EXPIRE, TTL}
  }

  /** The key that a well-formed single-key command looks up or sets. */
  function OwnKey(env: Env, request: Request): Option<string> {
    var args := request.args;
    match request.command
    case SET => if |args| == 2 then Some(args[0]) else None
    case EXPIRE => if |args| == 2 && env.parseInt(args[1]).Some? then Some(args[0]) else None
    case GET | DEL | TTL => if |args| == 1 then Some(args[0]) else None
    case _ => None
  }

  /** A TTL that finds its key long overdue, and so deletes it. */
  predicate DeletesOverdue(call: Call, state: KeyState) {
    call.request.command == TTL && state.value.Some? && LongOverdue(state.deadline, call.readings(2))
  }

  /** What a well-formed single-key command does to the state it finds its key in, and answers. */
  function OnKey(env: Env, call: Call, state: KeyState): (KeyState, Response)
    requires SingleKey(call.request.command) && OwnKey(env, call.request).Some?
  {
    var args := call.request.args;
    match call.request.command
    case SET => (KeyState(Some(args[1]), None), Simple("OK"))
    case GET => (state, BulkOrNull(state.value))
    case DEL => (NOTHING, IntegerOf(state.value.Some?))
    case EXPIRE =>
      var seconds := env.parseInt(args[1]).value;
      if state.value.None? then (state, Integer(0))
      else if seconds <= 0 then (NOTHING, Integer(1))
      else (KeyState(state.value, Some(call.readings(2) + seconds as real)), Integer(1))
    case TTL =>
      if state.value.None? then (state, Integer(-2))
      else if state.deadline.None? then (state, Integer(-1))
      else if DeletesOverdue(call, state) then (NOTHING, Integer(-2))
      else (state, Integer(Truncate(state.deadline.value - call.readings(2))))
  }

  /** The store as the command looks its key up: after the worker's drain and its own. */
  ghost function AtLookup(env: Env, s: Store, call: Call): (s': Store)
    requires s.WellFormed()
    ensures s'.WellFormed()
  {
    var s0 := s.AfterExpirations(call.readings(0));
    if OwnKey(env, call.request).Some? then s0.AfterExpirations(call.readings(1)) else s0
  }

  /** The reading at which the command deletes its key with one more drain, if it does. */
  ghost function DeletesAt(env: Env, s: Store, call: Call): Option<real>
    requires s.WellFormed()
  {
    var own, found := OwnKey(env, call.request), AtLookup(env, s, call);
    if own.None? then None
    else if call.request.command == EXPIRE && own.value in found.data && env.parseInt(call.request.args[1]).value <= 0
    then Some(call.readings(2))
    else if DeletesOverdue(call, StateOf(found, own.value)) then Some(call.readings(3))
    else None
  }

  /** The keys that fall due in the drains that the command makes. */
  ghost function Drops(env: Env, s: Store, call: Call): set<string>
    requires s.WellFormed()
  {
    var s0, found, at := s.AfterExpirations(call.readings(0)), AtLookup(env, s, call), DeletesAt(env, s, call);
    s.wheel.DueKeys(call.readings(0))
    + (if OwnKey(env, call.request).Some? then s0.wheel.DueKeys(call.readings(1)) else {})
    + (if at.Some? then found.wheel.DueKeys(at.value) else {})
  }

  lemma DrainOnKey(s: Store, now: real, k: string)
    requires s.WellFormed()
    ensures StateOf(s.AfterExpirations(now), k) == if k in s.wheel.DueKeys(now) then NOTHING else StateOf(s, k)
    ensures k in s.wheel.DueKeys(now) ==> k in s.data
  {
    hide Swept;
  }

  lemma FoundOnKey(env: Env, s: Store, call: Call, k: string)
    requires s.WellFormed()
    ensures StateOf(AtLookup(env, s, call), k) == StateOf(s, k) || StateOf(AtLookup(env, s, call), k) == NOTHING
    ensures k in Drops(env, s, call) ==> k in s.data
  {
    hide Swept, Store.AfterExpirations, Wheel.DueKeys;
    var s0 := s.AfterExpirations(call.readings(0));
    DrainOnKey(s, call.readings(0), k);
    DrainOnKey(s0, call.readings(1), k);
    if DeletesAt(env, s, call).Some? {
      DrainOnKey(AtLookup(env, s, call), DeletesAt(env, s, call).value, k);
    }
  }

  lemma ExpireOnKey(s: Store, j: string, seconds: int, now: real, then': real, k: string)
    requires s.WellFormed()
    ensures var found, (s', done) := s.AfterExpirations(now), s.AfterExpire(j, seconds, now, then');
            && done == (j in found.data)
            && StateOf(s', k) ==
               if !done then StateOf(found, k)
               else if k == j then
                 if seconds <= 0 then NOTHING else KeyState(StateOf(found, k).value, Some(then' + seconds as real))
               else if seconds <= 0 && k in found.wheel.DueKeys(then') then NOTHING
               else StateOf(found, k)
  {
    hide TickOf, Swept, Wheel.DueKeys;
    DrainOnKey(s.AfterExpirations(now), then', k);
  }

  lemma TtlOnKey(s: Store, j: string, now: real, then': real, last: real, k: string)
    requires s.WellFormed()
    ensures var found, (s', answer) := s.AfterExpirations(now), s.AfterTtl(j, now, then', last);
            var state := StateOf(found, j);
            var overdue := state.value.Some? && LongOverdue(state.deadline, then');
            && answer == (if state.value.None? || overdue then -2
                          else if state.deadline.None? then -1
                          else Truncate(state.deadline.value - then'))
            && StateOf(s', k) == if overdue && (k == j || k in found.wheel.DueKeys(last)) then NOTHING
                                 else StateOf(found, k)
  {
    hide TickOf, Swept, Wheel.DueKeys;
    DrainOnKey(s.AfterExpirations(now), last, k);
  }

  /** A single-key command acts on the state it finds its own key in, and otherwise only drops the
      keys that fall due. */
  ghost predicate ActsOn(env: Env, s: Store, call: Call, k: string)
    requires s.WellFormed() && SingleKey(call.request.command)
  {
    var (s', response) := WorkerExecute(env, s, call);
    if OwnKey(env, call.request) == Some(k)
    then (StateOf(s', k), response) == OnKey(env, call, StateOf(AtLookup(env, s, call), k))
    else StateOf(s', k) == if k in Drops(env, s, call) then NOTHING else StateOf(s, k)
  }

  lemma ActsOnTimedKey(env: Env, s: Store, call: Call, k: string)
    requires s.WellFormed() && call.request.command in {EXPIRE, TTL}
    ensures ActsOn(env, s, call, k)
  {
    hide TickOf, Swept, Store.AfterExpire, Store.AfterTtl, Store.AfterExpirations, Wheel.DueKeys;
    var s0, args := s.AfterExpirations(call.readings(0)), call.request.args;
    DrainOnKey(s, call.readings(0), k);
    DrainOnKey(s0, call.readings(1), k);
    if OwnKey(env, call.request).Some? {
      if call.request.command == EXPIRE {
        ExpireOnKey(s0, args[0], env.parseInt(args[1]).value, call.readings(1), call.readings(2), k);
      } else {
        TtlOnKey(s0, args[0], call.readings(1), call.readings(2), call.readings(3), k);
      }
    }
  }

  lemma ActsOnKey(env: Env, s: Store, call: Call, k: string)
    requires s.WellFormed() && SingleKey(call.request.command)
    ensures ActsOn(env, s, call, k)
  {
    if call.request.command in {EXPIRE, TTL} {
      ActsOnTimedKey(env, s, call, k);
    } else {
      hide TickOf, Swept, Store.AfterExpirations, Store.AfterExpire, Store.AfterTtl, Wheel.DueKeys;
      DrainOnKey(s, call.readings(0), k);
      DrainOnKey(s.AfterExpirations(call.readings(0)), call.readings(1), k);
    }
  }

  // ----- N routed stores against one -----

  /** The shards split the one store: each key lives in its routed shard only, in the same state. */
  ghost predicate Splits(router: Router, one: Store, shards: seq<Store>)
    requires router.Valid()
  {
    && |shards| == router.workers
    && one.WellFormed()
    && (forall i :: 0 <= i < |shards| ==> shards[i].WellFormed())
    && (forall i, k :: 0 <= i < |shards| && k in shards[i].data ==> router.RouteKey(k) == i)
    && (forall k :: StateOf(one, k) == StateOf(shards[router.RouteKey(k)], k))
  }

  function NewShards(workers: nat): seq<Store> {
    seq(workers, (i: nat) => EmptyStore())
  }

  ghost predicate AllWellFormed(shards: seq<Store>) {
    forall i :: 0 <= i < |shards| ==> shards[i].WellFormed()
  }

  ghost function Dispatch(env: Env, router: Router, shards: seq<Store>, call: Call): (result: (seq<Store>, Response))
    requires router.Valid() && |shards| == router.workers && AllWellFormed(shards)
    ensures |result.0| == |shards| && AllWellFormed(result.0)
  {
    var p := router.RouteRequest(call.request);
    var (s', response) := WorkerExecute(env, shards[p], call);
    (shards[p := s'], response)
  }

  ghost function OneRun(env: Env, s: Store, calls: seq<Call>): (result: (Store, seq<Response>))
    requires s.WellFormed()
    ensures result.0.WellFormed()
  {
    if calls == [] then (s, [])
    else
      var (before, responses) := OneRun(env, s, calls[..|calls| - 1]);
      var (s', response) := WorkerExecute(env, before, calls[|calls| - 1]);
      (s', responses + [response])
  }

  ghost function ShardRun(env: Env, router: Router, shards: seq<Store>, calls: seq<Call>)
    : (result: (seq<Store>, seq<Response>))
    requires router.Valid() && |shards| == router.workers && AllWellFormed(shards)
    ensures |result.0| == |shards| && AllWellFormed(result.0)
  {
    if calls == [] then (shards, [])
    else
      var (before, responses) := ShardRun(env, router, shards, calls[..|calls| - 1]);
      var (shards', response) := Dispatch(env, router, before, calls[|calls| - 1]);
      (shards', responses + [response])
  }

  /** The same keys fall due in the one store and in the shard, and the call finds its own key in both
      or neither, where that matters: a SET does not look, and a TTL deletes a key that is long overdue. */
  ghost predicate SameFate(env: Env, one: Store, shard: Store, call: Call)
    requires one.WellFormed() && shard.WellFormed()
  {
    var own := OwnKey(env, call.request);
    && (forall k :: own != Some(k) ==> (k in Drops(env, one, call) <==> k in Drops(env, shard, call)))
    && (own.Some? && call.request.command != SET && !DeletesOverdue(call, StateOf(one, own.value)) ==>
          (own.value in AtLookup(env, one, call).data <==> own.value in AtLookup(env, shard, call).data))
  }

  /** Draining the one store and one shard keeps them together if and only if the same keys fall due. */
  lemma DrainSplitsExactly(router: Router, one: Store, shards: seq<Store>, p: nat, now: real)
    requires router.Valid() && Splits(router, one, shards) && p < |shards|
    ensures Splits(router, one.AfterExpirations(now), shards[p := shards[p].AfterExpirations(now)]) <==>
            one.wheel.DueKeys(now) == shards[p].wheel.DueKeys(now)
  {
    hide Swept, Wheel.DueKeys, Store.AfterExpirations;
    var one', shards' := one.AfterExpirations(now), shards[p := shards[p].AfterExpirations(now)];
    forall k
      ensures k in shards'[p].data ==> router.RouteKey(k) == p
      ensures StateOf(one', k) == StateOf(shards'[router.RouteKey(k)], k) <==>
              (k in one.wheel.DueKeys(now) <==> k in shards[p].wheel.DueKeys(now))
    {
      DrainOnKey(one, now, k);
      DrainOnKey(shards[p], now, k);
      assert StateOf(one, k) == StateOf(shards[router.RouteKey(k)], k);
    }
  }

  lemma OtherKeySplitsExactly(env: Env, router: Router, one: Store, shards: seq<Store>, call: Call, k: string)
    requires router.Valid() && Splits(router, one, shards)
    requires SingleKey(call.request.command) && OwnKey(env, call.request) != Some(k)
    ensures var p := router.RouteRequest(call.request);
            var one', shards' := WorkerExecute(env, one, call).0, Dispatch(env, router, shards, call).0;
            && (k in shards'[p].data ==> router.RouteKey(k) == p)
            && (StateOf(one', k) == StateOf(shards'[router.RouteKey(k)], k) <==>
                (k in Drops(env, one, call) <==> k in Drops(env, shards[p], call)))
  {
    hide WorkerExecute, TickOf, Swept, Drops;
    var p := router.RouteRequest(call.request);
    ActsOnKey(env, one, call, k);
    ActsOnKey(env, shards[p], call, k);
    FoundOnKey(env, one, call, k);
    FoundOnKey(env, shards[p], call, k);
    assert StateOf(one, k) == StateOf(shards[router.RouteKey(k)], k);
  }

  /** Whether it makes a difference to the command that its key is gone. */
  lemma OwnKeyMattersExactly(env: Env, call: Call, state: KeyState)
    requires SingleKey(call.request.command) && OwnKey(env, call.request).Some? && state.value.Some?
    ensures OnKey(env, call, state) == OnKey(env, call, NOTHING) <==>
            call.request.command == SET || DeletesOverdue(call, state)
  {
  }

  lemma OwnKeySplitsExactly(env: Env, router: Router, one: Store, shards: seq<Store>, call: Call, k: string)
    requires router.Valid() && Splits(router, one, shards)
    requires SingleKey(call.request.command) && OwnKey(env, call.request) == Some(k)
    ensures var p := router.RouteRequest(call.request);
            var (one', response) := WorkerExecute(env, one, call);
            var (shards', response') := Dispatch(env, router, shards, call);
            && router.RouteKey(k) == p
            && ((StateOf(one', k), response) == (StateOf(shards'[p], k), response') <==>
                call.request.command == SET || DeletesOverdue(call, StateOf(one, k))
                || (k in AtLookup(env, one, call).data <==> k in AtLookup(env, shards[p], call).data))
  {
    hide WorkerExecute, TickOf, Swept, AtLookup, OnKey, DeletesOverdue;
    var p := router.RouteRequest(call.request);
    ActsOnKey(env, one, call, k);
    ActsOnKey(env, shards[p], call, k);
    FoundOnKey(env, one, call, k);
    FoundOnKey(env, shards[p], call, k);
    assert StateOf(one, k) == StateOf(shards[router.RouteKey(k)], k);
    if StateOf(one, k).value.Some? { OwnKeyMattersExactly(env, call, StateOf(one, k)); }
  }

  lemma KeylessAnswer(env: Env, a: Store, b: Store, call: Call)
    requires a.WellFormed() && b.WellFormed()
    requires SingleKey(call.request.command) && OwnKey(env, call.request).None?
    ensures WorkerExecute(env, a, call).1 == WorkerExecute(env, b, call).1
  {
    hide TickOf, Swept, Store.AfterExpirations;
  }

  /** One single-key call, exactly: the shards still split the one store, and answer as it does, if
      and only if the same keys fall due in both. */
  lemma DispatchSplitsExactly(env: Env, router: Router, one: Store, shards: seq<Store>, call: Call)
    requires router.Valid() && Splits(router, one, shards) && SingleKey(call.request.command)
    ensures var (one', response) := WorkerExecute(env, one, call);
            var (shards', response') := Dispatch(env, router, shards, call);
            Splits(router, one', shards') && response == response' <==>
            SameFate(env, one, shards[router.RouteRequest(call.request)], call)
  {
    hide WorkerExecute, TickOf, Swept, AtLookup, Drops, DeletesOverdue, OwnKey;
    var p, own := router.RouteRequest(call.request), OwnKey(env, call.request);
    var (one', response) := WorkerExecute(env, one, call);
    var (shards', response') := Dispatch(env, router, shards, call);
    forall k | own != Some(k)
      ensures k in shards'[p].data ==> router.RouteKey(k) == p
      ensures StateOf(one', k) == StateOf(shards'[router.RouteKey(k)], k) <==>
              (k in Drops(env, one, call) <==> k in Drops(env, shards[p], call))
    {
      OtherKeySplitsExactly(env, router, one, shards, call, k);
    }
    if own.Some? {
      OwnKeySplitsExactly(env, router, one, shards, call, own.value);
    } else {
      KeylessAnswer(env, one, shards[p], call);
    }
  }

  // ----- runs -----

  /** At every call the keys have the same fate in the one store and in the shard. */
  ghost predicate AlikeRun(env: Env, router: Router, one: Store, shards: seq<Store>, calls: seq<Call>)
    requires router.Valid() && Splits(router, one, shards)
  {
    calls == [] ||
    var front, call := calls[..|calls| - 1], calls[|calls| - 1];
    var p := router.RouteRequest(call.request);
    (&& AlikeRun(env, router, one, shards, front)
     && SameFate(env, OneRun(env, one, front).0, ShardRun(env, router, shards, front).0[p], call))
  }

  /** After every call the shards split the one store, and all answers so far are the same. */
  ghost predicate AgreeThroughout(env: Env, router: Router, one: Store, shards: seq<Store>, calls: seq<Call>)
    requires router.Valid() && Splits(router, one, shards)
  {
    && (calls == [] || AgreeThroughout(env, router, one, shards, calls[..|calls| - 1]))
    && Splits(router, OneRun(env, one, calls).0, ShardRun(env, router, shards, calls).0)
    && OneRun(env, one, calls).1 == ShardRun(env, router, shards, calls).1
  }

  ghost predicate AllSingleKey(calls: seq<Call>) {
    forall i :: 0 <= i < |calls| ==> SingleKey(calls[i].request.command)
  }

  lemma LastCall(env: Env, router: Router, one: Store, shards: seq<Store>, calls: seq<Call>)
    requires router.Valid() && Splits(router, one, shards) && calls != []
    ensures var front, call := calls[..|calls| - 1], calls[|calls| - 1];
            var (before, answers), (shards', answers') := OneRun(env, one, front), ShardRun(env, router, shards, front);
            var (after, answer), (after', answer') :=
              WorkerExecute(env, before, call), Dispatch(env, router, shards', call);
            && OneRun(env, one, calls) == (after, answers + [answer])
            && ShardRun(env, router, shards, calls) == (after', answers' + [answer'])
            && (answers == answers' ==> (answers + [answer] == answers' + [answer'] <==> answer == answer'))
  {
    hide WorkerExecute, Dispatch;
    var front, call := calls[..|calls| - 1], calls[|calls| - 1];
    var answers, answers' := OneRun(env, one, front).1, ShardRun(env, router, shards, front).1;
    var answer, answer' := OneRun(env, one, calls).1, ShardRun(env, router, shards, calls).1;
    if answers == answers' && answer == answer' {
      assert answer[|answers|] == answer'[|answers|];
    }
  }

  /** Exactly when N routed stores refine one store over a whole run of single-key calls, under the
      same clock readings: when at every call the same keys fall due in the one store and the shard. */
  lemma {:induction false} ShardingRefinesExactly(env: Env, router: Router, one: Store, shards: seq<Store>,
          calls: seq<Call>)
    requires router.Valid() && Splits(router, one, shards) && AllSingleKey(calls)
    ensures AgreeThroughout(env, router, one, shards, calls) <==> AlikeRun(env, router, one, shards, calls)
  {
    if calls == [] {
    } else {
      hide WorkerExecute, Dispatch, SameFate, Splits, OneRun, ShardRun;
      var front, call := calls[..|calls| - 1], calls[|calls| - 1];
      ShardingRefinesExactly(env, router, one, shards, front);
      LastCall(env, router, one, shards, calls);
      if AgreeThroughout(env, router, one, shards, front) {
        DispatchSplitsExactly(env, router, OneRun(env, one, front).0, ShardRun(env, router, shards, front).0, call);
      }
    }
  }

  // ----- runs in which nothing falls due -----

  /** No clock reading of the call reaches a deadline in the store. */
  ghost predicate Quiet(s: Store, call: Call) {
    forall k, m: nat :: k in s.wheel.deadlines ==> call.readings(m) < s.wheel.deadlines[k]
  }

  /** Every call is a single-key one, and no deadline of the one store falls due in it. */
  ghost predicate QuietRun(env: Env, s: Store, calls: seq<Call>)
    requires s.WellFormed()
  {
    calls == [] ||
    (QuietRun(env, s, calls[..|calls| - 1])
     && SingleKey(calls[|calls| - 1].request.command)
     && Quiet(OneRun(env, s, calls[..|calls| - 1]).0, calls[|calls| - 1]))
  }

  lemma ShardIsQuiet(router: Router, one: Store, shards: seq<Store>, call: Call, p: nat)
    requires router.Valid() && Splits(router, one, shards) && Quiet(one, call) && p < |shards|
    ensures Quiet(shards[p], call)
  {
    forall k, m: nat | k in shards[p].wheel.deadlines ensures call.readings(m) < shards[p].wheel.deadlines[k] {
      assert k in shards[p].data;
      assert StateOf(one, k) == StateOf(shards[router.RouteKey(k)], k);
    }
  }

  lemma QuietDrain(s: Store, call: Call, m: nat)
    requires s.WellFormed() && Quiet(s, call)
    ensures s.wheel.DueKeys(call.readings(m)) == {}
    ensures var s' := s.AfterExpirations(call.readings(m));
            s'.data == s.data && s'.wheel.deadlines == s.wheel.deadlines && Quiet(s', call)
  {
    hide TickOf, Swept;
    assert s.wheel.DueKeys(call.readings(m)) == {};
  }

  lemma QuietDropsNothing(env: Env, s: Store, call: Call)
    requires s.WellFormed() && Quiet(s, call)
    ensures Drops(env, s, call) == {} && AtLookup(env, s, call).data == s.data
  {
    hide TickOf, Swept, Quiet, Wheel.DueKeys, Store.AfterExpirations;
    var s0 := s.AfterExpirations(call.readings(0));
    QuietDrain(s, call, 0);
    QuietDrain(s0, call, 1);
    QuietDrain(AtLookup(env, s, call), call, 2);
    QuietDrain(AtLookup(env, s, call), call, 3);
  }

  lemma {:induction false} QuietRunsAgree(env: Env, router: Router, one: Store, shards: seq<Store>, calls: seq<Call>)
    requires router.Valid() && Splits(router, one, shards) && QuietRun(env, one, calls)
    ensures AgreeThroughout(env, router, one, shards, calls)
  {
    if calls == [] {
    } else {
      hide WorkerExecute, Dispatch, Splits, Quiet, AtLookup, Drops;
      var front, call := calls[..|calls| - 1], calls[|calls| - 1];
      var one', shards' := OneRun(env, one, front).0, ShardRun(env, router, shards, front).0;
      QuietRunsAgree(env, router, one, shards, front);
      var p := router.RouteRequest(call.request);
      ShardIsQuiet(router, one', shards', call, p);
      QuietDropsNothing(env, one', call);
      QuietDropsNothing(env, shards'[p], call);
      OwnKeyIsSplit(env, router, one', shards', call);
      DispatchSplitsExactly(env, router, one', shards', call);
    }
  }

  lemma OwnKeyIsSplit(env: Env, router: Router, one: Store, shards: seq<Store>, call: Call)
    requires router.Valid() && Splits(router, one, shards)
    ensures var own := OwnKey(env, call.request);
            own.Some? ==> (own.value in one.data <==> own.value in shards[router.RouteRequest(call.request)].data)
  {
    var own := OwnKey(env, call.request);
    if own.Some? {
      assert StateOf(one, own.value) == StateOf(shards[router.RouteKey(own.value)], own.value);
    }
  }

  /** While no deadline falls due, N routed stores refine one store: their disjoint union stays its
      state, every key lives only in its routed shard, and every answer is the same. */
  lemma ShardingRefinesOneStore(env: Env, router: Router, one: Store, shards: seq<Store>, calls: seq<Call>)
    requires router.Valid() && Splits(router, one, shards) && QuietRun(env, one, calls)
    ensures Splits(router, OneRun(env, one, calls).0, ShardRun(env, router, shards, calls).0)
    ensures OneRun(env, one, calls).1 == ShardRun(env, router, shards, calls).1
  {
    hide QuietRun;
    QuietRunsAgree(env, router, one, shards, calls);
  }

  /** In particular from the start, with every store new. */
  lemma NewShardsRefineNewStore(env: Env, router: Router, calls: seq<Call>)
    requires router.Valid() && QuietRun(env, EmptyStore(), calls)
    ensures var shards := NewShards(router.workers);
            && Splits(router, OneRun(env, EmptyStore(), calls).0, ShardRun(env, router, shards, calls).0)
            && OneRun(env, EmptyStore(), calls).1 == ShardRun(env, router, shards, calls).1
  {
    hide WorkerExecute;
    ShardingRefinesOneStore(env, router, EmptyStore(), NewShards(router.workers), calls);
  }

  /** The calls routed to one shard, in order. */
  function RoutedTo(router: Router, calls: seq<Call>, p: nat): seq<Call>
    requires router.Valid()
  {
    if calls == [] then []
    else
      var call := calls[|calls| - 1];
      RoutedTo(router, calls[..|calls| - 1], p) + if router.RouteRequest(call.request) == p then [call] else []
  }

  /** Replaying the shared log through the router leaves each shard as replaying its own part of
      the log does, whatever the log and whatever the clock. */
  lemma {:induction false} SharedLogFactorsByShard(env: Env, router: Router, shards: seq<Store>,
          calls: seq<Call>, p: nat)
    requires router.Valid() && |shards| == router.workers && AllWellFormed(shards) && p < |shards|
    ensures ShardRun(env, router, shards, calls).0[p] == OneRun(env, shards[p], RoutedTo(router, calls, p)).0
  {
    hide WorkerExecute;
    if calls == [] {
    } else {
      var front, call := calls[..|calls| - 1], calls[|calls| - 1];
      SharedLogFactorsByShard(env, router, shards, front, p);
      var mine := RoutedTo(router, front, p);
      if router.RouteRequest(call.request) == p {
        assert (mine + [call])[..|mine|] == mine;
      } else {
        assert mine + [] == mine;
      }
    }
  }
}
