/** What the commands answer, said without the code that answers it: src/commands.py. */
module CommandAnswers {
  import opened Options
  import opened Types
  import opened Ticks
  import opened WheelSpec
  import opened StoreSpec
  import opened Commands

  /** How many arguments a command takes. */
  predicate TakesArguments(command: CommandName, n: nat) {
    match command
    case PING | FLUSHALL => n == 0
    case GET | DEL | TTL => n == 1
    case SET | EXPIRE => n == 2
    case MGET => n >= 1
    case KEYS => n <= 1
  }

  predicate NeedsInteger(env: Env, request: Request) {
    request.command == EXPIRE && |request.args| == 2 && env.parseInt(request.args[1]).None?
  }

  /** A request fails for its number of arguments, or as an EXPIRE for what is no integer, and for
      nothing else; and then the store is as before, its expirations not even processed. */
  lemma ErrorsExactly(env: Env, s: Store, request: Request, readings: Readings)
    requires s.WellFormed()
    ensures var (s', answer) := Execute(env, s, request, readings);
            && (answer == Error(WRONG_ARITY) <==> !TakesArguments(request.command, |request.args|))
            && (answer == Error(INVALID_REQUEST) <==> NeedsInteger(env, request))
            && (answer.Error? ==> s' == s && answer.code in {WRONG_ARITY, INVALID_REQUEST})
  {
    hide Store.AfterExpire, Store.AfterTtl, Store.AfterExpirations, AfterGets;
  }

  /** What a request that does not fail answers with. */
  lemma AnswerKinds(env: Env, s: Store, request: Request, readings: Readings)
    requires s.WellFormed() && !Execute(env, s, request, readings).1.Error?
    ensures var answer := Execute(env, s, request, readings).1;
            match request.command
            case PING => answer == Simple("PONG") && Execute(env, s, request, readings).0 == s
            case SET => answer == Simple("OK")
            case GET => answer.Bulk? || answer.Null?
            case DEL | EXPIRE => answer in {Integer(0), Integer(1)}
            case TTL => answer.Integer? && answer.integer >= -2
            case FLUSHALL => answer.Integer? && answer.integer >= 0
            case MGET => answer.Array? && |answer.values| == |request.args|
            case KEYS => answer.Names?
  {
    hide Store.AfterExpire, Store.AfterExpirations;
  }

  lemma OneGet(s: Store, k: string, readings: Readings)
    requires s.WellFormed()
    ensures AfterGets(s, [k], readings).1 == [s.AfterExpirations(readings(0)).Lookup(k)]
  {
    hide Store.AfterExpirations;
    assert [k][..0] == [] && AfterGets(s, [], readings) == (s, []);
  }

  /** A key just set is there, with its value and without a TTL, whenever it is asked for. */
  lemma SetIsRead(env: Env, s: Store, k: string, v: string, readings: Readings, later: Readings)
    requires s.WellFormed()
    ensures var s' := Execute(env, s, Request(SET, [k, v]), readings).0;
            && Execute(env, s', Request(GET, [k]), later).1 == Bulk(v)
            && Execute(env, s', Request(TTL, [k]), later).1 == Integer(-1)
            && Execute(env, s', Request(MGET, [k]), later).1 == Array([Some(v)])
            && Execute(env, s', Request(DEL, [k]), later).1 == Integer(1)
  {
    var s' := Execute(env, s, Request(SET, [k, v]), readings).0;
    OneGet(s', k, later);
    assert k !in s'.wheel.deadlines;
  }

  /** A key just given a TTL is there, and TTL answers the whole seconds that are left of it, until a
      clock reading comes to its end. */
  lemma ExpireIsRead(env: Env, s: Store, k: string, seconds: string, readings: Readings, later: Readings)
    requires s.WellFormed() && env.parseInt(seconds).Some? && env.parseInt(seconds).value > 0
    requires Execute(env, s, Request(EXPIRE, [k, seconds]), readings).1 == Integer(1)
    requires forall m: nat :: later(m) < readings(1) + env.parseInt(seconds).value as real
    ensures var s' := Execute(env, s, Request(EXPIRE, [k, seconds]), readings).0;
            && Execute(env, s', Request(GET, [k]), later).1.Bulk?
            && Execute(env, s', Request(TTL, [k]), later).1
            == Integer((env.parseInt(seconds).value as real - (later(1) - readings(1))).Floor)
  {
    hide TickOf, Swept;
    var s' := Execute(env, s, Request(EXPIRE, [k, seconds]), readings).0;
    assert k !in s'.wheel.DueKeys(later(0));
  }

  /** A key just deleted, or given a TTL that is not positive, is gone. */
  lemma DeletedIsGone(env: Env, s: Store, k: string, seconds: string, readings: Readings, later: Readings)
    requires s.WellFormed() && env.parseInt(seconds).Some? && env.parseInt(seconds).value <= 0
    ensures forall request :: request in {Request(DEL, [k]), Request(EXPIRE, [k, seconds])} ==>
              var s' := Execute(env, s, request, readings).0;
              && Execute(env, s', Request(GET, [k]), later).1 == Null
              && Execute(env, s', Request(TTL, [k]), later).1 == Integer(-2)
              && Execute(env, s', Request(DEL, [k]), later).1 == Integer(0)
  {
  }

  /** The pattern that matches everything lists every key, and so does KEYS without a pattern. */
  lemma KeysListsAll(env: Env, s: Store, readings: Readings)
    requires s.WellFormed() && forall k :: env.glob(k, "*")
    ensures Execute(env, s, Request(KEYS, ["*"]), readings).1 == Names(s.AfterExpirations(readings(0)).data.Keys)
    ensures Execute(env, s, Request(KEYS, []), readings) == Execute(env, s, Request(KEYS, ["*"]), readings)
  {
    hide Store.AfterExpirations;
    var data := s.AfterExpirations(readings(0)).data;
    assert data.Keys == set k | k in data && env.glob(k, "*");
  }

  /** FLUSHALL answers how many keys KEYS would have listed, and KEYS then lists none. */
  lemma FlushCountsKeys(env: Env, s: Store, readings: Readings, later: Readings)
    requires s.WellFormed() && forall k :: env.glob(k, "*")
    ensures var listed := Execute(env, s, Request(KEYS, ["*"]), readings).1;
            var (s', answer) := Execute(env, s, Request(FLUSHALL, []), readings);
            && listed.Names? && answer == Integer(|listed.names|)
            && Execute(env, s', Request(KEYS, ["*"]), later).1 == Names({})
  {
    hide Store.AfterExpirations;
    KeysListsAll(env, s, readings);
    KeysListsAll(env, EmptyStore(), later);
    EmptyStoreStaysEmpty(later(0));
    assert |s.AfterExpirations(readings(0)).data| == |s.AfterExpirations(readings(0)).data.Keys|;
  }

  lemma EmptyStoreStaysEmpty(now: real)
    ensures EmptyStore().AfterExpirations(now).data.Keys == {}
  {
  }
}
