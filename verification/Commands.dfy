/** Command execution: src/commands.py. */
module Commands {
  import opened Options
  import opened Types
  import opened StoreSpec
  import opened MemoryStores

  function IntegerOf(done: bool): Response {
    Integer(if done then 1 else 0)
  }

  function BulkOrNull(value: Option<string>): Response {
    match value
    case None => Null
    case Some(v) => Bulk(v)
  }

  /** The successive lookups of MGET, each after a drain of its own. */
  ghost function AfterGets(s: Store, keys: seq<string>, readings: Readings): (result: (Store, seq<Option<string>>))
    requires s.WellFormed()
    ensures result.0.WellFormed() && |result.1| == |keys|
  {
    if keys == [] then (s, [])
    else
      var n := |keys| - 1;
      var (front, values) := AfterGets(s, keys[..n], readings);
      var s' := front.AfterExpirations(readings(n));
      (s', values + [s'.Lookup(keys[n])])
  }

  ghost function Execute(env: Env, s: Store, request: Request, readings: Readings): (result: (Store, Response))
    requires s.WellFormed()
    ensures result.0.WellFormed()
  {
    var args := request.args;
    match request.command
    case PING =>
      if |args| != 0 then (s, Error(WRONG_ARITY)) else (s, Simple("PONG"))
    case SET =>
      if |args| != 2 then (s, Error(WRONG_ARITY))
      else (s.AfterSet(args[0], args[1], readings(0)), Simple("OK"))
    case GET =>
      if |args| != 1 then (s, Error(WRONG_ARITY))
      else
        var s' := s.AfterExpirations(readings(0));
        (s', BulkOrNull(s'.Lookup(args[0])))
    case DEL =>
      if |args| != 1 then (s, Error(WRONG_ARITY))
      else
        var (s', deleted) := s.AfterDelete(args[0], readings(0));
        (s', IntegerOf(deleted))
    case EXPIRE =>
      if |args| != 2 then (s, Error(WRONG_ARITY))
      else if env.parseInt(args[1]).None? then (s, Error(INVALID_REQUEST))
      else
        var (s', done) := s.AfterExpire(args[0], env.parseInt(args[1]).value, readings(0), readings(1));
        (s', IntegerOf(done))
    case TTL =>
      if |args| != 1 then (s, Error(WRONG_ARITY))
      else
        var (s', seconds) := s.AfterTtl(args[0], readings(0), readings(1), readings(2));
        (s', Integer(seconds))
    case MGET =>
      if |args| < 1 then (s, Error(WRONG_ARITY))
      else
        var (s', values) := AfterGets(s, args, readings);
        (s', Array(values))
    case KEYS =>
      if |args| > 1 then (s, Error(WRONG_ARITY))
      else
        var s' := s.AfterExpirations(readings(0));
        var pattern := if |args| == 1 then args[0] else "*";
        (s', Names(set k | k in s'.data && env.glob(k, pattern)))
    case FLUSHALL =>
      if |args| != 0 then (s, Error(WRONG_ARITY))
      else
        var (s', count) := s.AfterFlush(readings(0));
        (s', Integer(count))
  }

  method ExecuteCommand(env: Env, request: Request, store: MemoryStore, readings: Readings)
    returns (response: Response)
    requires store.Valid()
    modifies store, store.timingWheel
    ensures store.Valid() && (store.timingWheel == old(store.timingWheel) || fresh(store.timingWheel))
    ensures (store.View(), response) == Execute(env, old(store.View()), request, readings)
  {
    var args := request.args;
    match request.command
    case PING =>
      if |args| != 0 { return Error(WRONG_ARITY); }
      return Simple("PONG");
    case SET =>
      if |args| != 2 { return Error(WRONG_ARITY); }
      store.Set(args[0], args[1], readings(0));
      return Simple("OK");
    case GET =>
      if |args| != 1 { return Error(WRONG_ARITY); }
      var value := store.Get(args[0], readings(0));
      return BulkOrNull(value);
    case DEL =>
      if |args| != 1 { return Error(WRONG_ARITY); }
      var deleted := store.Delete(args[0], readings(0));
      return IntegerOf(deleted);
    case EXPIRE =>
      if |args| != 2 { return Error(WRONG_ARITY); }
      var seconds := env.parseInt(args[1]);
      if seconds.None? { return Error(INVALID_REQUEST); }
      var done := store.Expire(args[0], seconds.value, readings(0), readings(1));
      return IntegerOf(done);
    case TTL =>
      if |args| != 1 { return Error(WRONG_ARITY); }
      var remaining := store.Ttl(args[0], readings(0), readings(1), readings(2));
      return Integer(remaining);
    case MGET =>
      if |args| < 1 { return Error(WRONG_ARITY); }
      var values := GetAll(args, store, readings);
      return Array(values);
    case KEYS =>
      if |args| > 1 { return Error(WRONG_ARITY); }
      var pattern := if |args| == 1 then args[0] else "*";
      var names := store.Keys(k => env.glob(k, pattern), readings(0));
      assert names == set k | k in store.View().data && env.glob(k, pattern);
      return Names(names);
    case FLUSHALL =>
      if |args| != 0 { return Error(WRONG_ARITY); }
      var count := store.Flush(readings(0));
      return Integer(count);
  }

  method GetAll(keys: seq<string>, store: MemoryStore, readings: Readings) returns (values: seq<Option<string>>)
    requires store.Valid()
    modifies store, store.timingWheel
    ensures store.Valid() && store.timingWheel == old(store.timingWheel)
    ensures (store.View(), values) == AfterGets(old(store.View()), keys, readings)
  {
    values := [];
    for i := 0 to |keys|
      invariant store.Valid() && store.timingWheel == old(store.timingWheel)
      invariant (store.View(), values) == AfterGets(old(store.View()), keys[..i], readings)
    {
      assert keys[..i + 1][..i] == keys[..i];
      var value := store.Get(keys[i], readings(i));
      values := values + [value];
    }
    assert keys[..|keys|] == keys;
  }
}
