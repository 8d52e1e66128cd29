/**
 The store without its second copy of the deadlines: values, and a wheel whose deadlines belong to
 keys of the data.  The class MemoryStore refines this.  Every clock reading an operation makes is
 a parameter, in the order the readings are made.
 */
module StoreSpec {
  import opened Options
  import opened Types
  import opened WheelSpec

  const DEFAULT_TICK_SECONDS: real := 0.1
  const DEFAULT_BUCKET_COUNT: nat := 512

  /** Truncation toward zero. */
  function Truncate(r: real): int {
    if r >= 0.0 then r.Floor else -(-r).Floor
  }

  /** A key with this deadline is, at `now`, a second or more past it: a TTL then deletes the key. */
  predicate LongOverdue(deadline: Option<real>, now: real) {
    deadline.Some? && Truncate(deadline.value - now) < 0
  }

  datatype Store = Store(data: map<string, string>, wheel: Wheel) {

    ghost predicate WellFormed() {
      wheel.WellFormed() && wheel.deadlines.Keys <= data.Keys
    }

    ghost function AfterExpirations(now: real): (s': Store)
      requires WellFormed()
      ensures s'.WellFormed()
    {
      Store(data - wheel.DueKeys(now), wheel.Drained(now))
    }

    ghost function Without(k: string): (s': Store)
      ensures WellFormed() ==> s'.WellFormed()
    {
      Store(data - {k}, wheel.Cancelled(k))
    }

    ghost function AfterSet(k: string, v: string, now: real): (s': Store)
      requires WellFormed()
      ensures s'.WellFormed()
    {
      var s := AfterExpirations(now);
      Store(s.data[k := v], s.wheel.Cancelled(k))
    }

    ghost function Lookup(k: string): Option<string> {
      if k in data then Some(data[k]) else None
    }

    ghost function AfterDelete(k: string, now: real): (result: (Store, bool))
      requires WellFormed()
      ensures result.0.WellFormed()
    {
      var s := AfterExpirations(now);
      (s.Without(k), k in s.data)
    }

    ghost function AfterExpire(k: string, seconds: int, now: real, then': real): (result: (Store, bool))
      requires WellFormed()
      ensures result.0.WellFormed()
    {
      var s := AfterExpirations(now);
      if k !in s.data then (s, false)
      else if seconds <= 0 then (s.AfterDelete(k, then').0, true)
      else (Store(s.data, s.wheel.Scheduled(k, then' + seconds as real)), true)
    }

    ghost function AfterTtl(k: string, now: real, then': real, last: real): (result: (Store, int))
      requires WellFormed()
      ensures result.0.WellFormed()
    {
      var s := AfterExpirations(now);
      if k !in s.data then (s, -2)
      else if k !in s.wheel.deadlines then (s, -1)
      else
        var remaining := Truncate(s.wheel.deadlines[k] - then');
        if remaining < 0 then (s.AfterDelete(k, last).0, -2) else (s, remaining)
    }

    ghost function AfterFlush(now: real): (result: (Store, nat))
      requires WellFormed()
      ensures result.0.WellFormed()
    {
      (EmptyStore(), |AfterExpirations(now).data|)
    }

    /** The effect of a logged request during recovery. */
    ghost function AfterReplay(env: Env, request: Request, readings: Readings): (s': Store)
      requires WellFormed()
      ensures s'.WellFormed()
    {
      var s, args := AfterExpirations(readings(0)), request.args;
      match request.command
      case SET => if |args| == 2 then s.AfterSet(args[0], args[1], readings(1)) else s
      case DEL => if |args| == 1 then s.AfterDelete(args[0], readings(1)).0 else s
      case EXPIRE =>
        if |args| == 2 && env.parseInt(args[1]).Some?
        then s.AfterExpire(args[0], env.parseInt(args[1]).value, readings(1), readings(2)).0
        else s
      case FLUSHALL => if |args| == 0 then s.AfterFlush(readings(1)).0 else s
      case _ => s
    }
  }

  /** What a store holds for one key. */
  datatype KeyState = KeyState(value: Option<string>, deadline: Option<real>)

  const NOTHING := KeyState(None, None)

  ghost function StateOf(s: Store, k: string): KeyState {
    KeyState(s.Lookup(k), if k in s.wheel.deadlines then Some(s.wheel.deadlines[k]) else None)
  }

  /** A new store, and what a flush leaves: the wheel is a default one, whatever it was before. */
  function EmptyStore(): Store {
    Store(map[], EmptyWheel(DEFAULT_TICK_SECONDS, DEFAULT_BUCKET_COUNT))
  }

  lemma WithoutAbsentKey(s: Store, k: string)
    requires s.WellFormed() && k !in s.data
    ensures s.Without(k) == s
  {
    assert s.data - {k} == s.data && s.wheel.deadlines - {k} == s.wheel.deadlines;
  }
}
