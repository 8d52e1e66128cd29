/**
 What a run says about one key, read off the commands and the clock alone: a reference for the store
 that knows nothing of wheels, buckets or other keys.
 */
module KeyHistory {
  import opened Options
  import opened Types
  import opened WheelSpec
  import opened StoreSpec
  import opened Commands
  import opened StoreRuns

  /** `Lapsed`: a clock reading has reached a deadline of the key, so it may be gone; if it is not,
      this is its value and deadline. */
  datatype Trace = Absent | Live(value: string, deadline: Option<real>) | Lapsed(value: string, since: real)

  function Observe(trace: Trace, now: real): Trace {
    if trace.Live? && trace.deadline.Some? && trace.deadline.value <= now
    then Lapsed(trace.value, trace.deadline.value) else trace
  }

  /** The deadline that the key has if it is there. */
  function DeadlineOf(trace: Trace): Option<real> {
    match trace
    case Absent => None
    case Live(_, deadline) => deadline
    case Lapsed(_, e) => Some(e)
  }

  function WithDeadline(trace: Trace, deadline: real): Trace {
    match trace
    case Absent => Absent
    case Live(v, _) => Live(v, Some(deadline))
    case Lapsed(v, _) => Lapsed(v, deadline)
  }

  /** The first `n` readings of a command.  A reading that the command skips counts as a repeat of
      an earlier one. */
  function ObserveAll(trace: Trace, readings: Readings, n: nat): Trace {
    if n == 0 then trace else Observe(ObserveAll(trace, readings, n - 1), readings(n - 1))
  }

  function Next(env: Env, trace: Trace, key: string, step: Step): Trace {
    match step
    case Cycle(now) => Observe(trace, now)
    case Command(Request(command, args), readings) =>
      match command
      case PING => trace
      case SET =>
        if |args| != 2 then trace
        else if args[0] == key then Live(args[1], None)
        else Observe(trace, readings(0))
      case GET => if |args| != 1 then trace else Observe(trace, readings(0))
      case DEL =>
        if |args| != 1 then trace
        else if args[0] == key then Absent
        else Observe(trace, readings(0))
      case EXPIRE =>
        if |args| != 2 || env.parseInt(args[1]).None? then trace
        else if args[0] != key then ObserveAll(trace, readings, 2)
        else if env.parseInt(args[1]).value <= 0 then Absent
        else WithDeadline(Observe(trace, readings(0)), readings(1) + env.parseInt(args[1]).value as real)
      case TTL =>
        if |args| != 1 then trace
        else if args[0] != key then ObserveAll(trace, readings, 3)
        else if LongOverdue(DeadlineOf(Observe(trace, readings(0))), readings(1)) then Absent
        else Observe(trace, readings(0))
      case MGET => ObserveAll(trace, readings, |args|)
      case KEYS => if |args| > 1 then trace else Observe(trace, readings(0))
      case FLUSHALL => if |args| != 0 then trace else Absent
  }

  function TraceOf(env: Env, steps: seq<Step>, key: string): Trace {
    if steps == [] then Absent else Next(env, TraceOf(env, steps[..|steps| - 1], key), key, steps[|steps| - 1])
  }

  ghost predicate Follows(s: Store, key: string, trace: Trace) {
    match trace
    case Absent => key !in s.data
    case Live(v, None) => key in s.data && s.data[key] == v && key !in s.wheel.deadlines
    case Live(v, Some(e)) =>
      key in s.data && s.data[key] == v && key in s.wheel.deadlines && s.wheel.deadlines[key] == e
    case Lapsed(v, e) =>
      key in s.data ==> s.data[key] == v && key in s.wheel.deadlines && s.wheel.deadlines[key] == e
  }

  lemma ExpirationsFollow(s: Store, key: string, trace: Trace, now: real)
    requires s.WellFormed() && Follows(s, key, trace)
    ensures Follows(s.AfterExpirations(now), key, Observe(trace, now))
  {
    hide Swept;
    assert key in s.wheel.DueKeys(now) ==> key in s.wheel.deadlines && s.wheel.deadlines[key] <= now;
  }

  lemma WithoutOtherFollows(s: Store, other: string, key: string, trace: Trace)
    requires s.WellFormed() && Follows(s, key, trace)
    ensures other != key ==> Follows(s.Without(other), key, trace)
    ensures Follows(s.Without(key), key, Absent)
  {
  }

  lemma ExpireFollows(s: Store, k: string, seconds: int, readings: Readings, key: string, trace: Trace)
    requires s.WellFormed() && Follows(s, key, trace)
    ensures var s' := s.AfterExpire(k, seconds, readings(0), readings(1)).0;
            && (k != key ==> Follows(s', key, ObserveAll(trace, readings, 2)))
            && (k == key && seconds <= 0 ==> Follows(s', key, Absent))
            && (k == key && seconds > 0 ==>
                  Follows(s', key, WithDeadline(Observe(trace, readings(0)), readings(1) + seconds as real)))
  {
    hide Swept, Store.AfterExpirations;
    var s1 := s.AfterExpirations(readings(0));
    var seen := Observe(trace, readings(0));
    ExpirationsFollow(s, key, trace, readings(0));
    ExpirationsFollow(s1, key, seen, readings(1));
    WithoutOtherFollows(s1.AfterExpirations(readings(1)), k, key, Observe(seen, readings(1)));
    assert ObserveAll(trace, readings, 2) == Observe(seen, readings(1)) by {
      assert ObserveAll(trace, readings, 1) == seen;
    }
  }

  lemma TtlFollows(s: Store, k: string, readings: Readings, key: string, trace: Trace)
    requires s.WellFormed() && Follows(s, key, trace)
    ensures var s', seen := s.AfterTtl(k, readings(0), readings(1), readings(2)).0, Observe(trace, readings(0));
            && (k != key ==> Follows(s', key, ObserveAll(trace, readings, 3)))
            && (k == key ==> Follows(s', key, if LongOverdue(DeadlineOf(seen), readings(1)) then Absent else seen))
  {
    hide Swept, Store.AfterExpirations;
    var s1 := s.AfterExpirations(readings(0));
    var seen := Observe(trace, readings(0));
    var later := Observe(seen, readings(1));
    ExpirationsFollow(s, key, trace, readings(0));
    ExpirationsFollow(s1, key, seen, readings(2));
    WithoutOtherFollows(s1.AfterExpirations(readings(2)), k, key, Observe(seen, readings(2)));
    assert ObserveAll(trace, readings, 1) == seen;
    assert ObserveAll(trace, readings, 2) == later;
    assert ObserveAll(trace, readings, 3) == Observe(later, readings(2));
  }

  lemma {:induction false} GetsFollow(s: Store, keys: seq<string>, readings: Readings, key: string, trace: Trace)
    requires s.WellFormed() && Follows(s, key, trace)
    ensures Follows(AfterGets(s, keys, readings).0, key, ObserveAll(trace, readings, |keys|))
  {
    if keys == [] {
    } else {
      var n := |keys| - 1;
      GetsFollow(s, keys[..n], readings, key, trace);
      ExpirationsFollow(AfterGets(s, keys[..n], readings).0, key, ObserveAll(trace, readings, n), readings(n));
    }
  }

  lemma StepFollows(env: Env, s: Store, key: string, trace: Trace, step: Step)
    requires s.WellFormed() && Follows(s, key, trace)
    ensures Follows(Do(env, s, step), key, Next(env, trace, key, step))
  {
    match step
    case Cycle(now) => ExpirationsFollow(s, key, trace, now);
    case Command(Request(command, args), readings) =>
      ExpirationsFollow(s, key, trace, readings(0));
      match command {
        case DEL =>
          if |args| == 1 {
            WithoutOtherFollows(s.AfterExpirations(readings(0)), args[0], key, Observe(trace, readings(0)));
          }
        case EXPIRE =>
          if |args| == 2 && env.parseInt(args[1]).Some? {
            ExpireFollows(s, args[0], env.parseInt(args[1]).value, readings, key, trace);
          }
        case TTL =>
          if |args| == 1 { TtlFollows(s, args[0], readings, key, trace); }
        case MGET =>
          if |args| >= 1 { GetsFollow(s, args, readings, key, trace); }
        case _ =>
      }
  }

  /** Nothing is removed early and nothing comes back.  Over any run and any clock readings, in or
      out of order, a key holds the value of its latest SET, with its current deadline exactly,
      until it is deleted, given a non-positive TTL, flushed, or a reading reaches the deadline;
      once deleted it stays away until the next SET. */
  lemma {:induction false} StoreFollowsHistory(env: Env, s: Store, steps: seq<Step>, key: string)
    requires s.WellFormed() && s.data == map[]
    ensures Follows(Run(env, s, steps), key, TraceOf(env, steps, key))
  {
    if steps == [] {
    } else {
      var front := steps[..|steps| - 1];
      StoreFollowsHistory(env, s, front, key);
      StepFollows(env, Run(env, s, front), key, TraceOf(env, front, key), steps[|steps| - 1]);
    }
  }

  /** What GET and TTL then answer. */
  lemma AnswersFollowHistory(env: Env, s: Store, key: string, trace: Trace, readings: Readings)
    requires s.WellFormed() && Follows(s, key, trace)
    ensures var answer := Execute(env, s, Request(GET, [key]), readings).1;
            match Observe(trace, readings(0))
            case Absent => answer == Null
            case Live(v, _) => answer == Bulk(v)
            case Lapsed(v, _) => answer == Null || answer == Bulk(v)
    ensures var answer := Execute(env, s, Request(TTL, [key]), readings).1;
            answer.Integer? &&
            match Observe(trace, readings(0))
            case Absent => answer.integer == -2
            case Live(_, None) => answer.integer == -1
            case Live(_, Some(e)) => answer.integer == RemainingOrGone(e - readings(1))
            case Lapsed(_, e) => answer.integer in {-2, RemainingOrGone(e - readings(1))}
  {
    ExpirationsFollow(s, key, trace, readings(0));
  }

  /** The seconds left, or passed by less than one; -2 from a second past the deadline on. */
  function RemainingOrGone(remaining: real): (seconds: int)
    ensures remaining >= 0.0 ==> 0 <= seconds && seconds as real <= remaining < seconds as real + 1.0
    ensures -1.0 < remaining < 0.0 ==> seconds == 0
    ensures remaining <= -1.0 ==> seconds == -2
  {
    if Truncate(remaining) < 0 then -2 else Truncate(remaining)
  }

  /** What DEL and EXPIRE answer: 1 for a key that is there, 0 for one that is not. */
  lemma WriteAnswersFollowHistory(env: Env, s: Store, key: string, seconds: string, trace: Trace, readings: Readings)
    requires s.WellFormed() && Follows(s, key, trace) && env.parseInt(seconds).Some?
    ensures var deleted, expired :=
              Execute(env, s, Request(DEL, [key]), readings).1,
              Execute(env, s, Request(EXPIRE, [key, seconds]), readings).1;
            match Observe(trace, readings(0))
            case Absent => deleted == Integer(0) && expired == Integer(0)
            case Live(_, _) => deleted == Integer(1) && expired == Integer(1)
            case Lapsed(_, _) => deleted == expired && deleted in {Integer(0), Integer(1)}
  {
    ExpirationsFollow(s, key, trace, readings(0));
  }

  lemma {:induction false} LookupsFollowHistory(s: Store, keys: seq<string>, readings: Readings, i: nat, trace: Trace)
    requires s.WellFormed() && i < |keys| && Follows(s, keys[i], trace)
    ensures var value := AfterGets(s, keys, readings).1[i];
            match ObserveAll(trace, readings, i + 1)
            case Absent => value == None
            case Live(v, _) => value == Some(v)
            case Lapsed(v, _) => value == None || value == Some(v)
  {
    var n := |keys| - 1;
    if i == n {
      GetsFollow(s, keys[..n], readings, keys[i], trace);
      ExpirationsFollow(AfterGets(s, keys[..n], readings).0, keys[i], ObserveAll(trace, readings, n), readings(n));
    } else {
      LookupsFollowHistory(s, keys[..n], readings, i, trace);
    }
  }

  /** What MGET and KEYS answer about one key. */
  lemma ListAnswersFollowHistory(env: Env, s: Store, keys: seq<string>, i: nat, pattern: string, trace: Trace,
          readings: Readings)
    requires s.WellFormed() && i < |keys| && Follows(s, keys[i], trace)
    ensures var found, listed :=
              Execute(env, s, Request(MGET, keys), readings).1, Execute(env, s, Request(KEYS, [pattern]), readings).1;
            && found.Array? && |found.values| == |keys|
            && (match ObserveAll(trace, readings, i + 1)
                case Absent => found.values[i] == None
                case Live(v, _) => found.values[i] == Some(v)
                case Lapsed(v, _) => found.values[i] in {None, Some(v)})
            && listed.Names?
            && (match Observe(trace, readings(0))
                case Absent => keys[i] !in listed.names
                case Live(_, _) => keys[i] in listed.names <==> env.glob(keys[i], pattern)
                case Lapsed(_, _) => keys[i] in listed.names ==> env.glob(keys[i], pattern))
  {
    LookupsFollowHistory(s, keys, readings, i, trace);
    ExpirationsFollow(s, keys[i], trace, readings(0));
  }
}
