/**
 What a log means and what replaying it gives: src/store.py, src/process_worker.py.  The log keeps
 relative TTLs, and no evictions.
 */
module Replay {
  import opened Options
  import opened Types
  import opened WheelSpec
  import opened StoreSpec

  /** Which requests are logged: the worker's _is_write and the server's _is_persisted_write. */
  predicate IsWrite(request: Request, response: Response) {
    && !response.Error?
    && (request.command == SET || request.command == DEL || (request.command == EXPIRE && response == Integer(1)))
  }

  // ----- what a log means -----

  /** A log read without a clock: values, and for some keys a TTL in seconds. */
  datatype Image = Image(data: map<string, string>, ttls: map<string, int>)

  function ImageStep(env: Env, image: Image, request: Request): Image {
    var args := request.args;
    match request.command
    case SET =>
      if |args| != 2 then image else Image(image.data[args[0] := args[1]], image.ttls - {args[0]})
    case DEL =>
      if |args| != 1 then image else Image(image.data - {args[0]}, image.ttls - {args[0]})
    case EXPIRE =>
      if |args| != 2 || env.parseInt(args[1]).None? || args[0] !in image.data then image
      else if env.parseInt(args[1]).value <= 0 then Image(image.data - {args[0]}, image.ttls - {args[0]})
      else Image(image.data, image.ttls[args[0] := env.parseInt(args[1]).value])
    case FLUSHALL => if |args| != 0 then image else Image(map[], map[])
    case _ => image
  }

  function ImageOf(env: Env, log: seq<Request>): Image {
    if log == [] then Image(map[], map[])
    else ImageStep(env, ImageOf(env, log[..|log| - 1]), log[|log| - 1])
  }

  lemma ImageOfOneMore(env: Env, log: seq<Request>, request: Request)
    ensures ImageOf(env, log + [request]) == ImageStep(env, ImageOf(env, log), request)
  {
    assert (log + [request])[..|log|] == log;
  }

  /** Replay into a new store; `replay(i)` are the clock readings made for record `i`. */
  ghost function Replayed(env: Env, log: seq<Request>, replay: nat -> Readings): (s: Store)
    ensures s.WellFormed()
  {
    if log == [] then EmptyStore()
    else Replayed(env, log[..|log| - 1], replay).AfterReplay(env, log[|log| - 1], replay(|log| - 1))
  }

  lemma ReplayedNone(env: Env, replay: nat -> Readings)
    ensures Replayed(env, [], replay) == EmptyStore()
  {
  }

  lemma ReplayedOneMore(env: Env, log: seq<Request>, request: Request, replay: nat -> Readings)
    ensures Replayed(env, log + [request], replay)
         == Replayed(env, log, replay).AfterReplay(env, request, replay(|log|))
  {
    assert (log + [request])[..|log|] == log;
  }

  /** All clock readings of a replay of `n` records lie in one interval of length `spread`. */
  ghost predicate Spread(replay: nat -> Readings, n: nat, first: real, spread: real) {
    forall i: nat, m: nat :: i < n ==> first <= replay(i)(m) <= first + spread
  }

  // ----- what a replayed record does to one key -----

  predicate SetsKey(request: Request, k: string) {
    request.command == SET && |request.args| == 2 && request.args[0] == k
  }

  /** The TTL, if the request gives the key a positive one. */
  function TtlFor(env: Env, request: Request, k: string): Option<int> {
    if request.command == EXPIRE && |request.args| == 2 && request.args[0] == k
       && env.parseInt(request.args[1]).Some? && env.parseInt(request.args[1]).value > 0
    then env.parseInt(request.args[1]) else None
  }

  /** A record's effect on the state of one key, `now` being the reading a deadline is counted from. */
  function ReplayOnKey(env: Env, request: Request, now: real, k: string, state: KeyState): KeyState {
    var args := request.args;
    match request.command
    case SET => if SetsKey(request, k) then KeyState(Some(args[1]), None) else state
    case DEL => if |args| == 1 && args[0] == k then NOTHING else state
    case EXPIRE =>
      if |args| != 2 || args[0] != k || env.parseInt(args[1]).None? || state.value.None? then state
      else if env.parseInt(args[1]).value <= 0 then NOTHING
      else KeyState(state.value, Some(now + env.parseInt(args[1]).value as real))
    case FLUSHALL => if |args| == 0 then NOTHING else state
    case _ => state
  }

  /** Some reading of the record has come to the deadline of `k`. */
  ghost predicate Lapses(s: Store, readings: Readings, k: string) {
    k in s.wheel.deadlines && exists m: nat :: s.wheel.deadlines[k] <= readings(m)
  }

  /** The store still has `k` in its state in `s`, or has dropped it at one of the readings. */
  ghost predicate KeptOrLapsed(s: Store, readings: Readings, k: string, s': Store) {
    StateOf(s', k) == StateOf(s, k) || (StateOf(s', k) == NOTHING && Lapses(s, readings, k))
  }

  lemma DrainKeepsOrLapses(s: Store, readings: Readings, k: string, s': Store, m: nat)
    requires s.WellFormed() && s'.WellFormed() && KeptOrLapsed(s, readings, k, s')
    ensures KeptOrLapsed(s, readings, k, s'.AfterExpirations(readings(m)))
  {
    hide Swept;
  }

  lemma ReplayExpireFate(s: Store, readings: Readings, k: string, s': Store, j: string, seconds: int)
    requires s.WellFormed() && s'.WellFormed() && KeptOrLapsed(s, readings, k, s')
    ensures var state, state' := StateOf(s, k), StateOf(s'.AfterExpire(j, seconds, readings(1), readings(2)).0, k);
            || (Lapses(s, readings, k) && state' == NOTHING)
            || state' == (if j != k || state.value.None? then state
                          else if seconds <= 0 then NOTHING
                          else KeyState(state.value, Some(readings(2) + seconds as real)))
  {
    hide Swept;
    DrainKeepsOrLapses(s, readings, k, s', 1);
    DrainKeepsOrLapses(s, readings, k, s'.AfterExpirations(readings(1)), 2);
  }

  /** A replayed record acts on its key; any other loss of a key is a deadline that has come. */
  lemma ReplayFate(env: Env, s: Store, request: Request, readings: Readings, k: string)
    requires s.WellFormed()
    ensures var state := StateOf(s.AfterReplay(env, request, readings), k);
            || state == ReplayOnKey(env, request, readings(2), k, StateOf(s, k))
            || (Lapses(s, readings, k) && state == ReplayOnKey(env, request, readings(2), k, NOTHING))
  {
    hide Swept, Lapses, Store.AfterExpire, Store.AfterExpirations;
    var s0, args := s.AfterExpirations(readings(0)), request.args;
    DrainKeepsOrLapses(s, readings, k, s, 0);
    DrainKeepsOrLapses(s, readings, k, s0, 1);
    if request.command == EXPIRE && |args| == 2 && env.parseInt(args[1]).Some? {
      ReplayExpireFate(s, readings, k, s0, args[0], env.parseInt(args[1]).value);
    }
  }

  /** A key that a record does not set is absent after it, once absent after its first drain. */
  lemma AbsentStays(env: Env, s: Store, request: Request, readings: Readings, k: string)
    requires s.WellFormed() && !SetsKey(request, k) && k !in s.AfterExpirations(readings(0)).data
    ensures k !in s.AfterReplay(env, request, readings).data
  {
    hide Swept;
  }

  // ----- a replay against the meaning of its log, at any speed -----

  /** A key of the store is in the image with its value, and has a TTL in both or neither; a key that
      only the image has carries a TTL. */
  ghost predicate AgreesKey(s: Store, image: Image, k: string) {
    if k in s.data then
      && k in image.data && image.data[k] == s.data[k]
      && (k in s.wheel.deadlines <==> k in image.ttls)
    else
      k in image.data ==> k in image.ttls
  }

  /** Besides, a deadline is at most `latest` plus the TTL. */
  ghost predicate MirrorsKey(s: Store, image: Image, latest: real, k: string) {
    && AgreesKey(s, image, k)
    && (k in s.wheel.deadlines && k in image.ttls ==> s.wheel.deadlines[k] <= latest + image.ttls[k] as real)
  }

  ghost predicate Mirrors(s: Store, image: Image, latest: real) {
    forall k :: MirrorsKey(s, image, latest, k)
  }

  /** The deadline of `k` is not before `first` plus its TTL. */
  ghost predicate NotBefore(s: Store, image: Image, first: real, k: string) {
    k in s.wheel.deadlines && k in image.ttls ==> first + image.ttls[k] as real <= s.wheel.deadlines[k]
  }

  predicate TtlsBelongToKeys(image: Image) {
    image.ttls.Keys <= image.data.Keys
  }

  lemma {:induction false} ImageTtlsBelongToKeys(env: Env, log: seq<Request>)
    ensures TtlsBelongToKeys(ImageOf(env, log))
  {
    if log == [] {
    } else {
      ImageTtlsBelongToKeys(env, log[..|log| - 1]);
    }
  }

  lemma ReplayStepMirrors(env: Env, s: Store, image: Image, request: Request, readings: Readings, latest: real,
          k: string)
    requires s.WellFormed() && TtlsBelongToKeys(image) && MirrorsKey(s, image, latest, k)
    requires forall m: nat :: readings(m) <= latest
    ensures var s', image' := s.AfterReplay(env, request, readings), ImageStep(env, image, request);
            && MirrorsKey(s', image', latest, k)
            && (SetsKey(request, k) || (k in s.data && !Lapses(s, readings, k)) ==> k in image'.data ==> k in s'.data)
  {
    hide Swept, Store.AfterReplay;
    ReplayFate(env, s, request, readings, k);
  }

  /** However slow the replay, what it leaves mirrors the meaning of the log: it brings back no key
      and no value that the log does not give, and loses only keys that have a TTL. */
  lemma {:induction false} ReplayMirrors(env: Env, log: seq<Request>, replay: nat -> Readings, latest: real, k: string)
    requires forall i: nat, m: nat :: i < |log| ==> replay(i)(m) <= latest
    ensures MirrorsKey(Replayed(env, log, replay), ImageOf(env, log), latest, k)
  {
    if log == [] {
    } else {
      hide Store.AfterReplay, ImageStep, MirrorsKey;
      var front, n := log[..|log| - 1], |log| - 1;
      ReplayMirrors(env, front, replay, latest, k);
      ImageTtlsBelongToKeys(env, front);
      ReplayStepMirrors(env, Replayed(env, front, replay), ImageOf(env, front), log[n], replay(n), latest, k);
    }
  }

  lemma ReplayStepNotBefore(env: Env, s: Store, image: Image, request: Request, readings: Readings, first: real,
          latest: real, k: string)
    requires s.WellFormed() && TtlsBelongToKeys(image)
    requires MirrorsKey(s, image, latest, k) && NotBefore(s, image, first, k)
    requires forall m: nat :: first <= readings(m) <= latest
    ensures NotBefore(s.AfterReplay(env, request, readings), ImageStep(env, image, request), first, k)
  {
    hide Swept, Store.AfterReplay, Lapses;
    ReplayFate(env, s, request, readings, k);
  }

  lemma {:induction false} ReplayNotBefore(env: Env, log: seq<Request>, replay: nat -> Readings, first: real,
          spread: real, k: string)
    requires Spread(replay, |log|, first, spread)
    ensures NotBefore(Replayed(env, log, replay), ImageOf(env, log), first, k)
  {
    if log == [] {
    } else {
      hide Store.AfterReplay, ImageStep, NotBefore, MirrorsKey;
      var front, n := log[..|log| - 1], |log| - 1;
      ReplayNotBefore(env, front, replay, first, spread, k);
      ReplayMirrors(env, front, replay, first + spread, k);
      ImageTtlsBelongToKeys(env, front);
      ReplayStepNotBefore(env, Replayed(env, front, replay), ImageOf(env, front), log[n], replay(n), first,
                          first + spread, k);
    }
  }

  // ----- the keys that a replay keeps -----

  /** Every positive TTL that the log gives `k` after the last SET of `k` is longer than `spread`. */
  predicate Outlives(env: Env, log: seq<Request>, k: string, spread: real) {
    if log == [] || SetsKey(log[|log| - 1], k) then true
    else
      && (TtlFor(env, log[|log| - 1], k).Some? ==> TtlFor(env, log[|log| - 1], k).value as real > spread)
      && Outlives(env, log[..|log| - 1], k, spread)
  }

  /** The same, but for the log's last record, which no other follows. */
  predicate Lasts(env: Env, log: seq<Request>, k: string, spread: real) {
    log == [] || SetsKey(log[|log| - 1], k) || Outlives(env, log[..|log| - 1], k, spread)
  }

  lemma {:induction false} OutlivesTtl(env: Env, log: seq<Request>, k: string, spread: real)
    requires Outlives(env, log, k, spread) && k in ImageOf(env, log).ttls
    ensures spread < ImageOf(env, log).ttls[k] as real
  {
    var front, request := log[..|log| - 1], log[|log| - 1];
    if k in ImageOf(env, front).ttls && !SetsKey(request, k) {
      OutlivesTtl(env, front, k, spread);
    }
  }

  /** A key whose meaning has no TTL outlives every replay. */
  lemma {:induction false} KeyWithoutTtlOutlives(env: Env, log: seq<Request>, k: string, spread: real)
    requires k in ImageOf(env, log).data && k !in ImageOf(env, log).ttls
    ensures Outlives(env, log, k, spread) && Lasts(env, log, k, spread)
  {
    var front, request := log[..|log| - 1], log[|log| - 1];
    if !SetsKey(request, k) {
      KeyWithoutTtlOutlives(env, front, k, spread);
    }
  }

  lemma {:induction false} LastingKeyStays(env: Env, log: seq<Request>, replay: nat -> Readings, first: real,
          spread: real, k: string)
    requires Spread(replay, |log|, first, spread) && Lasts(env, log, k, spread)
    ensures k in ImageOf(env, log).data ==> k in Replayed(env, log, replay).data
  {
    if log == [] {
    } else {
      hide Store.AfterReplay, MirrorsKey, NotBefore;
      var n := |log| - 1;
      var front := log[..n];
      var s, image := Replayed(env, front, replay), ImageOf(env, front);
      ReplayMirrors(env, front, replay, first + spread, k);
      ReplayNotBefore(env, front, replay, first, spread, k);
      ImageTtlsBelongToKeys(env, front);
      ReplayStepMirrors(env, s, image, log[n], replay(n), first + spread, k);
      if !SetsKey(log[n], k) && k in ImageOf(env, log).data {
        LastingKeyStays(env, front, replay, first, spread, k);
        assert k in image.data by { hide Replayed; }
        OutlivingKeyDoesNotLapse(env, front, s, first, spread, replay(n), k);
      }
    }
  }

  lemma OutlivingKeyDoesNotLapse(env: Env, log: seq<Request>, s: Store, first: real, spread: real,
          readings: Readings, k: string)
    requires Outlives(env, log, k, spread) && forall m: nat :: readings(m) <= first + spread
    requires MirrorsKey(s, ImageOf(env, log), first + spread, k) && NotBefore(s, ImageOf(env, log), first, k)
    requires s.WellFormed()
    ensures !Lapses(s, readings, k)
  {
    hide ImageOf, Outlives;
    if k in s.wheel.deadlines {
      assert k in s.data;
      OutlivesTtl(env, log, k, spread);
    }
  }

  /** What a replay leaves of one key, spread over at most `spread` seconds. */
  lemma ReplayedKeyIsImage(env: Env, log: seq<Request>, replay: nat -> Readings, first: real, spread: real,
          k: string)
    requires Spread(replay, |log|, first, spread) && Lasts(env, log, k, spread)
    ensures Replayed(env, log, replay).Lookup(k)
         == if k in ImageOf(env, log).data then Some(ImageOf(env, log).data[k]) else None
  {
    hide Replayed, ImageOf, Lasts;
    ReplayMirrors(env, log, replay, first + spread, k);
    LastingKeyStays(env, log, replay, first, spread, k);
  }
}
