/** Exactly which logs a slow replay still brings back. */
module ReplayLimits {
  import opened Options
  import opened Types
  import opened Ticks
  import opened WheelSpec
  import opened StoreSpec
  import opened Replay

  /** A clock that stands still. */
  function At(t: real): Readings {
    (m: nat) => t
  }

  /** A store that has only ever seen the clock at `b`. */
  ghost predicate Still(s: Store, b: real) {
    && s.wheel.tickSeconds == DEFAULT_TICK_SECONDS && s.wheel.bucketCount == DEFAULT_BUCKET_COUNT
    && s.wheel.origin.GetOr(b) == b && s.wheel.last <= 0
  }

  lemma DrainStaysStill(s: Store, b: real)
    requires s.WellFormed() && Still(s, b)
    ensures Still(s.AfterExpirations(b), b)
  {
    hide TickOf, Swept;
    TickIs(b, DEFAULT_TICK_SECONDS, b, 0);
  }

  lemma ExpireStaysStill(s: Store, k: string, seconds: int, b: real)
    requires s.WellFormed() && Still(s, b)
    ensures Still(s.AfterExpire(k, seconds, b, b).0, b)
  {
    hide TickOf, Swept;
    DrainStaysStill(s, b);
    DrainStaysStill(s.AfterExpirations(b), b);
  }

  lemma RecordStaysStill(env: Env, s: Store, request: Request, b: real)
    requires s.WellFormed() && Still(s, b)
    ensures Still(s.AfterReplay(env, request, At(b)), b)
  {
    hide TickOf, Swept, Store.AfterExpirations, Store.AfterExpire;
    var s0, args := s.AfterExpirations(b), request.args;
    DrainStaysStill(s, b);
    DrainStaysStill(s0, b);
    if request.command == EXPIRE && |args| == 2 && env.parseInt(args[1]).Some? {
      ExpireStaysStill(s0, args[0], env.parseInt(args[1]).value, b);
    }
  }

  lemma {:induction false} ReplayStaysStill(env: Env, log: seq<Request>, replay: nat -> Readings, b: real)
    requires forall i: nat :: i < |log| ==> replay(i) == At(b)
    ensures Still(Replayed(env, log, replay), b)
  {
    if log == [] {
    } else {
      hide Store.AfterReplay, Still;
      ReplayStaysStill(env, log[..|log| - 1], replay, b);
      RecordStaysStill(env, Replayed(env, log[..|log| - 1], replay), log[|log| - 1], b);
    }
  }

  /** The record that decides: a TTL no longer than `spread`, not the last record, and no SET after. */
  ghost predicate Decides(env: Env, log: seq<Request>, k: string, spread: real, i: nat) {
    && i + 1 < |log|
    && TtlFor(env, log[i], k).Some? && TtlFor(env, log[i], k).value as real <= spread
    && forall j :: i < j < |log| ==> !SetsKey(log[j], k)
  }

  lemma {:induction false} FindShortTtl(env: Env, log: seq<Request>, last: Request, k: string, spread: real)
    returns (i: nat)
    requires !Outlives(env, log, k, spread) && !SetsKey(last, k)
    ensures Decides(env, log + [last], k, spread, i)
  {
    var n := |log| - 1;
    if TtlFor(env, log[n], k).Some? && TtlFor(env, log[n], k).value as real <= spread {
      i := n;
    } else {
      i := FindShortTtl(env, log[..n], log[n], k, spread);
      assert log[..n] + [log[n]] == log;
    }
  }

  /** Everything at `b` up to the deciding record, and at the end of its TTL afterwards. */
  function LateReplay(i: nat, b: real, seconds: int): nat -> Readings {
    (j: nat) => At(if j <= i then b else b + seconds as real)
  }

  lemma LateReading(i: nat, b: real, seconds: int, j: nat, m: nat)
    ensures LateReplay(i, b, seconds)(j) == At(if j <= i then b else b + seconds as real)
    ensures LateReplay(i, b, seconds)(j)(m) == if j <= i then b else b + seconds as real
  {
    assert At(if j <= i then b else b + seconds as real)(m) == if j <= i then b else b + seconds as real;
  }

  /** A key that a record at `b` gave a TTL is gone at the next drain at its end. */
  lemma ShortTtlLapses(env: Env, s: Store, request: Request, k: string, b: real)
    requires s.WellFormed() && Still(s, b) && TtlFor(env, request, k).Some?
    ensures var s' := s.AfterReplay(env, request, At(b));
            k !in s'.AfterExpirations(b + TtlFor(env, request, k).value as real).data
  {
    hide TickOf, Swept, Store.AfterReplay;
    var s', end := s.AfterReplay(env, request, At(b)), b + TtlFor(env, request, k).value as real;
    RecordStaysStill(env, s, request, b);
    ReplayFate(env, s, request, At(b), k);
    if k in s'.data {
      assert StateOf(s', k).deadline == Some(end);
      TickAtLeast(b, DEFAULT_TICK_SECONDS, end, 1);
      DrainNotEarlyAndNotMissed(s'.wheel, end, k);
      assert k in s'.wheel.DueKeys(end);
    }
  }

  lemma {:induction false} LateReplayLoses(env: Env, log: seq<Request>, k: string, spread: real, b: real, i: nat,
          n: nat)
    requires Decides(env, log, k, spread, i) && i + 2 <= n <= |log|
    ensures k !in Replayed(env, log[..n], LateReplay(i, b, TtlFor(env, log[i], k).value)).data
  {
    hide Store.AfterReplay, Still;
    var seconds := TtlFor(env, log[i], k).value;
    var replay := LateReplay(i, b, seconds);
    var front := log[..n - 1];
    var s := Replayed(env, front, replay);
    assert log[..n][..n - 1] == front;
    if n == i + 2 {
      assert front[..i] == log[..i] && front[i] == log[i];
      forall j: nat | j <= i ensures replay(j) == At(b) { LateReading(i, b, seconds, j, 0); }
      ReplayStaysStill(env, log[..i], replay, b);
      ShortTtlLapses(env, Replayed(env, log[..i], replay), log[i], k, b);
    } else {
      LateReplayLoses(env, log, k, spread, b, i, n - 1);
    }
    LateReading(i, b, seconds, n - 1, 0);
    AbsentStays(env, s, log[n - 1], replay(n - 1), k);
  }

  /** The clock of the replay never goes back. */
  ghost predicate ClockInOrder(replay: nat -> Readings) {
    forall i: nat, j: nat, m: nat, n: nat :: i < j || (i == j && m <= n) ==> replay(i)(m) <= replay(j)(n)
  }

  /** A key that does not last is lost by some replay within the same time, from any start on. */
  lemma LosingReplay(env: Env, log: seq<Request>, k: string, spread: real, b: real) returns (replay: nat -> Readings)
    requires !Lasts(env, log, k, spread) && spread >= 0.0
    ensures Spread(replay, |log|, b, spread) && ClockInOrder(replay)
    ensures k !in Replayed(env, log, replay).data
  {
    hide Outlives, Replayed, TtlFor, SetsKey;
    var n := |log| - 1;
    var i := FindShortTtl(env, log[..n], log[n], k, spread);
    assert log[..n] + [log[n]] == log && log[..|log|] == log;
    replay := LateReplay(i, b, TtlFor(env, log[i], k).value);
    TtlIsPositive(env, log[i], k);
    forall j: nat, m: nat
      ensures replay(j)(m) == if j <= i then b else b + TtlFor(env, log[i], k).value as real
    {
      LateReading(i, b, TtlFor(env, log[i], k).value, j, m);
    }
    LateReplayLoses(env, log, k, spread, b, i, |log|);
  }

  lemma TtlIsPositive(env: Env, request: Request, k: string)
    ensures TtlFor(env, request, k).Some? ==> TtlFor(env, request, k).value > 0
  {
  }

  /** Exactly which logs every replay within `spread` seconds rebuilds: those where each key of the
      log's meaning has, since its last SET, no TTL as short as that, other than by the last record. */
  lemma ReplayFaithfulExactly(env: Env, log: seq<Request>, spread: real)
    requires spread >= 0.0
    ensures (forall replay: nat -> Readings, first: real :: Spread(replay, |log|, first, spread) ==>
               Replayed(env, log, replay).data == ImageOf(env, log).data)
        <==> (forall k :: k in ImageOf(env, log).data ==> Lasts(env, log, k, spread))
  {
    hide Replayed, ImageOf, Lasts, Spread;
    if forall k :: k in ImageOf(env, log).data ==> Lasts(env, log, k, spread) {
      forall replay: nat -> Readings, first: real | Spread(replay, |log|, first, spread)
        ensures Replayed(env, log, replay).data == ImageOf(env, log).data
      {
        LastingReplayIsImage(env, log, replay, first, spread);
      }
    } else {
      var k :| k in ImageOf(env, log).data && !Lasts(env, log, k, spread);
      var replay := LosingReplay(env, log, k, spread, 0.0);
      assert Spread(replay, |log|, 0.0, spread);
    }
  }

  lemma LastingReplayIsImage(env: Env, log: seq<Request>, replay: nat -> Readings, first: real, spread: real)
    requires Spread(replay, |log|, first, spread)
    requires forall k :: k in ImageOf(env, log).data ==> Lasts(env, log, k, spread)
    ensures Replayed(env, log, replay).data == ImageOf(env, log).data
  {
    hide Replayed, ImageOf, Lasts;
    var data, held := ImageOf(env, log).data, Replayed(env, log, replay).data;
    forall k ensures (k in held <==> k in data) && (k in data ==> held[k] == data[k]) {
      ReplayMirrors(env, log, replay, first + spread, k);
      if k in data { ReplayedKeyIsImage(env, log, replay, first, spread, k); }
    }
  }
}
