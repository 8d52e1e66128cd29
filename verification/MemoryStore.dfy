/** The key-value store: src/store.py. */
module MemoryStores {
  import opened Options
  import opened Types
  import opened WheelSpec
  import opened TimingWheels
  import opened StoreSpec

  function KeysOf(due: seq<TimerEntry>): set<string> {
    set e | e in due :: e.key
  }

  class MemoryStore {
    var data: map<string, string>
    var expiresAt: map<string, real>
    var timingWheel: TimingWheel

    ghost function View(): Store
      reads this, timingWheel
    {
      Store(data, timingWheel.View())
    }

    /** The two copies of the deadlines agree, and only keys that hold a value have one. */
    ghost predicate Valid()
      reads this, timingWheel
    {
      && timingWheel.Valid()
      && expiresAt == timingWheel.View().deadlines
      && expiresAt.Keys <= data.Keys
    }

    constructor ()
      ensures Valid() && View() == EmptyStore() && fresh(timingWheel)
    {
      data := map[];
      expiresAt := map[];
      timingWheel := new TimingWheel(DEFAULT_TICK_SECONDS, DEFAULT_BUCKET_COUNT);
    }

    constructor WithWheel(wheel: TimingWheel)
      requires wheel.Valid() && wheel.View().deadlines == map[]
      ensures Valid() && timingWheel == wheel && View() == Store(map[], wheel.View())
    {
      data := map[];
      expiresAt := map[];
      timingWheel := wheel;
    }

    /** Drains the wheel and removes what it returns; `count` is the number of keys removed. */
    method ProcessExpirations(now: real) returns (count: nat)
      requires Valid()
      modifies this, timingWheel
      ensures Valid() && timingWheel == old(timingWheel)
      ensures View() == old(View()).AfterExpirations(now)
      ensures count == |old(data)| - |data|
    {
      ghost var w := timingWheel.View();
      var due := timingWheel.PopDue(now);
      DueKeysOf(w, now, due);
      count := RemoveAll(due, now);
    }

    method RemoveAll(due: seq<TimerEntry>, now: real) returns (count: nat)
      requires forall e :: e in due ==> e.key in expiresAt && expiresAt[e.key] <= now
      modifies `data, `expiresAt
      ensures data == old(data) - KeysOf(due)
      ensures expiresAt == old(expiresAt) - KeysOf(due)
      ensures count == |old(data)| - |data|
    {
      count := 0;
      ghost var gone: set<string> := {};
      for i := 0 to |due|
        invariant gone == KeysOf(due[..i])
        invariant data == old(data) - gone
        invariant expiresAt == old(expiresAt) - gone
        invariant count == |old(data)| - |data|
      {
        KeysOfOneMore(due, i);
        var removed := RemoveEntry(due[i], now, gone, old(data), old(expiresAt));
        count := count + removed;
        gone := gone + {due[i].key};
      }
      assert due[..|due|] == due;
    }

    method RemoveEntry(entry: TimerEntry, now: real,
                       ghost gone: set<string>, ghost oldData: map<string, string>,
                       ghost oldExpiresAt: map<string, real>)
      returns (removed: nat)
      requires entry.key in oldExpiresAt && oldExpiresAt[entry.key] <= now
      requires data == oldData - gone && expiresAt == oldExpiresAt - gone
      modifies `data, `expiresAt
      ensures data == oldData - (gone + {entry.key})
      ensures expiresAt == oldExpiresAt - (gone + {entry.key})
      ensures removed == |old(data)| - |data|
    {
      WithoutOneMore(oldData, gone, entry.key);
      WithoutOneMore(oldExpiresAt, gone, entry.key);
      removed := 0;
      if entry.key in expiresAt && expiresAt[entry.key] <= now {
        if entry.key in data {
          data := data - {entry.key};
          removed := 1;
        }
        expiresAt := expiresAt - {entry.key};
      }
    }

    method Set(key: string, value: string, now: real)
      requires Valid()
      modifies this, timingWheel
      ensures Valid() && timingWheel == old(timingWheel)
      ensures View() == old(View()).AfterSet(key, value, now)
    {
      var _ := ProcessExpirations(now);
      data := data[key := value];
      ClearExpiry(key);
    }

    method ClearExpiry(key: string)
      requires timingWheel.Valid() && expiresAt == timingWheel.View().deadlines
      modifies `expiresAt, timingWheel
      ensures timingWheel.Valid() && expiresAt == timingWheel.View().deadlines
      ensures timingWheel.View() == old(timingWheel.View()).Cancelled(key)
    {
      expiresAt := expiresAt - {key};
      timingWheel.Cancel(key);
    }

    method Get(key: string, now: real) returns (value: Option<string>)
      requires Valid()
      modifies this, timingWheel
      ensures Valid() && timingWheel == old(timingWheel)
      ensures View() == old(View()).AfterExpirations(now)
      ensures value == View().Lookup(key)
    {
      var _ := ProcessExpirations(now);
      value := if key in data then Some(data[key]) else None;
    }

    method Delete(key: string, now: real) returns (deleted: bool)
      requires Valid()
      modifies this, timingWheel
      ensures Valid() && timingWheel == old(timingWheel)
      ensures (View(), deleted) == old(View()).AfterDelete(key, now)
    {
      var _ := ProcessExpirations(now);
      if key !in data {
        WithoutAbsentKey(View(), key);
        return false;
      }
      data := data - {key};
      ClearExpiry(key);
      return true;
    }

    method Expire(key: string, ttlSeconds: int, now: real, then': real) returns (done: bool)
      requires Valid()
      modifies this, timingWheel
      ensures Valid() && timingWheel == old(timingWheel)
      ensures (View(), done) == old(View()).AfterExpire(key, ttlSeconds, now, then')
    {
      var _ := ProcessExpirations(now);
      if key !in data {
        return false;
      }
      if ttlSeconds <= 0 {
        var _ := Delete(key, then');
        return true;
      }
      var deadline := then' + ttlSeconds as real;
      expiresAt := expiresAt[key := deadline];
      timingWheel.Schedule(key, deadline);
      return true;
    }

    method Ttl(key: string, now: real, then': real, last: real) returns (seconds: int)
      requires Valid()
      modifies this, timingWheel
      ensures Valid() && timingWheel == old(timingWheel)
      ensures (View(), seconds) == old(View()).AfterTtl(key, now, then', last)
    {
      var _ := ProcessExpirations(now);
      if key !in data {
        return -2;
      }
      if key !in expiresAt {
        return -1;
      }
      var remaining := Truncate(expiresAt[key] - then');
      if remaining < 0 {
        var _ := Delete(key, last);
        return -2;
      }
      return remaining;
    }

    method Keys(matches: string -> bool, now: real) returns (names: set<string>)
      requires Valid()
      modifies this, timingWheel
      ensures Valid() && timingWheel == old(timingWheel)
      ensures View() == old(View()).AfterExpirations(now)
      ensures names == set k | k in View().data && matches(k)
    {
      var _ := ProcessExpirations(now);
      names := set k | k in data && matches(k);
    }

    method Snapshot(now: real) returns (copy: map<string, string>)
      requires Valid()
      modifies this, timingWheel
      ensures Valid() && timingWheel == old(timingWheel)
      ensures View() == old(View()).AfterExpirations(now) && copy == View().data
    {
      var _ := ProcessExpirations(now);
      copy := data;
    }

    method Flush(now: real) returns (count: nat)
      requires Valid()
      modifies this, timingWheel
      ensures Valid() && fresh(timingWheel)
      ensures (View(), count) == old(View()).AfterFlush(now)
    {
      var _ := ProcessExpirations(now);
      count := |data|;
      data := map[];
      expiresAt := map[];
      timingWheel := new TimingWheel(DEFAULT_TICK_SECONDS, DEFAULT_BUCKET_COUNT);
    }

    method ApplyReplayRequest(env: Env, request: Request, readings: Readings)
      requires Valid()
      modifies this, timingWheel
      ensures Valid() && (timingWheel == old(timingWheel) || fresh(timingWheel))
      ensures View() == old(View()).AfterReplay(env, request, readings)
    {
      var _ := ProcessExpirations(readings(0));
      var args := request.args;
      if request.command == SET && |args| == 2 {
        Set(args[0], args[1], readings(1));
        return;
      }
      if request.command == DEL && |args| == 1 {
        var _ := Delete(args[0], readings(1));
        return;
      }
      if request.command == EXPIRE && |args| == 2 {
        var seconds := env.parseInt(args[1]);
        if seconds.None? {
          return;
        }
        var _ := Expire(args[0], seconds.value, readings(1), readings(2));
      }
      if request.command == FLUSHALL && |args| == 0 {
        var _ := Flush(readings(1));
      }
    }
  }

  lemma WithoutOneMore<V>(m: map<string, V>, gone: set<string>, k: string)
    ensures m - (gone + {k}) == m - gone - {k}
    ensures k !in m - gone ==> m - (gone + {k}) == m - gone
    ensures k in m - gone ==> |m - (gone + {k})| == |m - gone| - 1
  {
    var rest := m - gone;
    if k in rest {
      assert (rest - {k}).Keys == rest.Keys - {k};
    }
  }

  lemma KeysOfOneMore(due: seq<TimerEntry>, i: nat)
    requires i < |due|
    ensures KeysOf(due[..i + 1]) == KeysOf(due[..i]) + {due[i].key}
  {
    assert due[..i + 1] == due[..i] + [due[i]];
  }

  /** The keys a drain returns, each with a deadline that has come. */
  lemma DueKeysOf(w: Wheel, now: real, due: seq<TimerEntry>)
    requires w.WellFormed()
    requires multiset(due) == multiset(EntriesFor(w, w.DueKeys(now)))
    ensures KeysOf(due) == w.DueKeys(now)
    ensures forall e :: e in due ==> e.key in w.deadlines && w.deadlines[e.key] <= now
  {
    forall k | k in w.DueKeys(now) ensures k in KeysOf(due) {
      var e := TimerEntry(k, w.deadlines[k]);
      assert e in EntriesFor(w, w.DueKeys(now));
      assert e in multiset(due);
      assert e in due;
    }
    forall e | e in due ensures e.key in w.DueKeys(now) {
      assert e in multiset(due);
      assert e in EntriesFor(w, w.DueKeys(now));
    }
  }
}
