/** The circular bucket scheduler: src/timing_wheel.py. */
module TimingWheels {
  import opened Options
  import opened Ticks
  import opened StableSort
  import opened WheelSpec

  datatype ScheduledEntry = ScheduledEntry(key: string, expiresAt: real, scheduledTick: int)
  datatype TimerEntry = TimerEntry(key: string, expiresAt: real)

  ghost function EntriesFor(w: Wheel, keys: set<string>): set<TimerEntry> {
    set k | k in keys && k in w.deadlines :: TimerEntry(k, w.deadlines[k])
  }

  lemma EntriesForOneMore(w: Wheel, keys: set<string>, key: string)
    requires key in w.deadlines && key !in keys
    ensures multiset(EntriesFor(w, keys + {key}))
         == multiset(EntriesFor(w, keys)) + multiset{TimerEntry(key, w.deadlines[key])}
  {
    assert EntriesFor(w, keys + {key}) == EntriesFor(w, keys) + {TimerEntry(key, w.deadlines[key])};
  }

  /** The keys a drain at `now` has caught once it is through tick `tick`. */
  ghost function CaughtBy(w: Wheel, now: real, tick: int): set<string>
    requires w.WellFormed()
  {
    set k | k in w.deadlines && w.deadlines[k] <= now && Swept(w.last, tick, w.TickOfKey(k), w.bucketCount)
  }

  /** The part of the bucket of `tick` that a drain at `now` catches. */
  ghost function CaughtIn(w: Wheel, now: real, tick: int, keys: set<string>): set<string>
    requires w.WellFormed()
  {
    set k | k in keys && k in w.deadlines && w.deadlines[k] <= now && w.TickOfKey(k) <= tick
  }

  lemma CaughtOneMoreTick(w: Wheel, now: real, tick: int, bucket: set<string>)
    requires w.WellFormed() && w.last < tick
    requires forall k :: k in bucket <==>
      && k in w.deadlines && k !in CaughtBy(w, now, tick - 1)
      && w.TickOfKey(k) % w.bucketCount == tick % w.bucketCount
    ensures CaughtBy(w, now, tick) == CaughtBy(w, now, tick - 1) + CaughtIn(w, now, tick, bucket)
  {
    forall k | k in w.deadlines
      ensures Swept(w.last, tick, w.TickOfKey(k), w.bucketCount) <==>
              Swept(w.last, tick - 1, w.TickOfKey(k), w.bucketCount) || Visits(tick, w.TickOfKey(k), w.bucketCount)
    {
      SweptOneMore(w.last, tick, w.TickOfKey(k), w.bucketCount);
    }
  }

  /** Bucket `b` holds exactly the keys whose scheduled tick maps to it. */
  ghost predicate Coupled(buckets: seq<set<string>>, entries: map<string, ScheduledEntry>, n: nat) {
    && n > 0 && |buckets| == n
    && forall b, k :: 0 <= b < n ==>
         (k in buckets[b] <==> k in entries && entries[k].scheduledTick % n == b)
  }

  /** Every entry carries its own key, and the tick of its deadline. */
  ghost predicate Numbered(entries: map<string, ScheduledEntry>, origin: Option<real>, tickSeconds: real)
    requires tickSeconds > 0.0
  {
    forall k :: k in entries ==>
      var e := entries[k];
      e.key == k && e.scheduledTick == TickOf(origin.GetOr(e.expiresAt), tickSeconds, e.expiresAt)
  }

  ghost function DeadlinesOf(entries: map<string, ScheduledEntry>): (m: map<string, real>)
    ensures m.Keys == entries.Keys
  {
    map k | k in entries :: entries[k].expiresAt
  }

  lemma CoupledRemove(buckets: seq<set<string>>, entries: map<string, ScheduledEntry>, n: nat, key: string)
    requires Coupled(buckets, entries, n) && key in entries
    ensures var b := entries[key].scheduledTick % n;
            Coupled(buckets[b := buckets[b] - {key}], entries - {key}, n)
  {
  }

  lemma CoupledAdd(buckets: seq<set<string>>, entries: map<string, ScheduledEntry>, n: nat, entry: ScheduledEntry)
    requires Coupled(buckets, entries, n) && entry.key !in entries
    ensures var b := entry.scheduledTick % n;
            Coupled(buckets[b := buckets[b] + {entry.key}], entries[entry.key := entry], n)
  {
  }

  class TimingWheel {
    const tickSeconds: real
    const bucketCount: nat
    var buckets: seq<set<string>>
    var entriesByKey: map<string, ScheduledEntry>
    var lastProcessedTick: int
    var originTimestamp: Option<real>

    ghost function View(): Wheel
      reads this
    {
      Wheel(tickSeconds, bucketCount, originTimestamp, lastProcessedTick,
            DeadlinesOf(entriesByKey))
    }

    ghost predicate Valid()
      reads this
    {
      && View().WellFormed()
      && Coupled(buckets, entriesByKey, bucketCount)
      && Numbered(entriesByKey, originTimestamp, tickSeconds)
    }

    constructor (tickSeconds: real, bucketCount: nat)
      requires tickSeconds > 0.0 && bucketCount > 0
      ensures Valid() && View() == EmptyWheel(tickSeconds, bucketCount)
    {
      this.tickSeconds, this.bucketCount := tickSeconds, bucketCount;
      buckets := seq(bucketCount, _ => {});
      entriesByKey := map[];
      lastProcessedTick := -1;
      originTimestamp := None;
    }

    /** The source's constructor, which raises for parameters that are not positive. */
    static method Create(tickSeconds: real, bucketCount: int) returns (wheel: TimingWheel?)
      ensures wheel == null <==> tickSeconds <= 0.0 || bucketCount <= 0
      ensures wheel != null ==>
                fresh(wheel) && wheel.Valid() && wheel.View() == EmptyWheel(tickSeconds, bucketCount)
    {
      if tickSeconds <= 0.0 || bucketCount <= 0 {
        return null;
      }
      wheel := new TimingWheel(tickSeconds, bucketCount);
    }

    method TickForTimestamp(timestamp: real) returns (tick: int)
      requires tickSeconds > 0.0
      modifies `originTimestamp
      ensures originTimestamp == Some(old(originTimestamp).GetOr(timestamp))
      ensures tick == TickOf(originTimestamp.value, tickSeconds, timestamp)
    {
      if originTimestamp.None? {
        originTimestamp := Some(timestamp);
      }
      tick := ((timestamp - originTimestamp.value) / tickSeconds).Floor;
    }

    method AddToBucket(tick: int, key: string)
      requires |buckets| == bucketCount > 0
      modifies `buckets
      ensures buckets == old(buckets)[tick % bucketCount := old(buckets)[tick % bucketCount] + {key}]
    {
      buckets := buckets[tick % bucketCount := buckets[tick % bucketCount] + {key}];
    }

    method DiscardFromBucket(tick: int, key: string)
      requires |buckets| == bucketCount > 0
      modifies `buckets
      ensures buckets == old(buckets)[tick % bucketCount := old(buckets)[tick % bucketCount] - {key}]
    {
      buckets := buckets[tick % bucketCount := buckets[tick % bucketCount] - {key}];
    }

    method Cancel(key: string)
      requires Valid()
      modifies this
      ensures Valid() && View() == old(View()).Cancelled(key)
    {
      if key in entriesByKey {
        var entry := entriesByKey[key];
        CoupledRemove(buckets, entriesByKey, bucketCount, key);
        entriesByKey := entriesByKey - {key};
        DiscardFromBucket(entry.scheduledTick, entry.key);
      }
      assert View().deadlines == old(View()).Cancelled(key).deadlines;
    }

    method Schedule(key: string, expiresAt: real)
      requires Valid()
      modifies this
      ensures Valid() && View() == old(View()).Scheduled(key, expiresAt)
    {
      hide TickOf;
      if originTimestamp.Some? && expiresAt < originTimestamp.value {
        RebaseOrigin(expiresAt);
      }
      var scheduledTick := TickForTimestamp(expiresAt);
      Cancel(key);
      Place(ScheduledEntry(key, expiresAt, scheduledTick));
      assert View().deadlines == old(View()).Scheduled(key, expiresAt).deadlines;
    }

    method Place(entry: ScheduledEntry)
      requires Valid() && entry.key !in entriesByKey
      requires originTimestamp.Some? && originTimestamp.value <= entry.expiresAt
      requires entry.scheduledTick == TickOf(originTimestamp.value, tickSeconds, entry.expiresAt)
      modifies `buckets, `entriesByKey
      ensures Valid()
      ensures View() == old(View()).(deadlines := old(View()).deadlines[entry.key := entry.expiresAt])
    {
      hide TickOf;
      CoupledAdd(buckets, entriesByKey, bucketCount, entry);
      entriesByKey := entriesByKey[entry.key := entry];
      AddToBucket(entry.scheduledTick, entry.key);
      assert View().deadlines == old(View()).deadlines[entry.key := entry.expiresAt];
    }

    /** Recomputes every tick number and every bucket for an earlier origin; in exact arithmetic
        the last processed tick keeps its number. */
    method RebaseOrigin(newOrigin: real)
      requires Valid() && originTimestamp.Some? && newOrigin < originTimestamp.value
      modifies this
      ensures Valid() && View() == old(View()).(origin := Some(newOrigin))
    {
      var oldEntries := entriesByKey;
      var oldLast := lastProcessedTick;
      originTimestamp := Some(newOrigin);
      buckets := seq(bucketCount, _ => {});
      entriesByKey := map[];
      if oldLast < 0 {
        lastProcessedTick := -1;
      } else {
        TickOfStart(newOrigin, tickSeconds, oldLast);
        var lastStart := newOrigin + oldLast as real * tickSeconds;
        assert lastStart == TickStart(newOrigin, tickSeconds, oldLast);
        lastProcessedTick := TickForTimestamp(lastStart);
      }
      AddAll(oldEntries);
      assert View().deadlines == old(View()).deadlines;
    }

    method AddAll(oldEntries: map<string, ScheduledEntry>)
      requires tickSeconds > 0.0 && originTimestamp.Some?
      requires entriesByKey == map[] && Coupled(buckets, entriesByKey, bucketCount)
      requires forall k :: k in oldEntries ==> oldEntries[k].key == k
      modifies `buckets, `entriesByKey, `originTimestamp
      ensures originTimestamp == old(originTimestamp)
      ensures DeadlinesOf(entriesByKey) == DeadlinesOf(oldEntries)
      ensures Coupled(buckets, entriesByKey, bucketCount)
      ensures Numbered(entriesByKey, originTimestamp, tickSeconds)
    {
      var todo := oldEntries.Keys;
      while todo != {}
        invariant todo <= oldEntries.Keys && originTimestamp == old(originTimestamp)
        invariant Coupled(buckets, entriesByKey, bucketCount)
        invariant Numbered(entriesByKey, originTimestamp, tickSeconds)
        invariant entriesByKey.Keys == oldEntries.Keys - todo
        invariant forall k :: k in entriesByKey ==> entriesByKey[k].expiresAt == oldEntries[k].expiresAt
        decreases todo
      {
        var key :| key in todo;
        var entry := oldEntries[key];
        var scheduledTick := TickForTimestamp(entry.expiresAt);
        var updated := ScheduledEntry(entry.key, entry.expiresAt, scheduledTick);
        CoupledAdd(buckets, entriesByKey, bucketCount, updated);
        entriesByKey := entriesByKey[entry.key := updated];
        AddToBucket(scheduledTick, entry.key);
        todo := todo - {key};
      }
    }

    /** Returns and unschedules the due entries: each exactly once, by deadline, ties in any
        order.  Nothing else leaves the wheel. */
    method PopDue(now: real) returns (due: seq<TimerEntry>)
      requires Valid()
      modifies this
      ensures Valid() && View() == old(View()).Drained(now)
      ensures multiset(due) == multiset(EntriesFor(old(View()), old(View()).DueKeys(now)))
      ensures SortedBy(due, (e: TimerEntry) => e.expiresAt)
    {
      ghost var w := View();
      var currentTick := TickForTimestamp(now);
      if currentTick <= lastProcessedTick {
        assert w.DueKeys(now) == {};
        assert View().deadlines == w.Drained(now).deadlines;
        return [];
      }
      due := [];
      ghost var gone := CaughtBy(w, now, w.last);
      assert View().deadlines == w.deadlines - gone;
      for tick := lastProcessedTick + 1 to currentTick + 1
        invariant Valid() && View() == w.(origin := Some(w.origin.GetOr(now)), deadlines := w.deadlines - gone)
        invariant gone == CaughtBy(w, now, tick - 1)
        invariant multiset(due) == multiset(EntriesFor(w, gone))
      {
        due, gone := DrainTick(w, tick, now, due, gone);
      }
      assert gone == w.DueKeys(now);
      lastProcessedTick := currentTick;
      SortBySorts(due, (e: TimerEntry) => e.expiresAt);
      SortByPermutes(due, (e: TimerEntry) => e.expiresAt);
      due := SortBy(due, (e: TimerEntry) => e.expiresAt);
    }

    lemma EntryMatches(w: Wheel, now: real, gone: set<string>, key: string)
      requires Valid() && w.WellFormed() && key in entriesByKey
      requires View() == w.(origin := Some(w.origin.GetOr(now)), deadlines := w.deadlines - gone)
      ensures key in w.deadlines && key !in gone
      ensures entriesByKey[key] == ScheduledEntry(key, w.deadlines[key], w.TickOfKey(key))
    {
      assert key in View().deadlines && View().deadlines[key] == entriesByKey[key].expiresAt;
    }

    lemma BucketOfTick(w: Wheel, tick: int, now: real, poppedKeys: set<string>)
      requires Valid() && w.WellFormed() && w.last < tick
      requires View() == w.(origin := Some(w.origin.GetOr(now)), deadlines := w.deadlines - poppedKeys)
      requires poppedKeys == CaughtBy(w, now, tick - 1)
      ensures CaughtBy(w, now, tick) == poppedKeys + CaughtIn(w, now, tick, buckets[tick % bucketCount])
    {
      assert entriesByKey.Keys == View().deadlines.Keys == w.deadlines.Keys - poppedKeys;
      forall k | k in entriesByKey ensures entriesByKey[k].scheduledTick == w.TickOfKey(k) {
        EntryMatches(w, now, poppedKeys, k);
      }
      CaughtOneMoreTick(w, now, tick, buckets[tick % bucketCount]);
    }

    /** One round of the drain: the bucket of one tick. */
    method DrainTick(ghost w: Wheel, tick: int, now: real, popped: seq<TimerEntry>, ghost poppedKeys: set<string>)
      returns (due: seq<TimerEntry>, ghost gone: set<string>)
      requires Valid() && w.WellFormed() && w.last < tick
      requires View() == w.(origin := Some(w.origin.GetOr(now)), deadlines := w.deadlines - poppedKeys)
      requires poppedKeys == CaughtBy(w, now, tick - 1)
      requires multiset(popped) == multiset(EntriesFor(w, poppedKeys))
      modifies `buckets, `entriesByKey
      ensures Valid() && View() == old(View()).(deadlines := w.deadlines - gone)
      ensures gone == CaughtBy(w, now, tick)
      ensures multiset(due) == multiset(EntriesFor(w, gone))
    {
      hide TickOf, Swept;
      due, gone := popped, poppedKeys;
      var todo := buckets[tick % bucketCount];
      ghost var bucket := todo;
      BucketOfTick(w, tick, now, poppedKeys);
      while todo != {}
        invariant Valid() && todo <= bucket && todo <= buckets[tick % bucketCount]
        invariant gone == poppedKeys + CaughtIn(w, now, tick, bucket - todo)
        invariant View() == old(View()).(deadlines := w.deadlines - gone)
        invariant multiset(due) == multiset(EntriesFor(w, gone))
        decreases todo
      {
        var key :| key in todo;
        todo := todo - {key};
        // A bucket never names a key without an entry, so the source's check for one is idle.
        assert key in entriesByKey;
        var entry := entriesByKey[key];
        EntryMatches(w, now, gone, key);
        if entry.scheduledTick <= tick {
          CoupledRemove(buckets, entriesByKey, bucketCount, key);
          DiscardFromBucket(tick, key);
          if entry.expiresAt <= now {
            EntriesForOneMore(w, gone, key);
            entriesByKey := entriesByKey - {key};
            due := due + [TimerEntry(entry.key, entry.expiresAt)];
            gone := gone + {key};
          } else {
            AddToBucket(entry.scheduledTick, key);
          }
        }
      }
    }
  }
}
