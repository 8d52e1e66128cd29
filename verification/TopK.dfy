/** The top-k tracker with its lazily cleaned heap: src/countmin.py. */
module TopK {
  import opened Options
  import opened StableSort
  import opened CountMin
  import opened Heap
  import opened HeavyHitters

  const HEAP_CLEANUP_RATIO := 3

  /** Each tracked key has its current entry in the heap exactly once; every other entry is out of
      date, with a count that its key's estimate and any tracked count have passed. */
  ghost predicate HeapTracks(c: SketchConfig, history: seq<string>, heap: multiset<Entry>, tracked: map<string, int>)
    requires c.Valid()
  {
    && (forall key :: key in tracked ==> heap[Entry(tracked[key], key)] == 1)
    && (forall e :: e in heap ==> e.count <= Estimate(c, history, e.key))
    && (forall e :: e in heap && e.key in tracked ==> e.count <= tracked[e.key])
  }

  predicate Stale(e: Entry, tracked: map<string, int>) {
    !(e.key in tracked && tracked[e.key] == e.count)
  }

  /** One more record never makes an entry current or a count too large. */
  lemma HeapTracksLater(c: SketchConfig, history: seq<string>, heap: multiset<Entry>,
          tracked: map<string, int>, key: string)
    requires c.Valid() && HeapTracks(c, history, heap, tracked)
    ensures HeapTracks(c, history + [key], heap, tracked)
    ensures Entry(Estimate(c, history + [key], key), key) !in heap
  {
    hide Estimate;
    forall e | e in heap ensures e.count <= Estimate(c, history + [key], e.key) {
      EstimateGrows(c, history, key, e.key);
    }
    EstimateGrows(c, history, key, key);
  }

  /** The estimate of a key grows strictly with each of its records, so its new entry is new. */
  lemma PushKeepsTracks(c: SketchConfig, history: seq<string>, heap: multiset<Entry>,
          tracked: map<string, int>, key: string)
    requires c.Valid() && HeapTracks(c, history, heap, tracked)
    ensures var h, estimate := history + [key], Estimate(c, history + [key], key);
            HeapTracks(c, h, heap + multiset{Entry(estimate, key)}, tracked[key := estimate])
  {
    var h, estimate := history + [key], Estimate(c, history + [key], key);
    HeapTracksLater(c, history, heap, tracked, key);
    hide Estimate;
    EstimateGrows(c, history, key, key);
    var heap', tracked' := heap + multiset{Entry(estimate, key)}, tracked[key := estimate];
    forall e | e in heap' && e.key in tracked' ensures e.count <= tracked'[e.key] {
      if e.key == key && e in heap {
        assert e.count <= Estimate(c, history, key);
      }
    }
  }

  lemma DiscardKeepsTracks(c: SketchConfig, history: seq<string>, heap: multiset<Entry>,
          tracked: map<string, int>, e: Entry)
    requires c.Valid() && HeapTracks(c, history, heap, tracked) && e in heap && Stale(e, tracked)
    ensures HeapTracks(c, history, heap - multiset{e}, tracked)
  {
    hide Estimate;
  }

  lemma EvictKeepsTracks(c: SketchConfig, history: seq<string>, heap: multiset<Entry>,
          tracked: map<string, int>, e: Entry)
    requires c.Valid() && HeapTracks(c, history, heap, tracked) && e in heap
    ensures HeapTracks(c, history, heap - multiset{e}, tracked - {e.key})
  {
    hide Estimate;
  }

  /** A current root is the least over the tracked keys. */
  lemma CurrentRootIsLeast(c: SketchConfig, history: seq<string>, heap: seq<Entry>, tracked: map<string, int>)
    requires c.Valid() && IsHeap(heap) && heap != []
    requires HeapTracks(c, history, multiset(heap), tracked) && !Stale(heap[0], tracked)
    ensures IsLeastEntry(tracked, heap[0])
  {
    hide Estimate, AtMost;
    forall key | key in tracked ensures AtMost(heap[0], Entry(tracked[key], key)) {
      var e := Entry(tracked[key], key);
      assert e in multiset(heap);
      assert e in heap;
      var i :| 0 <= i < |heap| && heap[i] == e;
      RootIsLeast(heap, i);
    }
  }

  class TopKTracker {
    const k: nat
    const sketch: CountMinSketch
    var heap: seq<Entry>
    var tracked: map<string, int>

    /** The tracked map is that of the heapless tracker; the heap tracks it, within its bound. */
    ghost predicate Valid()
      reads this, sketch, sketch.table
    {
      && sketch.Valid()
      && tracked == Tracked(sketch.config, k, sketch.history)
      && IsHeap(heap)
      && HeapTracks(sketch.config, sketch.history, multiset(heap), tracked)
      && |heap| <= if tracked == map[] then 0 else HEAP_CLEANUP_RATIO * k + |tracked| - 1
    }

    constructor (k: nat, config: SketchConfig)
      requires config.Valid()
      ensures Valid() && this.k == k && sketch.config == config && sketch.history == []
      ensures tracked == map[] && heap == [] && fresh(sketch) && fresh(sketch.table)
    {
      this.k := k;
      sketch := new CountMinSketch(config);
      heap := [];
      tracked := map[];
    }

    method Record(key: string)
      requires Valid()
      modifies this, sketch, sketch.table
      ensures Valid() && sketch.history == old(sketch.history) + [key]
      ensures tracked == NextTracked(k, old(tracked), key, Estimate(sketch.config, sketch.history, key))
      ensures key in old(tracked) || |old(tracked)| < k ==> tracked.Keys == old(tracked).Keys + {key}
      ensures forall gone :: gone in old(tracked) && gone !in tracked ==>
                && key !in old(tracked) && |old(tracked)| == k && key in tracked
                && old(tracked)[gone] < Estimate(sketch.config, sketch.history, key)
                && forall other :: other in old(tracked) ==> old(tracked)[gone] <= old(tracked)[other]
      ensures key in old(tracked) ==>
                |heap| == if |old(heap)| + 1 > k * HEAP_CLEANUP_RATIO then |tracked| else |old(heap)| + 1
      ensures key !in old(tracked) && |old(tracked)| < k ==> |heap| == |old(heap)| + 1
      ensures key !in old(tracked) && |old(tracked)| >= k ==> |heap| <= |old(heap)|
    {
      hide Estimate, Mass, Tracked, IsHeap, HeapTracks;
      ghost var before := sketch.history;
      NoHeavyHitterMissed(sketch.config, k, before);
      TrackedOneMore(sketch.config, k, before, key);
      sketch.Increment(key);
      var estimated := sketch.EstimateOf(key);
      if key in tracked {
        RecordTracked(key, estimated, before);
      } else if |tracked| < k {
        RecordNew(key, estimated, before);
      } else {
        RecordOverCapacity(key, estimated, before);
      }
    }

    /** A tracked key: its old entry stays behind, out of date. */
    method RecordTracked(key: string, estimated: int, ghost before: seq<string>)
      requires sketch.Valid() && sketch.history == before + [key]
      requires estimated == Estimate(sketch.config, sketch.history, key)
      requires IsHeap(heap) && HeapTracks(sketch.config, before, multiset(heap), tracked)
      requires key in tracked
      modifies this
      ensures IsHeap(heap) && HeapTracks(sketch.config, sketch.history, multiset(heap), tracked)
      ensures tracked == NextTracked(k, old(tracked), key, estimated) && |tracked| == |old(tracked)|
      ensures |heap| == if |old(heap)| + 1 > k * HEAP_CLEANUP_RATIO then |tracked| else |old(heap)| + 1
    {
      hide Estimate, Mass, IsHeap, HeapTracks;
      PushKeepsTracks(sketch.config, before, multiset(heap), tracked, key);
      assert tracked[key := estimated].Keys == tracked.Keys;
      tracked := tracked[key := estimated];
      heap := Push(heap, Entry(estimated, key));
      if |heap| > k * HEAP_CLEANUP_RATIO {
        CompactHeap();
      }
    }

    method RecordNew(key: string, estimated: int, ghost before: seq<string>)
      requires sketch.Valid() && sketch.history == before + [key]
      requires estimated == Estimate(sketch.config, sketch.history, key)
      requires IsHeap(heap) && HeapTracks(sketch.config, before, multiset(heap), tracked)
      requires key !in tracked && |tracked| < k
      modifies this
      ensures IsHeap(heap) && HeapTracks(sketch.config, sketch.history, multiset(heap), tracked)
      ensures tracked == NextTracked(k, old(tracked), key, estimated) && |tracked| == |old(tracked)| + 1
      ensures |heap| == |old(heap)| + 1
    {
      hide Estimate, Mass, IsHeap, HeapTracks;
      PushKeepsTracks(sketch.config, before, multiset(heap), tracked, key);
      assert tracked[key := estimated].Keys == tracked.Keys + {key};
      tracked := tracked[key := estimated];
      heap := Push(heap, Entry(estimated, key));
    }

    /** The root is the least entry: it is popped, and its key replaced. */
    method ReplaceLeast(key: string, estimated: int, ghost before: seq<string>)
      requires sketch.Valid() && sketch.history == before + [key]
      requires estimated == Estimate(sketch.config, sketch.history, key)
      requires IsHeap(heap) && HeapTracks(sketch.config, before, multiset(heap), tracked)
      requires key !in tracked && heap != [] && IsLeastEntry(tracked, heap[0])
      modifies this
      ensures IsHeap(heap) && HeapTracks(sketch.config, sketch.history, multiset(heap), tracked)
      ensures tracked == (old(tracked) - {old(heap)[0].key})[key := estimated] && |tracked| == |old(tracked)|
      ensures |heap| == |old(heap)|
    {
      hide Estimate, Mass, IsHeap, HeapTracks;
      ghost var c := sketch.config;
      var evicted, rest := Pop(heap);
      EvictKeepsTracks(c, before, multiset(heap), tracked, evicted);
      assert multiset(rest) == multiset(heap) - multiset{evicted};
      tracked := tracked - {evicted.key};
      PushKeepsTracks(c, before, multiset(rest), tracked, key);
      assert tracked.Keys == old(tracked).Keys - {evicted.key};
      assert tracked[key := estimated].Keys == tracked.Keys + {key};
      tracked := tracked[key := estimated];
      heap := Push(rest, Entry(estimated, key));
    }

    /** With no room, the key replaces the least tracked key if its estimate is larger. */
    method RecordOverCapacity(key: string, estimated: int, ghost before: seq<string>)
      requires sketch.Valid() && sketch.history == before + [key]
      requires estimated == Estimate(sketch.config, sketch.history, key)
      requires IsHeap(heap) && HeapTracks(sketch.config, before, multiset(heap), tracked)
      requires key !in tracked && |tracked| >= k
      modifies this
      ensures IsHeap(heap) && HeapTracks(sketch.config, sketch.history, multiset(heap), tracked)
      ensures tracked == NextTracked(k, old(tracked), key, estimated) && |tracked| == |old(tracked)|
      ensures |heap| <= |old(heap)|
    {
      hide Estimate, Mass, IsHeap, HeapTracks;
      ghost var c := sketch.config;
      var minEntry := PeekMin(before);
      if minEntry.Some? {
        LeastEntryUnique(tracked, LeastEntry(tracked), minEntry.value);
      }
      if minEntry.Some? && estimated > minEntry.value.count {
        ReplaceLeast(key, estimated, before);
      } else {
        HeapTracksLater(c, before, multiset(heap), tracked, key);
      }
    }

    /** Throws away out-of-date roots until the root is current; that root is the least over the
        tracked keys, and there is none only if nothing is tracked. */
    method PeekMin(ghost history: seq<string>) returns (least: Option<Entry>)
      requires sketch.config.Valid() && IsHeap(heap)
      requires HeapTracks(sketch.config, history, multiset(heap), tracked)
      modifies `heap
      ensures IsHeap(heap) && HeapTracks(sketch.config, history, multiset(heap), tracked)
      ensures |heap| <= |old(heap)|
      ensures least.None? <==> tracked == map[]
      ensures least.Some? ==> heap != [] && heap[0] == least.value && IsLeastEntry(tracked, least.value)
    {
      hide Estimate, IsHeap;
      while heap != []
        invariant IsHeap(heap) && HeapTracks(sketch.config, history, multiset(heap), tracked)
        invariant |heap| <= |old(heap)|
        decreases |heap|
      {
        var root := heap[0];
        assert root in multiset(heap);
        if root.key in tracked && tracked[root.key] == root.count {
          CurrentRootIsLeast(sketch.config, history, heap, tracked);
          return Some(root);
        }
        DiscardKeepsTracks(sketch.config, history, multiset(heap), tracked, root);
        var popped, rest := Pop(heap);
        assert multiset(rest) == multiset(heap) - multiset{root};
        heap := rest;
      }
      assert forall key :: key in tracked ==> multiset(heap)[Entry(tracked[key], key)] == 1;
      return None;
    }

    /** Rebuilds the heap from the tracked keys. */
    method CompactHeap()
      requires sketch.Valid() && HeapTracks(sketch.config, sketch.history, multiset(heap), tracked)
      modifies `heap
      ensures IsHeap(heap) && HeapTracks(sketch.config, sketch.history, multiset(heap), tracked)
      ensures |heap| == |tracked|
    {
      hide Estimate, Mass, IsHeap;
      var entries := Items();
      heap := Heapify(entries);
    }

    /** The tracked items, in any order. */
    method Items() returns (entries: seq<Entry>)
      ensures multiset(entries) == multiset(ItemsFor(tracked, tracked.Keys)) && |entries| == |tracked|
    {
      entries := [];
      var todo := tracked.Keys;
      ghost var done: set<string> := {};
      while todo != {}
        invariant done + todo == tracked.Keys && done !! todo
        invariant multiset(entries) == multiset(ItemsFor(tracked, done)) && |entries| == |done|
        decreases todo
      {
        var key :| key in todo;
        ItemsForOneMore(tracked, done, key);
        entries := entries + [Entry(tracked[key], key)];
        todo := todo - {key};
        done := done + {key};
      }
      assert done == tracked.Keys;
    }

    /** The tracked keys and counts, highest count first. */
    method TopItems() returns (items: seq<Entry>)
      ensures multiset(items) == multiset(ItemsFor(tracked, tracked.Keys)) && |items| == |tracked|
      ensures forall i, j :: 0 <= i < j < |items| ==> items[i].count >= items[j].count
    {
      var entries := Items();
      var rank := (e: Entry) => -(e.count as real);
      SortBySorts(entries, rank);
      SortByPermutes(entries, rank);
      items := SortBy(entries, rank);
      assert |items| == |multiset(items)| == |multiset(entries)| == |entries|;
      forall i, j | 0 <= i < j < |items| ensures items[i].count >= items[j].count {
        assert rank(items[i]) <= rank(items[j]);
      }
    }
  }

  /** What every reachable tracker promises. */
  lemma TrackerMissesNoHeavyHitter(t: TopKTracker)
    requires t.Valid()
    ensures |t.tracked| <= t.k
    ensures CountsBounded(t.sketch.config, t.sketch.history, t.tracked)
    ensures NothingMissed(t.k, t.sketch.history, t.tracked)
  {
    NoHeavyHitterMissed(t.sketch.config, t.k, t.sketch.history);
  }

  /** However many records, the heap never holds more than 4k - 1 entries. */
  lemma HeapIsBounded(t: TopKTracker)
    requires t.Valid() && t.k >= 1
    ensures |t.heap| <= 4 * t.k - 1
  {
    NoHeavyHitterMissed(t.sketch.config, t.k, t.sketch.history);
  }

  /** And 4k - 1 entries are reached: 3k records of one key, then k - 1 new keys, because the heap
      is compacted only when a tracked key is recorded. */
  method ReachHeapBound(k: nat, config: SketchConfig) returns (t: TopKTracker)
    requires k >= 1 && config.Valid()
    ensures t.Valid() && t.k == k && |t.heap| == 4 * k - 1
  {
    hide Estimate, Mass, Tracked, IsHeap, HeapTracks, NextTracked;
    t := new TopKTracker(k, config);
    t.Record("");
    for i := 1 to 3 * k
      invariant t.Valid() && t.k == k && fresh(t) && fresh(t.sketch) && fresh(t.sketch.table)
      invariant t.tracked.Keys == {""} && |t.heap| == i
    {
      assert |t.tracked| == |t.tracked.Keys| == 1;
      t.Record("");
    }
    assert |t.tracked| == |t.tracked.Keys| == 1;
    ReachWithNewKeys(t);
  }

  method ReachWithNewKeys(t: TopKTracker)
    requires t.Valid() && t.k >= 1 && t.tracked.Keys == {""} && |t.tracked| == 1 && |t.heap| == 3 * t.k
    modifies t, t.sketch, t.sketch.table
    ensures t.Valid() && |t.heap| == 4 * t.k - 1
  {
    hide Estimate, Mass, Tracked, IsHeap, HeapTracks, NextTracked;
    var key := "";
    for i := 1 to t.k
      invariant t.Valid()
      invariant forall other :: other in t.tracked.Keys ==> |other| <= |key|
      invariant |t.tracked| == i && |t.heap| == 3 * t.k + i - 1
    {
      key := key + "x";
      ghost var keys := t.tracked.Keys;
      assert key !in keys && |keys| == i && |keys + {key}| == i + 1;
      t.Record(key);
      assert |t.tracked| == |t.tracked.Keys|;
    }
  }

  ghost function ItemsFor(tracked: map<string, int>, keys: set<string>): set<Entry> {
    set key | key in keys && key in tracked :: Entry(tracked[key], key)
  }

  lemma ItemsForOneMore(tracked: map<string, int>, keys: set<string>, key: string)
    requires key in tracked && key !in keys
    ensures multiset(ItemsFor(tracked, keys + {key}))
         == multiset(ItemsFor(tracked, keys)) + multiset{Entry(tracked[key], key)}
  {
    assert ItemsFor(tracked, keys + {key}) == ItemsFor(tracked, keys) + {Entry(tracked[key], key)};
  }
}
