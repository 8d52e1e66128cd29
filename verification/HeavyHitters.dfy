/**
 The tracker without its heap: it looks for the least tracked key directly.  The class TopKTracker
 refines this, and what it promises about heavy hitters is proved here.
 */
module HeavyHitters {
  import opened CountMin
  import opened Heap

  ghost predicate IsLeastEntry(tracked: map<string, int>, e: Entry) {
    && e.key in tracked && tracked[e.key] == e.count
    && forall key :: key in tracked ==> AtMost(e, Entry(tracked[key], key))
  }

  lemma {:induction false} LeastEntryExists(tracked: map<string, int>) returns (e: Entry)
    requires tracked != map[]
    ensures IsLeastEntry(tracked, e)
    decreases |tracked|
  {
    var key :| key in tracked;
    var here := Entry(tracked[key], key);
    var rest := tracked - {key};
    AtMostTotal(here, here);
    if rest == map[] {
      assert forall k :: k in tracked && k != key ==> k in rest;
      e := here;
    } else {
      var other := LeastEntryExists(rest);
      AtMostTotal(here, other);
      e := if AtMost(here, other) then here else other;
      forall k | k in tracked ensures AtMost(e, Entry(tracked[k], k)) {
        if k != key {
          assert k in rest;
          if e == here { AtMostTransitive(here, other, Entry(tracked[k], k)); }
        }
      }
    }
  }

  lemma LeastCount(tracked: map<string, int>, e: Entry)
    requires IsLeastEntry(tracked, e)
    ensures e.key in tracked && tracked[e.key] == e.count
    ensures forall key :: key in tracked ==> e.count <= tracked[key]
  {
    forall key | key in tracked ensures e.count <= tracked[key] {
      assert AtMost(e, Entry(tracked[key], key));
    }
  }

  lemma LeastEntryUnique(tracked: map<string, int>, a: Entry, b: Entry)
    requires IsLeastEntry(tracked, a) && IsLeastEntry(tracked, b)
    ensures a == b
  {
    AtMostTotal(a, b);
  }

  ghost function LeastEntry(tracked: map<string, int>): (e: Entry)
    requires tracked != map[]
    ensures IsLeastEntry(tracked, e)
  {
    assert exists x :: IsLeastEntry(tracked, x) by { var x := LeastEntryExists(tracked); }
    var e :| IsLeastEntry(tracked, e);
    e
  }

  /** A recorded key with its new estimate is kept if it is tracked, if there is room, or if it
      beats the least tracked count, whose key it then replaces. */
  ghost function NextTracked(k: nat, tracked: map<string, int>, key: string, estimate: int): map<string, int> {
    if key in tracked || |tracked| < k then tracked[key := estimate]
    else if tracked == map[] then tracked
    else
      var least := LeastEntry(tracked);
      if estimate > least.count then (tracked - {least.key})[key := estimate] else tracked
  }

  /** What one record does: the key enters if it is tracked, if there is room, or if its estimate is
      strictly larger than some reported count, never on a tie.  What it replaces is then one key, of the
      least count and of those the first by code points; all others keep their counts. */
  lemma RecordReplacesExactly(k: nat, tracked: map<string, int>, key: string, estimate: int)
    ensures var next := NextTracked(k, tracked, key, estimate);
            && (key in next <==> key in tracked || |tracked| < k
                                 || exists other :: other in tracked && tracked[other] < estimate)
            && (key in next ==> next[key] == estimate)
            && (forall other :: other in next && other != key ==> other in tracked && next[other] == tracked[other])
            && (forall gone :: gone in tracked && gone !in next ==>
                  && key !in tracked && |tracked| >= k && tracked[gone] < estimate
                  && forall other :: other in tracked && other != gone ==>
                       && other in next && tracked[gone] <= tracked[other]
                       && (tracked[other] == tracked[gone] ==> StringLess(gone, other)))
  {
    if key !in tracked && |tracked| >= k && tracked != map[] {
      var least := LeastEntry(tracked);
      LeastCount(tracked, least);
      forall other | other in tracked && other != least.key && tracked[other] == least.count
        ensures StringLess(least.key, other)
      {
        assert AtMost(least, Entry(tracked[other], other));
        StringLessTotal(least.key, other);
      }
    }
  }

  ghost function Tracked(c: SketchConfig, k: nat, history: seq<string>): map<string, int>
    requires c.Valid()
  {
    if history == [] then map[]
    else
      var key := history[|history| - 1];
      NextTracked(k, Tracked(c, k, history[..|history| - 1]), key, Estimate(c, history, key))
  }

  lemma TrackedOneMore(c: SketchConfig, k: nat, history: seq<string>, key: string)
    requires c.Valid()
    ensures Tracked(c, k, history + [key])
         == NextTracked(k, Tracked(c, k, history), key, Estimate(c, history + [key], key))
  {
    assert (history + [key])[..|history|] == history;
  }

  // ----- what is tracked, over every history -----

  /** Reported counts never fall below the true counts nor rise above the estimates; only recorded
      keys are reported. */
  ghost predicate CountsBounded(c: SketchConfig, history: seq<string>, tracked: map<string, int>)
    requires c.Valid()
  {
    forall key :: key in tracked ==>
      0 < Count(history, key) <= tracked[key] <= Estimate(c, history, key)
  }

  /** With room left, every recorded key is tracked; without, no untracked key has been recorded
      more often than any reported count. */
  ghost predicate NothingMissed(k: nat, history: seq<string>, tracked: map<string, int>) {
    forall key :: key !in tracked ==>
      if |tracked| < k then Count(history, key) == 0
      else forall other :: other in tracked ==> Count(history, key) <= tracked[other]
  }

  lemma RecordBounds(c: SketchConfig, history: seq<string>, tracked: map<string, int>, key: string)
    requires c.Valid() && CountsBounded(c, history, tracked)
    ensures var h, estimate := history + [key], Estimate(c, history + [key], key);
            && CountsBounded(c, h, tracked[key := estimate])
            && (key !in tracked ==> CountsBounded(c, h, tracked))
            && estimate >= Count(h, key) > 0
            && (key in tracked ==> estimate > tracked[key])
            && forall other :: other != key ==> Count(h, other) == Count(history, other)
  {
    hide Count, Estimate;
    EstimateAtLeastCount(c, history + [key], key);
    EstimateGrows(c, history, key, key);
    forall other ensures Count(history + [key], other) == Count(history, other) + if key == other then 1 else 0
                 ensures Estimate(c, history, other) <= Estimate(c, history + [key], other) {
      CountOneMore(history, key, other);
      EstimateGrows(c, history, key, other);
    }
  }

  lemma NextIsFaithful(c: SketchConfig, k: nat, history: seq<string>, tracked: map<string, int>, key: string)
    requires c.Valid() && |tracked| <= k && CountsBounded(c, history, tracked) && NothingMissed(k, history, tracked)
    ensures var next := NextTracked(k, tracked, key, Estimate(c, history + [key], key));
            && |next| <= k && CountsBounded(c, history + [key], next) && NothingMissed(k, history + [key], next)
  {
    hide Count, Estimate, AtMost;
    var h, estimate := history + [key], Estimate(c, history + [key], key);
    var next := NextTracked(k, tracked, key, estimate);
    RecordBounds(c, history, tracked, key);
    if key in tracked || |tracked| < k {
      assert next.Keys == tracked.Keys + {key};
    } else if tracked != map[] {
      EvictionIsFaithful(c, k, history, tracked, key);
    }
  }

  lemma EvictionIsFaithful(c: SketchConfig, k: nat, history: seq<string>, tracked: map<string, int>, key: string)
    requires c.Valid() && |tracked| == k && CountsBounded(c, history, tracked) && NothingMissed(k, history, tracked)
    requires key !in tracked && tracked != map[]
    ensures var next := NextTracked(k, tracked, key, Estimate(c, history + [key], key));
            && |next| <= k && CountsBounded(c, history + [key], next) && NothingMissed(k, history + [key], next)
  {
    hide Count, Estimate, AtMost, IsLeastEntry;
    LeastCount(tracked, LeastEntry(tracked));
    var h, estimate, least := history + [key], Estimate(c, history + [key], key), LeastEntry(tracked);
    var next := NextTracked(k, tracked, key, estimate);
    RecordBounds(c, history, tracked, key);
    if estimate > least.count {
      assert next.Keys == tracked.Keys - {least.key} + {key};
      assert |tracked.Keys - {least.key}| == k - 1;
    }
  }

  /** No heavy hitter is missed, over any sequence of recorded keys. */
  lemma {:induction false} NoHeavyHitterMissed(c: SketchConfig, k: nat, history: seq<string>)
    requires c.Valid()
    ensures var tracked := Tracked(c, k, history);
            |tracked| <= k && CountsBounded(c, history, tracked) && NothingMissed(k, history, tracked)
  {
    if history == [] {
    } else {
      var front := history[..|history| - 1];
      NoHeavyHitterMissed(c, k, front);
      NextIsFaithful(c, k, front, Tracked(c, k, front), history[|history| - 1]);
      assert history == front + [history[|history| - 1]];
    }
  }

  /** Where every recorded key has a row to itself, the result is a true top k with exact counts. */
  lemma ExactWithoutCollisions(c: SketchConfig, k: nat, history: seq<string>)
    requires c.Valid()
    requires forall key :: Count(history, key) > 0 ==>
               exists row: nat :: CleanRow(c, history, key, row)
    ensures var tracked := Tracked(c, k, history);
            && (forall key :: key in tracked ==> tracked[key] == Count(history, key))
            && (forall key, other :: key !in tracked && other in tracked ==>
                  Count(history, key) <= Count(history, other))
            && (|tracked| < k ==> forall key :: Count(history, key) > 0 ==> key in tracked)
  {
    hide Count, Estimate, Tracked, CleanRow;
    var tracked := Tracked(c, k, history);
    NoHeavyHitterMissed(c, k, history);
    forall key | key in tracked ensures tracked[key] == Count(history, key) {
      EstimateAtLeastCount(c, history, key);
      ExactByHash(c, history, key);
    }
  }
}
