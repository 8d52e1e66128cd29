/** The count-min sketch: src/countmin.py. */
module CountMin {

  /** Any hash per row; the source takes four bytes of a SHA-256 digest of the row and the key. */
  datatype SketchConfig = SketchConfig(width: nat, depth: nat, hash: (string, nat) -> nat) {

    /** The seed of a row is one byte. */
    predicate Valid() {
      width > 0 && 0 < depth <= 256
    }

    function Column(key: string, row: nat): (col: nat)
      requires Valid()
      ensures col < width
    {
      hash(key, row) % width
    }
  }

  /** How often `key` was recorded. */
  function Count(history: seq<string>, key: string): nat {
    if history == [] then 0
    else Count(history[..|history| - 1], key) + if history[|history| - 1] == key then 1 else 0
  }

  /** How many recorded events hash to one cell. */
  ghost function Mass(c: SketchConfig, history: seq<string>, row: nat, col: nat): nat
    requires c.Valid()
  {
    if history == [] then 0
    else Mass(c, history[..|history| - 1], row, col) + if c.Column(history[|history| - 1], row) == col then 1 else 0
  }

  /** The events of other keys that share the cell of `key`. */
  ghost function Colliding(c: SketchConfig, history: seq<string>, key: string, row: nat): nat
    requires c.Valid()
  {
    if history == [] then 0
    else
      var last := history[|history| - 1];
      Colliding(c, history[..|history| - 1], key, row)
      + if last != key && c.Column(last, row) == c.Column(key, row) then 1 else 0
  }

  /** The least mass over the first `rows` cells of `key`. */
  ghost function LeastMass(c: SketchConfig, history: seq<string>, key: string, rows: nat): nat
    requires c.Valid() && rows > 0
  {
    var mass := Mass(c, history, rows - 1, c.Column(key, rows - 1));
    if rows == 1 then mass
    else
      var least := LeastMass(c, history, key, rows - 1);
      if mass < least then mass else least
  }

  ghost function Estimate(c: SketchConfig, history: seq<string>, key: string): nat
    requires c.Valid()
  {
    LeastMass(c, history, key, c.depth)
  }

  ghost function RowSum(c: SketchConfig, history: seq<string>, row: nat, cols: nat): nat
    requires c.Valid()
  {
    if cols == 0 then 0 else RowSum(c, history, row, cols - 1) + Mass(c, history, row, cols - 1)
  }

  lemma CountOneMore(history: seq<string>, event: string, key: string)
    ensures Count(history + [event], key) == Count(history, key) + if event == key then 1 else 0
  {
    assert (history + [event])[..|history|] == history;
  }

  lemma MassOneMore(c: SketchConfig, history: seq<string>, event: string, row: nat, col: nat)
    requires c.Valid()
    ensures Mass(c, history + [event], row, col)
         == Mass(c, history, row, col) + if c.Column(event, row) == col then 1 else 0
  {
    assert (history + [event])[..|history|] == history;
  }

  lemma {:induction false} MassSplits(c: SketchConfig, history: seq<string>, key: string, row: nat)
    requires c.Valid()
    ensures Mass(c, history, row, c.Column(key, row)) == Count(history, key) + Colliding(c, history, key, row)
  {
    if history == [] {
    } else {
      MassSplits(c, history[..|history| - 1], key, row);
    }
  }

  lemma {:induction false} RowSumOneMore(c: SketchConfig, history: seq<string>, event: string, row: nat, cols: nat)
    requires c.Valid()
    ensures RowSum(c, history + [event], row, cols)
         == RowSum(c, history, row, cols) + if c.Column(event, row) < cols then 1 else 0
  {
    if cols == 0 {
    } else {
      RowSumOneMore(c, history, event, row, cols - 1);
      MassOneMore(c, history, event, row, cols - 1);
    }
  }

  lemma {:induction false} EmptyRowSum(c: SketchConfig, row: nat, cols: nat)
    requires c.Valid()
    ensures RowSum(c, [], row, cols) == 0
  {
    if cols == 0 {
    } else {
      EmptyRowSum(c, row, cols - 1);
    }
  }

  /** Conservation: every row of the table sums to the number of recorded events. */
  lemma {:induction false} RowHoldsEveryEvent(c: SketchConfig, history: seq<string>, row: nat)
    requires c.Valid()
    ensures RowSum(c, history, row, c.width) == |history|
  {
    if history == [] {
      EmptyRowSum(c, row, c.width);
    } else {
      var front, event := history[..|history| - 1], history[|history| - 1];
      RowHoldsEveryEvent(c, front, row);
      RowSumOneMore(c, front, event, row, c.width);
      assert history == front + [event];
    }
  }

  lemma {:induction false} LeastMassIsLeast(c: SketchConfig, history: seq<string>, key: string, rows: nat)
    requires c.Valid() && rows > 0
    ensures forall row: nat :: row < rows ==>
      LeastMass(c, history, key, rows) <= Mass(c, history, row, c.Column(key, row))
    ensures exists row: nat :: (
              row < rows && LeastMass(c, history, key, rows) == Mass(c, history, row, c.Column(key, row)))
  {
    var last := rows - 1;
    var mass := Mass(c, history, last, c.Column(key, last));
    if rows > 1 {
      LeastMassIsLeast(c, history, key, last);
      var row: nat :| row < last && LeastMass(c, history, key, last) == Mass(c, history, row, c.Column(key, row));
      assert LeastMass(c, history, key, rows) == if mass < LeastMass(c, history, key, last) then mass
                                                 else Mass(c, history, row, c.Column(key, row));
    } else {
      assert LeastMass(c, history, key, rows) == mass;
    }
  }

  /** The estimate is the true count plus the smallest colliding mass over the rows. */
  lemma EstimateIsCountPlusCollisions(c: SketchConfig, history: seq<string>, key: string)
    requires c.Valid()
    ensures forall row: nat :: row < c.depth ==>
      Estimate(c, history, key) <= Count(history, key) + Colliding(c, history, key, row)
    ensures exists row: nat :: (
              row < c.depth && Estimate(c, history, key) == Count(history, key) + Colliding(c, history, key, row))
  {
    LeastMassIsLeast(c, history, key, c.depth);
    forall row: nat | row < c.depth
      ensures Mass(c, history, row, c.Column(key, row)) == Count(history, key) + Colliding(c, history, key, row)
    {
      MassSplits(c, history, key, row);
    }
  }

  // ----- what the estimate is, in terms of the hash -----

  /** Two keys whose hashes fall in the same column of a row. */
  predicate Collide(c: SketchConfig, a: string, b: string, row: nat)
    requires c.Valid()
  {
    c.hash(a, row) % c.width == c.hash(b, row) % c.width
  }

  /** The places in the history at which `key` was recorded. */
  ghost function EventsOf(history: seq<string>, key: string): set<nat> {
    set i: nat | i < |history| && history[i] == key
  }

  /** The places at which another key was recorded that collides with `key` in the row. */
  ghost function CollidingEvents(c: SketchConfig, history: seq<string>, key: string, row: nat): set<nat>
    requires c.Valid()
  {
    set i: nat | i < |history| && history[i] != key && Collide(c, history[i], key, row)
  }

  lemma {:induction false} CountIsEvents(history: seq<string>, key: string)
    ensures Count(history, key) == |EventsOf(history, key)|
  {
    if history == [] {
      assert EventsOf(history, key) == {};
    } else {
      var n := |history| - 1;
      CountIsEvents(history[..n], key);
      assert EventsOf(history, key) == EventsOf(history[..n], key) + if history[n] == key then {n} else {};
    }
  }

  lemma {:induction false} CollidingIsEvents(c: SketchConfig, history: seq<string>, key: string, row: nat)
    requires c.Valid()
    ensures Colliding(c, history, key, row) == |CollidingEvents(c, history, key, row)|
  {
    if history == [] {
      assert CollidingEvents(c, history, key, row) == {};
    } else {
      var n := |history| - 1;
      CollidingIsEvents(c, history[..n], key, row);
      assert CollidingEvents(c, history, key, row)
          == CollidingEvents(c, history[..n], key, row)
             + if history[n] != key && Collide(c, history[n], key, row) then {n} else {};
    }
  }

  /** The estimate is the number of times the key was recorded plus the least number, over the rows, of
      events of other keys whose hashes collide with its own. */
  lemma EstimateByHash(c: SketchConfig, history: seq<string>, key: string)
    requires c.Valid()
    ensures forall row: nat :: row < c.depth ==>
      Estimate(c, history, key) <= |EventsOf(history, key)| + |CollidingEvents(c, history, key, row)|
    ensures exists row: nat :: (row < c.depth
              && Estimate(c, history, key) == |EventsOf(history, key)| + |CollidingEvents(c, history, key, row)|)
  {
    EstimateIsCountPlusCollisions(c, history, key);
    CountIsEvents(history, key);
    forall row: nat ensures Colliding(c, history, key, row) == |CollidingEvents(c, history, key, row)| {
      CollidingIsEvents(c, history, key, row);
    }
  }

  /** In that row no other recorded key collides with `key`. */
  ghost predicate CleanRow(c: SketchConfig, history: seq<string>, key: string, row: nat)
    requires c.Valid()
  {
    row < c.depth && forall other :: other in history && other != key ==> !Collide(c, other, key, row)
  }

  /** A key that has a row to itself is counted exactly, and only such a key. */
  lemma ExactByHash(c: SketchConfig, history: seq<string>, key: string)
    requires c.Valid()
    ensures Estimate(c, history, key) == Count(history, key) <==> exists row: nat :: CleanRow(c, history, key, row)
  {
    EstimateByHash(c, history, key);
    CountIsEvents(history, key);
    forall row: nat | row < c.depth
      ensures CleanRow(c, history, key, row) <==> CollidingEvents(c, history, key, row) == {}
    {
      CleanRowHasNoEvents(c, history, key, row);
    }
    if exists row: nat :: CleanRow(c, history, key, row) {
      var row: nat :| CleanRow(c, history, key, row);
      assert Estimate(c, history, key) <= Count(history, key) + |CollidingEvents(c, history, key, row)|;
    }
  }

  lemma CleanRowHasNoEvents(c: SketchConfig, history: seq<string>, key: string, row: nat)
    requires c.Valid() && row < c.depth
    ensures CleanRow(c, history, key, row) <==> CollidingEvents(c, history, key, row) == {}
  {
    if !CleanRow(c, history, key, row) {
      var other :| other in history && other != key && Collide(c, other, key, row);
      var i :| 0 <= i < |history| && history[i] == other;
      assert i in CollidingEvents(c, history, key, row);
    }
  }

  lemma {:induction false} LeastMassGrows(c: SketchConfig, history: seq<string>, event: string, key: string, rows: nat)
    requires c.Valid() && rows > 0
    ensures LeastMass(c, history, key, rows) <= LeastMass(c, history + [event], key, rows)
    ensures event == key ==> LeastMass(c, history + [event], key, rows) == LeastMass(c, history, key, rows) + 1
  {
    MassOneMore(c, history, event, rows - 1, c.Column(key, rows - 1));
    if rows == 1 {
    } else {
      LeastMassGrows(c, history, event, key, rows - 1);
    }
  }

  /** Recording a key raises its own estimate by exactly one and never lowers another. */
  lemma EstimateGrows(c: SketchConfig, history: seq<string>, event: string, key: string)
    requires c.Valid()
    ensures Estimate(c, history, key) <= Estimate(c, history + [event], key)
    ensures event == key ==> Estimate(c, history + [event], key) == Estimate(c, history, key) + 1
  {
    LeastMassGrows(c, history, event, key, c.depth);
  }

  lemma EstimateAtLeastCount(c: SketchConfig, history: seq<string>, key: string)
    requires c.Valid()
    ensures Count(history, key) <= Estimate(c, history, key)
  {
    EstimateIsCountPlusCollisions(c, history, key);
  }

  class CountMinSketch {
    const config: SketchConfig
    const table: array2<int>
    ghost var history: seq<string>

    /** Every cell is the number of recorded events that hash to it. */
    ghost predicate Valid()
      reads this, table
    {
      && config.Valid()
      && table.Length0 == config.depth && table.Length1 == config.width
      && forall row: nat, col: nat :: row < config.depth && col < config.width ==>
           table[row, col] == Mass(config, history, row, col)
    }

    constructor (config: SketchConfig)
      requires config.Valid()
      ensures Valid() && fresh(table) && this.config == config && history == []
    {
      this.config := config;
      table := new int[config.depth, config.width]((row, col) => 0);
      history := [];
    }

    method Increment(key: string)
      requires Valid()
      modifies `history, table
      ensures Valid() && history == old(history) + [key]
    {
      for row := 0 to config.depth
        invariant history == old(history)
        invariant forall r: nat, col: nat :: r < config.depth && col < config.width ==>
          table[r, col] == Mass(config, if r < row then history + [key] else history, r, col)
      {
        var col := config.Column(key, row);
        forall j: nat ensures Mass(config, history + [key], row, j)
                           == Mass(config, history, row, j) + if j == col then 1 else 0 {
          MassOneMore(config, history, key, row, j);
        }
        table[row, col] := table[row, col] + 1;
      }
      history := history + [key];
    }

    method EstimateOf(key: string) returns (estimate: int)
      requires Valid()
      ensures estimate == Estimate(config, history, key)
    {
      estimate := table[0, config.Column(key, 0)];
      for row := 1 to config.depth
        invariant estimate == LeastMass(config, history, key, row)
      {
        var count := table[row, config.Column(key, row)];
        if count < estimate {
          estimate := count;
        }
      }
    }
  }
}
