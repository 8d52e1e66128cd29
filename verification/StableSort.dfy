/** Sorting by a rank, as `list.sort(key=...)` and `sorted(..., key=...)` do: stable. */
module StableSort {

  ghost predicate SortedBy<T>(s: seq<T>, rank: T -> real) {
    forall i, j :: 0 <= i < j < |s| ==> rank(s[i]) <= rank(s[j])
  }

  /** Put `x` before the first element of a strictly or equally higher rank. */
  function InsertBy<T>(x: T, s: seq<T>, rank: T -> real): seq<T> {
    if s == [] || rank(x) <= rank(s[0]) then [x] + s
    else [s[0]] + InsertBy(x, s[1..], rank)
  }

  function SortBy<T>(s: seq<T>, rank: T -> real): seq<T> {
    if s == [] then [] else InsertBy(s[0], SortBy(s[1..], rank), rank)
  }

  lemma {:induction false} InsertByPermutes<T>(x: T, s: seq<T>, rank: T -> real)
    ensures multiset(InsertBy(x, s, rank)) == multiset{x} + multiset(s)
  {
    if s == [] || rank(x) <= rank(s[0]) {
    } else {
      InsertByPermutes(x, s[1..], rank);
      assert s == [s[0]] + s[1..];
    }
  }

  lemma {:induction false} InsertBySorts<T>(x: T, s: seq<T>, rank: T -> real)
    requires SortedBy(s, rank)
    ensures SortedBy(InsertBy(x, s, rank), rank)
  {
    if s == [] || rank(x) <= rank(s[0]) {
    } else {
      var rest := InsertBy(x, s[1..], rank);
      InsertBySorts(x, s[1..], rank);
      InsertByPermutes(x, s[1..], rank);
      forall j | 0 <= j < |rest| ensures rank(s[0]) <= rank(rest[j]) {
        assert rest[j] in multiset(rest);
        assert rest[j] == x || rest[j] in s[1..];
      }
    }
  }

  lemma {:induction false} SortByPermutes<T>(s: seq<T>, rank: T -> real)
    ensures multiset(SortBy(s, rank)) == multiset(s)
  {
    if s == [] {
    } else {
      SortByPermutes(s[1..], rank);
      InsertByPermutes(s[0], SortBy(s[1..], rank), rank);
      assert s == [s[0]] + s[1..];
    }
  }

  lemma {:induction false} SortBySorts<T>(s: seq<T>, rank: T -> real)
    ensures SortedBy(SortBy(s, rank), rank)
  {
    if s == [] {
    } else {
      SortBySorts(s[1..], rank);
      InsertBySorts(s[0], SortBy(s[1..], rank), rank);
    }
  }
}
