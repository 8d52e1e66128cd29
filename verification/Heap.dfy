/**
 A binary min-heap of counted keys in a sequence.  The source uses the heapq library on tuples; any
 heap that meets these contracts serves.
 */
module Heap {

  /** Python compares strings by code point. */
  predicate StringLess(a: string, b: string) {
    b != [] && (a == [] || a[0] < b[0] || (a[0] == b[0] && StringLess(a[1..], b[1..])))
  }

  /** The first `n` characters are the same, and then `a` ends or has the smaller character. */
  ghost predicate LessAt(a: string, b: string, n: nat) {
    n <= |a| && n < |b| && a[..n] == b[..n] && (n == |a| || a[n] < b[n])
  }

  lemma {:induction false} StringLessExactly(a: string, b: string)
    ensures StringLess(a, b) <==> exists n: nat :: LessAt(a, b, n)
  {
    if a != [] && b != [] && a[0] == b[0] {
      StringLessExactly(a[1..], b[1..]);
      if StringLess(a[1..], b[1..]) {
        var n: nat :| LessAt(a[1..], b[1..], n);
        assert a[..n + 1] == [a[0]] + a[1..][..n] && b[..n + 1] == [b[0]] + b[1..][..n];
        assert LessAt(a, b, n + 1);
      }
      if n: nat :| LessAt(a, b, n) {
        assert a[1..][..n - 1] == a[..n][1..] && b[1..][..n - 1] == b[..n][1..];
        assert LessAt(a[1..], b[1..], n - 1);
      }
    } else if StringLess(a, b) {
      assert LessAt(a, b, 0);
    } else {
      forall n: nat ensures !LessAt(a, b, n) {
        assert n > 0 && n <= |a| && n <= |b| ==> a[..n][0] == a[0] && b[..n][0] == b[0];
      }
    }
  }

  datatype Entry = Entry(count: int, key: string)

  /** Tuples compare by count, then by key. */
  predicate Less(a: Entry, b: Entry) {
    a.count < b.count || (a.count == b.count && StringLess(a.key, b.key))
  }

  predicate AtMost(a: Entry, b: Entry) {
    !Less(b, a)
  }

  lemma {:induction false} StringLessTotal(a: string, b: string)
    ensures StringLess(a, b) || StringLess(b, a) || a == b
    ensures !(StringLess(a, b) && StringLess(b, a))
  {
    if a != [] && b != [] && a[0] == b[0] {
      StringLessTotal(a[1..], b[1..]);
      assert a == [a[0]] + a[1..] && b == [b[0]] + b[1..];
    }
  }

  lemma {:induction false} StringLessTransitive(a: string, b: string, c: string)
    requires StringLess(a, b) && StringLess(b, c)
    ensures StringLess(a, c)
  {
    if a != [] && a[0] == b[0] && b[0] == c[0] {
      StringLessTransitive(a[1..], b[1..], c[1..]);
    }
  }

  lemma AtMostTotal(a: Entry, b: Entry)
    ensures AtMost(a, b) || AtMost(b, a)
    ensures AtMost(a, b) && AtMost(b, a) ==> a == b
    ensures Less(a, b) ==> AtMost(a, b)
  {
    StringLessTotal(a.key, b.key);
  }

  lemma AtMostTransitive(a: Entry, b: Entry, c: Entry)
    requires AtMost(a, b) && AtMost(b, c)
    ensures AtMost(a, c)
  {
    StringLessTotal(a.key, b.key);
    StringLessTotal(b.key, c.key);
    if Less(c, a) && c.count == a.count {
      if StringLess(a.key, b.key) {
        StringLessTransitive(c.key, a.key, b.key);
      }
    }
  }

  function Parent(i: int): int {
    (i - 1) / 2
  }

  ghost predicate IsHeap(h: seq<Entry>) {
    forall i :: 0 < i < |h| ==> AtMost(h[Parent(i)], h[i])
  }

  lemma {:induction false} RootIsLeast(h: seq<Entry>, i: nat)
    requires IsHeap(h) && i < |h|
    ensures AtMost(h[0], h[i])
    decreases i
  {
    if i == 0 {
      AtMostTotal(h[0], h[0]);
    } else {
      RootIsLeast(h, Parent(i));
      AtMostTransitive(h[0], h[Parent(i)], h[i]);
    }
  }

  function Swap(h: seq<Entry>, i: nat, j: nat): seq<Entry>
    requires i < |h| && j < |h|
  {
    h[i := h[j]][j := h[i]]
  }

  lemma SwapPermutes(h: seq<Entry>, i: nat, j: nat)
    requires i < |h| && j < |h|
    ensures multiset(Swap(h, i, j)) == multiset(h)
  {
  }

  /** A heap except that `pos` may be below its parent; its children are above its parent. */
  ghost predicate HeapButUp(h: seq<Entry>, pos: nat) {
    && (forall i :: 0 < i < |h| && i != pos ==> AtMost(h[Parent(i)], h[i]))
    && (forall i :: 0 < i < |h| && Parent(i) == pos && pos > 0 ==> AtMost(h[Parent(pos)], h[i]))
  }

  lemma SiftUpStep(h: seq<Entry>, pos: nat)
    requires 0 < pos < |h| && HeapButUp(h, pos) && Less(h[pos], h[Parent(pos)])
    ensures HeapButUp(Swap(h, pos, Parent(pos)), Parent(pos))
  {
    var up := Parent(pos);
    var h' := Swap(h, pos, up);
    AtMostTotal(h[pos], h[up]);
    forall i | 0 < i < |h| && i != up ensures AtMost(h'[Parent(i)], h'[i]) {
      if i != pos && Parent(i) == up {
        AtMostTransitive(h[pos], h[up], h[i]);
      }
    }
    forall i | 0 < i < |h| && Parent(i) == up && up > 0 ensures AtMost(h'[Parent(up)], h'[i]) {
      if i != pos {
        AtMostTransitive(h[Parent(up)], h[up], h[i]);
      }
    }
  }

  method Push(h: seq<Entry>, x: Entry) returns (h': seq<Entry>)
    requires IsHeap(h)
    ensures IsHeap(h') && multiset(h') == multiset(h) + multiset{x}
    ensures |h'| == |h| + 1
  {
    h' := h + [x];
    var pos: nat := |h|;
    while pos > 0 && Less(h'[pos], h'[Parent(pos)])
      invariant pos < |h'| == |h| + 1
      invariant HeapButUp(h', pos)
      invariant multiset(h') == multiset(h) + multiset{x}
    {
      SiftUpStep(h', pos);
      SwapPermutes(h', pos, Parent(pos));
      h' := Swap(h', pos, Parent(pos));
      pos := Parent(pos);
    }
  }

  /** A heap except that `pos` may be above its children; its children are above its parent. */
  ghost predicate HeapButDown(h: seq<Entry>, pos: nat) {
    && (forall i :: 0 < i < |h| && Parent(i) != pos ==> AtMost(h[Parent(i)], h[i]))
    && (forall i :: 0 < i < |h| && Parent(i) == pos && pos > 0 ==> pos < |h| && AtMost(h[Parent(pos)], h[i]))
  }

  predicate LeastChild(h: seq<Entry>, pos: nat, child: nat) {
    && child < |h| && child > 0 && Parent(child) == pos
    && (child == 2 * pos + 1 ==> 2 * pos + 2 < |h| ==> AtMost(h[child], h[2 * pos + 2]))
    && (child == 2 * pos + 2 ==> AtMost(h[child], h[2 * pos + 1]))
  }

  lemma SiftDownStep(h: seq<Entry>, pos: nat, child: nat)
    requires pos < |h| && HeapButDown(h, pos) && LeastChild(h, pos, child) && Less(h[child], h[pos])
    ensures HeapButDown(Swap(h, pos, child), child)
  {
    var h' := Swap(h, pos, child);
    AtMostTotal(h[child], h[pos]);
    forall i | 0 < i < |h| && Parent(i) != child ensures AtMost(h'[Parent(i)], h'[i]) {
      if Parent(i) == pos {
        assert i == 2 * pos + 1 || i == 2 * pos + 2;
      }
    }
  }

  method Pop(h: seq<Entry>) returns (least: Entry, h': seq<Entry>)
    requires IsHeap(h) && h != []
    ensures least == h[0]
    ensures IsHeap(h') && multiset(h) == multiset(h') + multiset{least}
    ensures |h'| == |h| - 1
  {
    least := h[0];
    var last := |h| - 1;
    if last == 0 {
      assert h == [least];
      return least, [];
    }
    LastToRoot(h);
    h' := h[..last][0 := h[last]];
    var pos: nat := 0;
    while 2 * pos + 1 < |h'|
      invariant pos < |h'| == last && HeapButDown(h', pos)
      invariant multiset(h) == multiset(h') + multiset{least}
      decreases |h'| - pos
    {
      var child: nat := 2 * pos + 1;
      if child + 1 < |h'| && Less(h'[child + 1], h'[child]) {
        child := child + 1;
      }
      AtMostTotal(h'[2 * pos + 1], h'[child]);
      if AtMost(h'[pos], h'[child]) {
        SettledHere(h', pos, child);
        return;
      }
      SiftDownStep(h', pos, child);
      SwapPermutes(h', pos, child);
      h' := Swap(h', pos, child);
      pos := child;
    }
  }

  lemma LastToRoot(h: seq<Entry>)
    requires |h| > 1 && IsHeap(h)
    ensures var h' := h[..|h| - 1][0 := h[|h| - 1]];
            HeapButDown(h', 0) && multiset(h) == multiset(h') + multiset{h[0]}
  {
    var n := |h| - 1;
    var middle := h[1..n];
    assert h == [h[0]] + middle + [h[n]];
    assert h[..n][0 := h[n]] == [h[n]] + middle;
  }

  lemma SettledHere(h: seq<Entry>, pos: nat, child: nat)
    requires pos < |h| && HeapButDown(h, pos) && LeastChild(h, pos, child) && AtMost(h[pos], h[child])
    ensures IsHeap(h)
  {
    forall i | 0 < i < |h| && Parent(i) == pos ensures AtMost(h[pos], h[i]) {
      assert i == 2 * pos + 1 || i == 2 * pos + 2;
      if i != child {
        AtMostTransitive(h[pos], h[child], h[i]);
      }
    }
  }

  method Heapify(entries: seq<Entry>) returns (h: seq<Entry>)
    ensures IsHeap(h) && multiset(h) == multiset(entries) && |h| == |entries|
  {
    h := [];
    for i := 0 to |entries|
      invariant IsHeap(h) && multiset(h) == multiset(entries[..i]) && |h| == i
    {
      assert entries[..i + 1] == entries[..i] + [entries[i]];
      h := Push(h, entries[i]);
    }
    assert entries[..|entries|] == entries;
  }
}
