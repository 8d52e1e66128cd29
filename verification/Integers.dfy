// Facts about remainders that the solver does not find by itself.
module Integers {

  lemma ScaleInt(a: int, b: int, n: nat)
    ensures a <= b ==> a * n <= b * n
  {
    if a <= b {
      assert 0 <= (b - a) * n;
    }
  }

  /** The remainder is the only one in its range. */
  lemma RemainderIs(x: int, q: int, r: int, n: nat)
    requires n > 0 && x == q * n + r && 0 <= r < n
    ensures x % n == r
  {
    var d := x / n - q;
    assert d * n == r - x % n;
    ScaleInt(1, d, n);
    ScaleInt(d, -1, n);
  }

  lemma NextRemainder(m: nat, n: nat)
    requires n > 1
    ensures (m + 1) % n == if m % n + 1 >= n then 0 else m % n + 1
  {
    var q, r := m / n, m % n;
    assert m == q * n + r;
    if r + 1 >= n {
      assert m + 1 == (q + 1) * n + 0;
      RemainderIs(m + 1, q + 1, 0, n);
    } else {
      RemainderIs(m + 1, q, r + 1, n);
    }
  }

  lemma SameRemainder(a: int, b: int, n: nat)
    requires n > 0
    ensures a % n == b % n <==> (a - b) % n == 0
  {
    var qa, qb, d := a / n, b / n, (a - b) / n;
    assert a == qa * n + a % n && b == qb * n + b % n && a - b == d * n + (a - b) % n;
    var e := qa - qb - d;
    assert e * n == (a - b) % n - (a % n - b % n);
    ScaleInt(1, e, n);
    ScaleInt(e, -1, n);
  }
}
