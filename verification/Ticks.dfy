// Logical ticks: how the timing wheel turns a timestamp into a tick number.
// Timestamps are exact reals; rounding of machine floats is not modelled.
module Ticks {

  /** The tick that timestamp `t` falls in, counted from `origin` in steps of `width`. */
  function TickOf(origin: real, width: real, t: real): (n: int)
    requires width > 0.0
  {
    ((t - origin) / width).Floor
  }

  /** The start of tick `n`. */
  function TickStart(origin: real, width: real, n: int): real {
    origin + n as real * width
  }

  lemma ScaleLess(a: real, b: real, w: real)
    requires w > 0.0
    ensures a < b <==> a * w < b * w
  {
    if a < b {
      assert (b - a) * w > 0.0;
    } else {
      assert (a - b) * w >= 0.0;
    }
  }

  /** A timestamp lies in its tick: at or after the start of it, before the start of the next. */
  lemma TickBounds(origin: real, width: real, t: real)
    requires width > 0.0
    ensures TickStart(origin, width, TickOf(origin, width, t)) <= t
    ensures t < TickStart(origin, width, TickOf(origin, width, t) + 1)
  {
    var q := (t - origin) / width;
    var n := q.Floor;
    var next := (n + 1) as real;
    assert n as real <= q < next;
    assert q * width == t - origin;
    ScaleLess(q, next, width);
    ScaleLess(q, n as real, width);
    assert q * width < next * width;
    assert t < origin + next * width;
  }

  /** Tick `n` is the only tick whose bounds enclose `t`. */
  lemma TickIs(origin: real, width: real, t: real, n: int)
    requires width > 0.0
    requires TickStart(origin, width, n) <= t < TickStart(origin, width, n + 1)
    ensures TickOf(origin, width, t) == n
  {
    var m := TickOf(origin, width, t);
    TickBounds(origin, width, t);
    StartsInOrder(origin, width, n, m + 1);
    StartsInOrder(origin, width, m, n + 1);
  }

  lemma StartsInOrder(origin: real, width: real, a: int, b: int)
    requires width > 0.0
    ensures TickStart(origin, width, a) < TickStart(origin, width, b) <==> a < b
  {
    ScaleLess(a as real, b as real, width);
  }

  lemma TickOfStart(origin: real, width: real, n: int)
    requires width > 0.0
    ensures TickOf(origin, width, TickStart(origin, width, n)) == n
  {
    ScaleLess(n as real, (n + 1) as real, width);
    TickIs(origin, width, TickStart(origin, width, n), n);
  }

  /** Tick numbers and starting times are the same order. */
  lemma TickAtLeast(origin: real, width: real, t: real, n: int)
    requires width > 0.0
    ensures n <= TickOf(origin, width, t) <==> TickStart(origin, width, n) <= t
  {
    var m := TickOf(origin, width, t);
    TickBounds(origin, width, t);
    if n <= m {
      ScaleLess(m as real, n as real, width);
    } else {
      ScaleLess(n as real, (m + 1) as real, width);
    }
  }

  /** A later timestamp, or an earlier origin, never gives an earlier tick. */
  lemma TickMonotone(origin: real, origin': real, width: real, t: real, t': real)
    requires width > 0.0 && origin' <= origin && t <= t'
    ensures TickOf(origin, width, t) <= TickOf(origin', width, t')
  {
    TickBounds(origin, width, t);
    TickAtLeast(origin', width, t', TickOf(origin, width, t));
  }
}
