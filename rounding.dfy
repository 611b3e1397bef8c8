/** roundf from the C library, in exact arithmetic: to the nearest integer,
    halfway cases away from zero. */
module Rounding {

  function Round(x: real): int
  {
    if x >= 0.0 then (x + 0.5).Floor else -((-x + 0.5).Floor)
  }

  /** Rounding lands within one half of its argument. */
  lemma RoundNearest(x: real)
    ensures x - 0.5 <= Round(x) as real <= x + 0.5
  {
  }

  /** Integers round to themselves. */
  lemma RoundOfInteger(n: int)
    ensures Round(n as real) == n
  {
    if n >= 0 {
      assert (n as real + 0.5).Floor == n;
    } else {
      assert (-(n as real) + 0.5).Floor == -n;
    }
  }

  /** Rounding never reverses an order. */
  lemma RoundMonotone(x: real, y: real)
    requires x <= y
    ensures Round(x) <= Round(y)
  {
    if x >= 0.0 {
      FloorMonotone(x + 0.5, y + 0.5);
    } else if y < 0.0 {
      FloorMonotone(-y + 0.5, -x + 0.5);
    } else {
      assert Round(x) <= 0 by {
        assert -x + 0.5 > 0.0;
      }
    }
  }

  lemma FloorMonotone(x: real, y: real)
    requires x <= y
    ensures x.Floor <= y.Floor
  {
  }

  /** A value in [lo, hi] with integer ends rounds into [lo, hi]. */
  lemma RoundWithin(x: real, lo: int, hi: int)
    requires lo as real <= x <= hi as real
    ensures lo <= Round(x) <= hi
  {
    RoundMonotone(lo as real, x);
    RoundMonotone(x, hi as real);
    RoundOfInteger(lo);
    RoundOfInteger(hi);
  }
}
