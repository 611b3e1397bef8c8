/** Bit-level specification of the FFT's index arithmetic: powers of two,
    single bits, trailing-zero count and the N-bit reversal that the
    radix-2 shuffle is built on. Unsigned shifts and masks are written as
    multiplication, division and remainder by two on unbounded naturals. */
module Bits {

  /** 2^n. */
  function Pow2(n: nat): (r: nat)
    ensures r >= 1
  {
    if n == 0 then 1 else 2 * Pow2(n - 1)
  }

  /** Bit k of x, that is (x >> k) & 1. */
  function Bit(x: nat, k: nat): (b: nat)
    ensures b < 2
  {
    if k == 0 then x % 2 else Bit(x / 2, k - 1)
  }

  /** Reversal of the low n bits of x: bit k of the result is bit n-1-k of x.
      Built the way the shifting loop builds it: the bit taken last from x
      lands in bit 0. */
  function Reverse(x: nat, n: nat): (r: nat)
    ensures r < Pow2(n)
  {
    if n == 0 then 0 else 2 * Reverse(x, n - 1) + Bit(x, n - 1)
  }

  /** Count of trailing zero bits of a non-zero x (the compiler's ctz builtin). */
  function Ctz(x: nat): (r: nat)
    requires x > 0
    ensures Pow2(r) <= x
    ensures x % Pow2(r) == 0
    ensures (x / Pow2(r)) % 2 == 1
  {
    if x % 2 == 1 then 0 else
      var r := 1 + Ctz(x / 2);
      DivisibleDouble(x / 2, Pow2(r - 1));
      HalveQuotient(x, Pow2(r - 1));
      r
  }

  /** Dividing by 2p is halving and then dividing by p. */
  lemma HalveQuotient(x: nat, p: nat)
    requires p >= 1
    ensures x / (2 * p) == (x / 2) / p
  {
    var q, m := (x / 2) / p, (x / 2) % p;
    assert x == q * (2 * p) + (2 * m + x % 2);
    DivModUnique(x, 2 * p, q, 2 * m + x % 2);
  }

  /** x is 2^k for some k: the test `x != 0 && (x & (x - 1)) == 0`. */
  predicate IsPowerOfTwo(x: nat)
  {
    x > 0 && Pow2(Ctz(x)) == x
  }

  lemma DivisibleDouble(y: nat, p: nat)
    requires p >= 1 && y % p == 0
    ensures (2 * y) % (2 * p) == 0
  {
    var q := y / p;
    assert y == q * p;
    DivModUnique(2 * y, 2 * p, q, 0);
  }

  /** Euclidean division is unique: the workhorse for every index-splitting proof. */
  lemma DivModUnique(x: int, d: int, q: int, m: int)
    requires d > 0 && 0 <= m < d && x == q * d + m
    ensures x / d == q && x % d == m
  {
    var q0, m0 := x / d, x % d;
    assert x == q0 * d + m0;
    if q0 > q {
      MulMonotone(q0 - q, 1, d);
    } else if q0 < q {
      MulMonotone(q - q0, 1, d);
    }
  }

  lemma MulMonotone(a: int, b: int, d: int)
    requires a >= b && d >= 0
    ensures a * d >= b * d
  {
  }

  /** The bit characterisation of Reverse: bit k of the result is bit n-1-k of x. */
  lemma {:induction false} BitOfReverse(x: nat, n: nat, k: nat)
    requires k < n
    ensures Bit(Reverse(x, n), k) == Bit(x, n - 1 - k)
  {
    var y := Reverse(x, n - 1);
    assert Reverse(x, n) == 2 * y + Bit(x, n - 1);
    if k > 0 {
      assert (2 * y + Bit(x, n - 1)) / 2 == y;
      BitOfReverse(x, n - 1, k - 1);
    }
  }

  /** Two numbers below 2^n that agree on their low n bits are equal. */
  lemma {:induction false} EqualByBits(a: nat, b: nat, n: nat)
    requires a < Pow2(n) && b < Pow2(n)
    requires forall k :: 0 <= k < n ==> Bit(a, k) == Bit(b, k)
    ensures a == b
  {
    if n > 0 {
      assert Bit(a, 0) == Bit(b, 0);
      forall k | 0 <= k < n - 1 ensures Bit(a / 2, k) == Bit(b / 2, k) {
        assert Bit(a, k + 1) == Bit(b, k + 1);
      }
      EqualByBits(a / 2, b / 2, n - 1);
    }
  }

  /** Bit reversal is an involution on [0, 2^n). */
  lemma ReverseInvolution(x: nat, n: nat)
    requires x < Pow2(n)
    ensures Reverse(Reverse(x, n), n) == x
  {
    var r := Reverse(x, n);
    forall k | 0 <= k < n ensures Bit(Reverse(r, n), k) == Bit(x, k) {
      BitOfReverse(r, n, k);
      BitOfReverse(x, n, n - 1 - k);
    }
    EqualByBits(Reverse(r, n), x, n);
  }

  /** Ctz recovers the exponent of a power of two. */
  lemma {:induction false} CtzOfPow2(n: nat)
    ensures Ctz(Pow2(n)) == n
  {
    if n > 0 {
      assert Pow2(n) % 2 == 0 && Pow2(n) / 2 == Pow2(n - 1);
      CtzOfPow2(n - 1);
    }
  }

  /** 2^p divides 2^n when p <= n. */
  lemma {:induction false} Pow2Divides(p: nat, n: nat)
    requires p <= n
    ensures Pow2(n) % Pow2(p) == 0
    ensures Pow2(n) == Pow2(n - p) * Pow2(p)
  {
    if p < n {
      Pow2Divides(p, n - 1);
      assert Pow2(n) == 2 * Pow2(n - 1);
    }
    DivModUnique(Pow2(n), Pow2(p), Pow2(n - p), 0);
  }

  /** Below 2^(n+1), bit n is set exactly when x >= 2^n. */
  lemma {:induction false} TopBit(x: nat, n: nat)
    requires x < Pow2(n + 1)
    ensures Bit(x, n) == 1 <==> x >= Pow2(n)
  {
    if n > 0 {
      TopBit(x / 2, n - 1);
    }
  }
}
