/** The in-place radix-2 decimation-in-time FFT of fft.c, over exact reals.
    The twiddle factors (cos, sin) are not computed here: the caller supplies
    them as a table indexed by (sub_length, step), standing for the sincosf
    call the source makes once per step. */
module Fft {
  import opened Bits

  /** The (cos, sin) pair of one twiddle factor e^(-2*pi*i*step/sub_length). */
  datatype Twiddle = Twiddle(cos: real, sin: real)

  /** Twiddle factors by (sub_length, step). */
  type TwiddleTable = (nat, nat) -> Twiddle

  /** The transform's working state: the real and the imaginary array. */
  datatype Signal = Signal(re: seq<real>, im: seq<real>)

  predicate Paired(x: Signal)
  {
    |x.re| == |x.im|
  }

  /* ---------------------------------------------------------------------
     Bit reversal and the shuffle
     --------------------------------------------------------------------- */

  /** bit_reverse: the shifting loop. For N = 0 the loop does not run and
      the result is input & 1; otherwise it is the N-bit reversal. */
  method BitReverse(input: nat, N: nat) returns (result: nat)
    ensures result == if N == 0 then input % 2 else Reverse(input, N)
  {
    var x := input;
    result := x % 2;
    var n := N;
    while n > 1
      invariant N == 0 ==> n == 0 && result == input % 2
      invariant N >= 1 ==> 1 <= n <= N && result == Reverse(input, N - n + 1)
      invariant N >= 1 ==> forall k: nat :: Bit(x, k) == Bit(input, k + (N - n))
    {
      ghost var m := N - n + 1;
      ghost var x0 := x;
      n := n - 1;
      result := 2 * result;
      x := x / 2;
      forall k: nat ensures Bit(x, k) == Bit(input, k + (N - n)) {
        assert Bit(x0, k + 1) == Bit(x, k);
      }
      assert Bit(x, 0) == Bit(input, m);
      // result is even after the shift, so `result |= x & 1` adds the bit
      result := result + x % 2;
    }
  }

  /** The bit-reversal permutation of 2^N entries: entry i comes from entry
      Reverse(i, N). */
  function Shuffled<T>(s: seq<T>, N: nat): (r: seq<T>)
    requires |s| == Pow2(N)
    ensures |r| == |s|
  {
    seq(|s|, i requires 0 <= i < |s| => s[Reverse(i, N)])
  }

  /** bit_reverse_shuffle: swap each pair (i, Reverse(i)) once, when i is the
      smaller of the two. */
  method BitReverseShuffle(samples: array<real>, N: nat)
    requires samples.Length == Pow2(N)
    modifies samples
    ensures samples[..] == Shuffled(old(samples[..]), N)
    ensures multiset(samples[..]) == multiset(old(samples[..]))
  {
    var count := Pow2(N);
    forall k | 0 <= k < count ensures Reverse(Reverse(k, N), N) == k {
      ReverseInvolution(k, N);
    }
    var i := 0;
    while i < count
      invariant 0 <= i <= count
      invariant forall k :: 0 <= k < count ==>
        samples[k] == if k < i || Reverse(k, N) < i then old(samples[Reverse(k, N)]) else old(samples[k])
      invariant multiset(samples[..]) == multiset(old(samples[..]))
    {
      var j := BitReverse(i, N);
      if i < j {
        samples[i], samples[j] := samples[j], samples[i];
      }
      i := i + 1;
    }
  }

  /* ---------------------------------------------------------------------
     One merge pass, in closed form
     --------------------------------------------------------------------- */

  /** A pass merging sub-DFTs into DFTs of length L over n entries. */
  predicate PassShape(n: nat, L: nat)
  {
    L >= 2 && L % 2 == 0 && n % L == 0
  }

  /** The step (offset within the lower half of its block) of the butterfly
      that touches index i. */
  function StepOf(i: nat, L: nat): (s: nat)
    requires L >= 2 && L % 2 == 0
    ensures s < L / 2
  {
    var r := i % L;
    if r < L / 2 then r else r - L / 2
  }

  /** T·B, the twiddled second operand of a butterfly. */
  function Twiddled(bRe: real, bIm: real, t: Twiddle): (real, real)
  {
    (bRe * t.cos - bIm * t.sin, bIm * t.cos + bRe * t.sin)
  }

  /** One butterfly on values: A + T·B at index a, A − T·B at index b. */
  function Merged(x: Signal, a: nat, b: nat, t: Twiddle): (y: Signal)
    requires Paired(x) && a < b < |x.re|
    ensures Paired(y) && |y.re| == |x.re|
  {
    var tb := Twiddled(x.re[b], x.im[b], t);
    Signal(x.re[a := x.re[a] + tb.0][b := x.re[a] - tb.0],
           x.im[a := x.im[a] + tb.1][b := x.im[a] - tb.1])
  }

  /** The value a pass leaves at index i: A + T·B at the lower index of its
      butterfly, A − T·B at the upper one. */
  function PassAt(x: Signal, L: nat, tw: TwiddleTable, i: nat): (real, real)
    requires Paired(x) && PassShape(|x.re|, L) && i < |x.re|
  {
    BlockBound(i, L, |x.re|);
    var h := L / 2;
    assert L == 2 * h;
    var a := if i % L < h then i else i - h;
    var tb := Twiddled(x.re[a + h], x.im[a + h], tw(L, StepOf(i, L)));
    if i % L < h then (x.re[a] + tb.0, x.im[a] + tb.1) else (x.re[a] - tb.0, x.im[a] - tb.1)
  }

  /** One merge pass with sub_length L. */
  function Pass(x: Signal, L: nat, tw: TwiddleTable): (y: Signal)
    requires Paired(x) && PassShape(|x.re|, L)
    ensures Paired(y) && |y.re| == |x.re|
  {
    Signal(seq(|x.re|, i requires 0 <= i < |x.re| => PassAt(x, L, tw, i).0),
           seq(|x.re|, i requires 0 <= i < |x.re| => PassAt(x, L, tw, i).1))
  }

  /** The passes with sub_length 2^p, 2^(p+1), ..., 2^N, in that order. */
  function Passes(x: Signal, p: nat, N: nat, tw: TwiddleTable): (y: Signal)
    requires 1 <= p && Paired(x) && |x.re| == Pow2(N)
    ensures Paired(y) && |y.re| == Pow2(N)
    decreases N + 1 - p
  {
    if p > N then x else
      PassShapeOfPow2(p, N);
      Passes(Pass(x, Pow2(p), tw), p + 1, N, tw)
  }

  /** What fft computes for 2^N entries: shuffle both arrays, then run the
      passes for sub_length 2, 4, ..., 2^N. */
  function Transform(x: Signal, N: nat, tw: TwiddleTable): (y: Signal)
    requires Paired(x) && |x.re| == Pow2(N)
    ensures Paired(y) && |y.re| == |x.re|
  {
    Passes(Signal(Shuffled(x.re, N), Shuffled(x.im, N)), 1, N, tw)
  }

  /* ---------------------------------------------------------------------
     The loops of fft
     --------------------------------------------------------------------- */

  /** The pass is done for every index whose step is below s, and for step s
      itself below base; every other index still holds the pass's input. */
  ghost predicate PassProgress(re: seq<real>, im: seq<real>, pre: Signal, L: nat, tw: TwiddleTable, s: nat, base: nat)
    requires Paired(pre) && PassShape(|pre.re|, L) && |re| == |im| == |pre.re|
  {
    forall i :: 0 <= i < |re| ==>
      (re[i], im[i]) == if StepOf(i, L) < s || (StepOf(i, L) == s && i < base)
                        then PassAt(pre, L, tw, i) else (pre.re[i], pre.im[i])
  }

  /** The body of the innermost loop: load A and B, then store A + T·B at A
      and A − T·B at B. Nothing else changes. */
  method Butterfly(re: array<real>, im: array<real>, aIndex: nat, bIndex: nat, twiddle: Twiddle)
    requires re != im && re.Length == im.Length && aIndex < bIndex < re.Length
    modifies re, im
    ensures Signal(re[..], im[..]) == Merged(old(Signal(re[..], im[..])), aIndex, bIndex, twiddle)
  {
    var aRe, aIm := re[aIndex], im[aIndex];
    var bRe, bIm := re[bIndex], im[bIndex];
    var tb := Twiddled(bRe, bIm, twiddle);
    re[aIndex] := aRe + tb.0;
    im[aIndex] := aIm + tb.1;
    re[bIndex] := aRe - tb.0;
    im[bIndex] := aIm - tb.1;
  }

  /** The innermost loop of fft: for one step, merge [base+step] with
      [base+step+L/2] in every block. */
  method MergeStep(re: array<real>, im: array<real>, L: nat, step: nat, twiddle: Twiddle,
                   ghost tw: TwiddleTable, ghost pre: Signal)
    requires re != im && re.Length == im.Length == |pre.re| == |pre.im|
    requires PassShape(re.Length, L) && step < L / 2 && twiddle == tw(L, step)
    requires PassProgress(re[..], im[..], pre, L, tw, step, 0)
    modifies re, im
    ensures PassProgress(re[..], im[..], pre, L, tw, step + 1, 0)
  {
    var length := re.Length;
    var h := L / 2;
    ghost var blocks := length / L;
    assert length == blocks * L;
    var base := 0;
    ghost var k := 0;
    while base < length
      invariant base == k * L && k <= blocks
      invariant PassProgress(re[..], im[..], pre, L, tw, step, base)
    {
      if k >= blocks { MulMonotone(k, blocks, L); }
      MulMonotone(blocks, k + 1, L);
      assert base + L == (k + 1) * L <= length;
      ButterflySites(k, L, step, length);
      ghost var cur := Signal(re[..], im[..]);
      Butterfly(re, im, base + step, base + step + h, twiddle);
      ProgressAdvance(cur, Signal(re[..], im[..]), pre, L, tw, step, k, base);
      base := base + L;
      k := k + 1;
    }
    ProgressNextStep(re[..], im[..], pre, L, tw, step);
  }

  /** The middle loop of fft: one merge pass, step by step, reusing each
      twiddle factor across all blocks. */
  method MergePass(re: array<real>, im: array<real>, L: nat, tw: TwiddleTable)
    requires re != im && re.Length == im.Length && PassShape(re.Length, L)
    modifies re, im
    ensures Signal(re[..], im[..]) == Pass(old(Signal(re[..], im[..])), L, tw)
  {
    ghost var pre := Signal(re[..], im[..]);
    var step := 0;
    while step < L / 2
      invariant step <= L / 2
      invariant PassProgress(re[..], im[..], pre, L, tw, step, 0)
    {
      var twiddle := tw(L, step);
      MergeStep(re, im, L, step, twiddle, tw, pre);
      step := step + 1;
    }
    assert re[..] == Pass(pre, L, tw).re;
    assert im[..] == Pass(pre, L, tw).im;
  }

  /** fft: in-place transform of 2^N entries; the length must be a non-zero
      power of two and N is its count of trailing zeros. */
  method Transformer(re: array<real>, im: array<real>, tw: TwiddleTable)
    requires re != im && re.Length == im.Length && IsPowerOfTwo(re.Length)
    modifies re, im
    ensures Signal(re[..], im[..]) == Transform(old(Signal(re[..], im[..])), Ctz(re.Length), tw)
  {
    var N := Ctz(re.Length);
    BitReverseShuffle(re, N);
    BitReverseShuffle(im, N);
    MergePasses(re, im, N, tw);
  }

  /** The outer loop of fft: sub_length doubles from 2 up to the length,
      one merge pass each. */
  method MergePasses(re: array<real>, im: array<real>, N: nat, tw: TwiddleTable)
    requires re != im && re.Length == im.Length == Pow2(N)
    modifies re, im
    ensures Signal(re[..], im[..]) == Passes(old(Signal(re[..], im[..])), 1, N, tw)
  {
    var length := re.Length;
    var subLength := 2;
    ghost var p := 1;
    while subLength <= length
      invariant subLength == Pow2(p) && 1 <= p <= N + 1
      invariant Paired(Signal(re[..], im[..]))
      invariant Passes(Signal(re[..], im[..]), p, N, tw) == Passes(old(Signal(re[..], im[..])), 1, N, tw)
    {
      if p > N { Pow2Monotone(N, p); }
      PassShapeOfPow2(p, N);
      MergePass(re, im, subLength, tw);
      subLength := subLength * 2;
      p := p + 1;
    }
    if p < N { Pow2Monotone(p, N); }
  }

  /* ---------------------------------------------------------------------
     Index lemmas
     --------------------------------------------------------------------- */

  /** One butterfly of the innermost loop advances the pass by one block:
      it writes exactly the two indices of block k whose step is s. */
  lemma ProgressAdvance(cur: Signal, next: Signal, pre: Signal, L: nat, tw: TwiddleTable, s: nat, k: nat, base: nat)
    requires Paired(pre) && PassShape(|pre.re|, L) && Paired(cur) && |cur.re| == |pre.re|
    requires s < L / 2 && base == k * L && base + L <= |cur.re|
    requires PassProgress(cur.re, cur.im, pre, L, tw, s, base)
    requires next == Merged(cur, base + s, base + s + L / 2, tw(L, s))
    ensures PassProgress(next.re, next.im, pre, L, tw, s, base + L)
  {
    var n, h := |cur.re|, L / 2;
    var a, b := base + s, base + s + h;
    ButterflySites(k, L, s, n);
    assert (cur.re[a], cur.im[a]) == (pre.re[a], pre.im[a]);
    assert (cur.re[b], cur.im[b]) == (pre.re[b], pre.im[b]);
    forall i | 0 <= i < n
      ensures (next.re[i], next.im[i]) == if StepOf(i, L) < s || (StepOf(i, L) == s && i < base + L)
                                          then PassAt(pre, L, tw, i) else (pre.re[i], pre.im[i])
    {
      if i != a && i != b && base <= i < base + L {
        DivModUnique(i, L, k, i - base);
      }
    }
  }

  /** Once every block has been merged for step s, the pass is done for all
      steps up to s. */
  lemma ProgressNextStep(re: seq<real>, im: seq<real>, pre: Signal, L: nat, tw: TwiddleTable, s: nat)
    requires Paired(pre) && PassShape(|pre.re|, L) && |re| == |im| == |pre.re|
    requires PassProgress(re, im, pre, L, tw, s, |re|)
    ensures PassProgress(re, im, pre, L, tw, s + 1, 0)
  {
  }

  /** Sub-length 2^p, for 1 <= p <= N, is a valid pass over 2^N entries. */
  lemma PassShapeOfPow2(p: nat, N: nat)
    requires 1 <= p <= N
    ensures PassShape(Pow2(N), Pow2(p))
  {
    Pow2Divides(p, N);
    assert Pow2(p) == 2 * Pow2(p - 1);
  }

  /** The block holding index i lies wholly inside the array. */
  lemma BlockBound(i: nat, L: nat, n: nat)
    requires L >= 1 && n % L == 0 && i < n
    ensures i % L <= i && i - i % L + L <= n
  {
    var k, q := i / L, n / L;
    assert n == q * L;
    assert i == k * L + i % L;
    MulMonotone(k, 0, L);
    if k >= q { MulMonotone(k, q, L); }
    MulMonotone(q, k + 1, L);
  }

  /** Butterfly (block k, step s) of a pass: its two indices lie in block k,
      are sub_length/2 apart, and are those whose step is s. */
  lemma ButterflySites(k: nat, L: nat, s: nat, n: nat)
    requires PassShape(n, L) && s < L / 2 && k * L + L <= n
    ensures k * L + s < k * L + s + L / 2 < n
    ensures (k * L + s) % L == s && StepOf(k * L + s, L) == s
    ensures (k * L + s + L / 2) % L == s + L / 2 && StepOf(k * L + s + L / 2, L) == s
  {
    DivModUnique(k * L + s, L, k, s);
    DivModUnique(k * L + s + L / 2, L, k, s + L / 2);
  }

  /* ---------------------------------------------------------------------
     Properties of the transform
     --------------------------------------------------------------------- */

  /** The shuffle undoes itself: running bit_reverse_shuffle twice leaves the
      array as it was. */
  lemma ShuffledTwice<T>(s: seq<T>, N: nat)
    requires |s| == Pow2(N)
    ensures Shuffled(Shuffled(s, N), N) == s
  {
    forall i | 0 <= i < |s| ensures Shuffled(Shuffled(s, N), N)[i] == s[i] {
      ReverseInvolution(i, N);
    }
  }

  /** A transform of one entry is the identity: no swap and no pass. */
  lemma TransformOfOne(x: Signal, tw: TwiddleTable)
    requires Paired(x) && |x.re| == 1
    ensures Transform(x, 0, tw) == x
  {
    assert Shuffled(x.re, 0) == x.re;
    assert Shuffled(x.im, 0) == x.im;
  }

  function Zeros(n: nat): (z: seq<real>)
  {
    seq(n, i => 0.0)
  }

  /** All-zero input stays all-zero whatever the twiddle factors. */
  lemma TransformOfZero(N: nat, tw: TwiddleTable)
    ensures Transform(Signal(Zeros(Pow2(N)), Zeros(Pow2(N))), N, tw) == Signal(Zeros(Pow2(N)), Zeros(Pow2(N)))
  {
    var z := Zeros(Pow2(N));
    assert Shuffled(z, N) == z;
    PassesOfZero(1, N, tw);
  }

  lemma {:induction false} PassesOfZero(p: nat, N: nat, tw: TwiddleTable)
    requires 1 <= p
    ensures Passes(Signal(Zeros(Pow2(N)), Zeros(Pow2(N))), p, N, tw) == Signal(Zeros(Pow2(N)), Zeros(Pow2(N)))
    decreases N + 1 - p
  {
    if p <= N {
      Pow2Divides(p, N);
      PassOfZero(Pow2(N), Pow2(p), tw);
      PassesOfZero(p + 1, N, tw);
    }
  }

  lemma PassOfZero(n: nat, L: nat, tw: TwiddleTable)
    requires PassShape(n, L)
    ensures Pass(Signal(Zeros(n), Zeros(n)), L, tw) == Signal(Zeros(n), Zeros(n))
  {
    var z := Signal(Zeros(n), Zeros(n));
    var y := Pass(z, L, tw);
    forall i | 0 <= i < n ensures y.re[i] == 0.0 && y.im[i] == 0.0 {
      BlockBound(i, L, n);
      var h, r := L / 2, i % L;
      assert L == 2 * h && r <= i && i - r + L <= n;
      var a := if r < h then i else i - h;
      assert 0 <= a && a + h < n;
      assert z.re[a] == z.im[a] == z.re[a + h] == z.im[a + h] == 0.0;
    }
    assert y.re == z.re && y.im == z.im;
  }

  /** Butterfly algebra: with A' = A + T·B and B' = A − T·B, A' + B' = 2A and
      A' − B' = 2·T·B, for the real and the imaginary parts. */
  lemma ButterflyAlgebra(x: Signal, L: nat, tw: TwiddleTable, k: nat, s: nat)
    requires Paired(x) && PassShape(|x.re|, L) && s < L / 2 && k * L + L <= |x.re|
    ensures var a, b, y := k * L + s, k * L + s + L / 2, Pass(x, L, tw);
      var tb := Twiddled(x.re[b], x.im[b], tw(L, s));
      && y.re[a] + y.re[b] == 2.0 * x.re[a] && y.im[a] + y.im[b] == 2.0 * x.im[a]
      && y.re[a] - y.re[b] == 2.0 * tb.0 && y.im[a] - y.im[b] == 2.0 * tb.1
  {
    ButterflySites(k, L, s, |x.re|);
  }

  /** Within one pass the butterflies partition the indices: every index is
      the lower or the upper index of the butterfly (i / L, StepOf(i, L)) ... */
  lemma ButterflyCover(i: nat, L: nat, n: nat)
    requires PassShape(n, L) && i < n
    ensures (i / L) * L + L <= n
    ensures i == (i / L) * L + StepOf(i, L) || i == (i / L) * L + StepOf(i, L) + L / 2
  {
    BlockBound(i, L, n);
  }

  /** ... and two different butterflies share no index. */
  lemma ButterfliesDisjoint(L: nat, k: nat, s: nat, k': nat, s': nat)
    requires L >= 2 && L % 2 == 0 && s < L / 2 && s' < L / 2
    requires (k, s) != (k', s')
    ensures k * L + s != k' * L + s' && k * L + s != k' * L + s' + L / 2
    ensures k * L + s + L / 2 != k' * L + s' && k * L + s + L / 2 != k' * L + s' + L / 2
  {
    var h := L / 2;
    DivModUnique(k * L + s, L, k, s);
    DivModUnique(k * L + s + h, L, k, s + h);
    DivModUnique(k' * L + s', L, k', s');
    DivModUnique(k' * L + s' + h, L, k', s' + h);
  }

  /* The comment in fft describes the natural order, blocks outer and steps
     inner; the code inverts the two loops to reuse each twiddle factor. The
     functions below run the natural order, and BlockOrderIsPass shows it
     computes the same pass as the inverted loops. */

  /** One butterfly of a pass, on values: block k, step s. */
  function ButterflyAt(x: Signal, L: nat, tw: TwiddleTable, k: nat, s: nat): (y: Signal)
    requires Paired(x) && L >= 2 && L % 2 == 0 && s < L / 2 && k * L + L <= |x.re|
    ensures Paired(y) && |y.re| == |x.re|
  {
    Merged(x, k * L + s, k * L + s + L / 2, tw(L, s))
  }

  /** The natural order: for each block k from the given one, for each step s. */
  function BlockOrder(x: Signal, L: nat, tw: TwiddleTable, k: nat, s: nat): (y: Signal)
    requires Paired(x) && PassShape(|x.re|, L) && s <= L / 2
    ensures Paired(y) && |y.re| == |x.re|
    decreases |x.re| - k * L, L / 2 - s
  {
    if k * L >= |x.re| then x
    else
      BlockBound(k * L, L, |x.re|);
      DivModUnique(k * L, L, k, 0);
      if s == L / 2 then BlockOrder(x, L, tw, k + 1, 0)
      else BlockOrder(ButterflyAt(x, L, tw, k, s), L, tw, k, s + 1)
  }

  /** The natural order is done for blocks below k and for block k below step s. */
  ghost predicate BlockProgress(y: Signal, pre: Signal, L: nat, tw: TwiddleTable, k: nat, s: nat)
    requires Paired(pre) && PassShape(|pre.re|, L) && Paired(y) && |y.re| == |pre.re|
  {
    forall i :: 0 <= i < |y.re| ==>
      (y.re[i], y.im[i]) == if i / L < k || (i / L == k && StepOf(i, L) < s)
                            then PassAt(pre, L, tw, i) else (pre.re[i], pre.im[i])
  }

  lemma {:induction false} BlockOrderFrom(y: Signal, pre: Signal, L: nat, tw: TwiddleTable, k: nat, s: nat)
    requires Paired(pre) && PassShape(|pre.re|, L) && Paired(y) && |y.re| == |pre.re|
    requires s <= L / 2 && BlockProgress(y, pre, L, tw, k, s)
    ensures BlockOrder(y, L, tw, k, s) == Pass(pre, L, tw)
    decreases |y.re| - k * L, L / 2 - s
  {
    if k * L >= |y.re| {
      BlockProgressDone(y, pre, L, tw, k, s);
    } else {
      BlockInside(k, L, |y.re|);
      if s == L / 2 {
        BlockNext(y, pre, L, tw, k);
        BlockOrderFrom(y, pre, L, tw, k + 1, 0);
        assert BlockOrder(y, L, tw, k, s) == BlockOrder(y, L, tw, k + 1, 0);
      } else {
        BlockAdvance(y, pre, L, tw, k, s);
        BlockOrderFrom(ButterflyAt(y, L, tw, k, s), pre, L, tw, k, s + 1);
        assert BlockOrder(y, L, tw, k, s) == BlockOrder(ButterflyAt(y, L, tw, k, s), L, tw, k, s + 1);
      }
    }
  }

  /** Once every step of block k is done, the next block starts. */
  lemma BlockNext(y: Signal, pre: Signal, L: nat, tw: TwiddleTable, k: nat)
    requires Paired(pre) && PassShape(|pre.re|, L) && Paired(y) && |y.re| == |pre.re|
    requires BlockProgress(y, pre, L, tw, k, L / 2)
    ensures BlockProgress(y, pre, L, tw, k + 1, 0)
  {
    forall i | 0 <= i < |y.re|
      ensures (y.re[i], y.im[i]) == if i / L < k + 1 || (i / L == k + 1 && StepOf(i, L) < 0)
                                    then PassAt(pre, L, tw, i) else (pre.re[i], pre.im[i])
    {
      assert StepOf(i, L) < L / 2;
    }
  }

  /** Block k, when it starts inside the array, ends inside it. */
  lemma BlockInside(k: nat, L: nat, n: nat)
    requires PassShape(n, L) && k * L < n
    ensures k * L + L <= n && (k * L) / L == k
  {
    BlockBound(k * L, L, n);
    DivModUnique(k * L, L, k, 0);
  }

  /** With every block done, the natural order has computed the pass. */
  lemma BlockProgressDone(y: Signal, pre: Signal, L: nat, tw: TwiddleTable, k: nat, s: nat)
    requires Paired(pre) && PassShape(|pre.re|, L) && Paired(y) && |y.re| == |pre.re|
    requires k * L >= |y.re| && BlockProgress(y, pre, L, tw, k, s)
    ensures y == Pass(pre, L, tw)
  {
    var n := |y.re|;
    forall i | 0 <= i < n ensures (y.re[i], y.im[i]) == PassAt(pre, L, tw, i) {
      BlockBefore(i, L, k);
    }
    assert y.re == Pass(pre, L, tw).re;
    assert y.im == Pass(pre, L, tw).im;
  }

  /** An index below k blocks lies in a block before block k. */
  lemma BlockBefore(i: nat, L: nat, k: nat)
    requires L >= 1 && i < k * L
    ensures i / L < k
  {
    if i / L >= k { MulMonotone(i / L, k, L); }
  }

  /** Before the first butterfly nothing is done. */
  lemma BlockProgressStart(x: Signal, L: nat, tw: TwiddleTable)
    requires Paired(x) && PassShape(|x.re|, L)
    ensures BlockProgress(x, x, L, tw, 0, 0)
  {
    forall i | 0 <= i < |x.re|
      ensures (x.re[i], x.im[i]) == if i / L < 0 || (i / L == 0 && StepOf(i, L) < 0)
                                    then PassAt(x, L, tw, i) else (x.re[i], x.im[i])
    {
      NotYetMerged(i, L);
    }
  }

  /** No index lies before block 0 or before step 0. */
  lemma NotYetMerged(i: nat, L: nat)
    requires L >= 2 && L % 2 == 0
    ensures !(i / L < 0 || (i / L == 0 && StepOf(i, L) < 0))
  {
  }

  /** One butterfly of the natural order advances it by one step. */
  lemma BlockAdvance(y: Signal, pre: Signal, L: nat, tw: TwiddleTable, k: nat, s: nat)
    requires Paired(pre) && PassShape(|pre.re|, L) && Paired(y) && |y.re| == |pre.re|
    requires s < L / 2 && k * L + L <= |y.re| && BlockProgress(y, pre, L, tw, k, s)
    ensures BlockProgress(ButterflyAt(y, L, tw, k, s), pre, L, tw, k, s + 1)
  {
    var n := |y.re|;
    var y' := ButterflyAt(y, L, tw, k, s);
    forall i | 0 <= i < n
      ensures (y'.re[i], y'.im[i]) == if i / L < k || (i / L == k && StepOf(i, L) < s + 1)
                                      then PassAt(pre, L, tw, i) else (pre.re[i], pre.im[i])
    {
      if i == k * L + s || i == k * L + s + L / 2 {
        AdvanceSite(y, pre, L, tw, k, s, i);
      } else {
        AdvanceElsewhere(y, pre, L, tw, k, s, i);
      }
    }
  }

  /** At the two indices of the butterfly it performs, the pass's value
      appears: neither index had been touched before. */
  lemma AdvanceSite(y: Signal, pre: Signal, L: nat, tw: TwiddleTable, k: nat, s: nat, i: nat)
    requires Paired(pre) && PassShape(|pre.re|, L) && Paired(y) && |y.re| == |pre.re|
    requires s < L / 2 && k * L + L <= |y.re| && BlockProgress(y, pre, L, tw, k, s)
    requires i == k * L + s || i == k * L + s + L / 2
    ensures i < |y.re| && i / L == k && StepOf(i, L) == s
    ensures (ButterflyAt(y, L, tw, k, s).re[i], ButterflyAt(y, L, tw, k, s).im[i]) == PassAt(pre, L, tw, i)
  {
    var a, b := k * L + s, k * L + s + L / 2;
    ButterflySites(k, L, s, |y.re|);
    DivModUnique(a, L, k, s);
    DivModUnique(b, L, k, s + L / 2);
    assert (y.re[a], y.im[a]) == (pre.re[a], pre.im[a]);
    assert (y.re[b], y.im[b]) == (pre.re[b], pre.im[b]);
  }

  /** Elsewhere the butterfly changes nothing, and no index other than its
      two has step s in block k, so the progress is the same for s and s+1. */
  lemma AdvanceElsewhere(y: Signal, pre: Signal, L: nat, tw: TwiddleTable, k: nat, s: nat, i: nat)
    requires Paired(pre) && PassShape(|pre.re|, L) && Paired(y) && |y.re| == |pre.re|
    requires s < L / 2 && k * L + L <= |y.re| && BlockProgress(y, pre, L, tw, k, s)
    requires i < |y.re| && i != k * L + s && i != k * L + s + L / 2
    ensures var y' := ButterflyAt(y, L, tw, k, s);
      (y'.re[i], y'.im[i]) == if i / L < k || (i / L == k && StepOf(i, L) < s + 1)
                              then PassAt(pre, L, tw, i) else (pre.re[i], pre.im[i])
  {
    ButterflySites(k, L, s, |y.re|);
    var y' := ButterflyAt(y, L, tw, k, s);
    assert y'.re[i] == y.re[i] && y'.im[i] == y.im[i];
    if i / L == k {
      OtherStep(i, L, k, s);
    }
  }

  /** In block k only the two indices of butterfly s have step s. */
  lemma OtherStep(i: nat, L: nat, k: nat, s: nat)
    requires L >= 2 && L % 2 == 0 && s < L / 2 && i / L == k
    requires i != k * L + s && i != k * L + s + L / 2
    ensures StepOf(i, L) != s
  {
    assert i == k * L + i % L;
  }

  /** The natural block-outer order computes exactly the pass the inverted
      step-outer loops compute. */
  lemma BlockOrderIsPass(x: Signal, L: nat, tw: TwiddleTable)
    requires Paired(x) && PassShape(|x.re|, L)
    ensures BlockOrder(x, L, tw, 0, 0) == Pass(x, L, tw)
  {
    BlockProgressStart(x, L, tw);
    BlockOrderFrom(x, x, L, tw, 0, 0);
  }

  lemma {:induction false} Pow2Monotone(p: nat, q: nat)
    requires p < q
    ensures Pow2(p) < Pow2(q)
  {
    if p < q - 1 { Pow2Monotone(p, q - 1); }
  }
}
