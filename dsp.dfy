/** The spectral helpers of firmware/dsp.c and its earlier twin dsp.c:
    the peak search over FFT magnitudes (with the firmware's Gaussian
    interpolation), the DC-removing Gaussian window applied to raw ADC
    samples, and the cartesian-to-polar conversion. Floats are modelled as
    exact reals; expf, log, sqrt and atan2 are parameters about which
    nothing is assumed unless a lemma says so. */
module Dsp {
  import opened Samples

  /* ---------------------------------------------------------------------
     peak
     --------------------------------------------------------------------- */

  /** m is the bucket the peak scan settles on: a bucket other than DC whose
      magnitude beats the initial -1, is at least every other non-DC
      magnitude, and is strictly above every one before it (the scan keeps
      the first of equal maxima, since it only moves on `>`). */
  predicate IsFirstMax(s: seq<real>, m: nat)
  {
    1 <= m < |s| && s[m] > -1.0
    && (forall i :: 1 <= i < |s| ==> s[i] <= s[m])
    && (forall i :: 1 <= i < m ==> s[i] < s[m])
  }

  /** At most one bucket is the first maximum. */
  lemma FirstMaxUnique(s: seq<real>, m1: nat, m2: nat)
    requires IsFirstMax(s, m1) && IsFirstMax(s, m2)
    ensures m1 == m2
  {
  }

  /** The argmax scan shared by both versions of peak; dsp.c returns its
      result directly. Bucket 0 is never chosen: 0 means that no bucket in
      [1, count) rises above -1 (in particular count <= 1). */
  method PeakBucket(magnitudes: array<real>, count: nat) returns (maxIndex: nat)
    requires count <= magnitudes.Length
    ensures maxIndex == 0 <==> forall i :: 1 <= i < count ==> magnitudes[i] <= -1.0
    ensures maxIndex != 0 ==> IsFirstMax(magnitudes[..count], maxIndex)
  {
    maxIndex := 0;
    var maxVal := -1.0;
    var i := 1;
    while i < count
      invariant 1 <= i && (i <= count || i == 1)
      invariant maxIndex == 0 <==> forall j :: 1 <= j < i ==> magnitudes[j] <= -1.0
      invariant maxIndex == 0 ==> maxVal == -1.0
      invariant maxIndex != 0 ==> 1 <= maxIndex < i && maxVal == magnitudes[maxIndex]
      invariant forall j :: 1 <= j < i ==> magnitudes[j] <= maxVal
      invariant forall j :: 1 <= j < maxIndex ==> magnitudes[j] < maxVal
    {
      if magnitudes[i] > maxVal {
        maxVal := magnitudes[i];
        maxIndex := i;
      }
      i := i + 1;
    }
  }

  /** The firmware's peak estimate: a real bucket position, or a value that
      is infinite or NaN in floating point. */
  datatype Estimate = Finite(value: real) | NonFinite

  /** The Gaussian interpolation offset of Gasior and Gonzalez,
      ln(high/low) / (2 ln(middle^2 / (high low))), as IEEE floats evaluate
      it. A zero neighbour, neighbours of opposite signs, or a spread whose
      logarithm is 0 make it an infinity or a NaN. With non-zero neighbours
      of one sign and a zero middle, the spread is 0, its logarithm is -inf,
      and a finite numerator over -inf gives an offset of 0. */
  function GaussianOffset(low: real, middle: real, high: real, ln: real -> real): Estimate
  {
    if low == 0.0 || high == 0.0 || high / low <= 0.0 then NonFinite
    else if middle == 0.0 then Finite(0.0)
    else
      var spread := (middle * middle) / (high * low);
      if ln(spread) == 0.0 then NonFinite
      else Finite(ln(high / low) / (2.0 * ln(spread)))
  }

  /** A zero middle between non-zero neighbours of one sign: log of the
      zero spread is -inf, so the offset is 0 and the estimate is the
      bucket itself, whatever the logarithm of the quotient. */
  lemma ZeroMiddleCentres(s: seq<real>, m: nat, ln: real -> real)
    requires 1 <= m < |s| - 1 && s[m] == 0.0
    requires s[m - 1] != 0.0 && s[m + 1] != 0.0 && s[m + 1] / s[m - 1] > 0.0
    ensures PeakEstimate(s, m, ln) == Finite(m as real)
  {
  }

  /** What peak returns once the scan has settled on bucket m: m itself when
      m is the last bucket (there is no upper neighbour), otherwise m plus the
      Gaussian offset fitted through buckets m-1, m and m+1. */
  function PeakEstimate(s: seq<real>, m: nat, ln: real -> real): Estimate
    requires 1 <= m < |s|
  {
    if m == |s| - 1 then Finite(m as real)
    else match GaussianOffset(s[m - 1], s[m], s[m + 1], ln)
      case Finite(adjust) => Finite(m as real + adjust)
      case NonFinite => NonFinite
  }

  /** Equal neighbours put the peak exactly on the bucket whenever the
      interpolation is defined, whatever the logarithm does away from 1. */
  lemma EqualNeighboursCentre(s: seq<real>, m: nat, ln: real -> real)
    requires 1 <= m < |s| - 1 && s[m - 1] == s[m + 1]
    requires GaussianOffset(s[m - 1], s[m], s[m + 1], ln).Finite?
    requires ln(1.0) == 0.0
    ensures PeakEstimate(s, m, ln) == Finite(m as real)
  {
    var h := s[m + 1];
    assert h / h == 1.0;
  }

  /** The offset is odd under exchanging the neighbours when the logarithm
      is: a mirrored spectrum gives a mirrored estimate. */
  lemma GaussianMirror(low: real, middle: real, high: real, ln: real -> real)
    requires low != 0.0 && high != 0.0 && high / low > 0.0
    requires ln(low / high) == -ln(high / low)
    ensures GaussianOffset(high, middle, low, ln) ==
      match GaussianOffset(low, middle, high, ln)
        case Finite(adjust) => Finite(-adjust)
        case NonFinite => NonFinite
  {
    assert low / high > 0.0 by {
      assert (high / low) * (low / high) == 1.0;
    }
    assert (middle * middle) / (low * high) == (middle * middle) / (high * low);
  }

  /** The laws of the logarithm the interpolation bound needs, at the three
      buckets only: it turns the two quotients into differences, and it is
      no larger at either neighbour than at the middle bucket (as a monotone
      logarithm is when middle is the maximum). Both neighbours are non-zero. */
  predicate LogLaws(low: real, middle: real, high: real, ln: real -> real)
  {
    && low != 0.0 && high != 0.0
    && ln(high / low) == ln(high) - ln(low)
    && ln((middle * middle) / (high * low)) == 2.0 * ln(middle) - ln(high) - ln(low)
    && ln(high) <= ln(middle) && ln(low) <= ln(middle)
  }

  /** Under those laws the fitted offset lies within half a bucket of the
      middle one. */
  lemma GaussianOffsetBounded(low: real, middle: real, high: real, ln: real -> real)
    requires GaussianOffset(low, middle, high, ln).Finite?
    requires LogLaws(low, middle, high, ln)
    ensures -0.5 <= GaussianOffset(low, middle, high, ln).value <= 0.5
  {
    if middle != 0.0 {
      var a := ln(high / low);
      var d := ln((middle * middle) / (high * low));
      assert d != 0.0;
      assert d > 0.0;
      var x := a / (2.0 * d);
      assert GaussianOffset(low, middle, high, ln).value == x;
      assert x * (2.0 * d) == a;
      assert -d <= a <= d;
    }
  }

  /** Under the same laws at the chosen bucket and its neighbours, a finite
      estimate lies within half a bucket of the bucket the scan chose. */
  lemma PeakEstimateNear(s: seq<real>, m: nat, ln: real -> real)
    requires IsFirstMax(s, m) && PeakEstimate(s, m, ln).Finite?
    requires m < |s| - 1 ==> LogLaws(s[m - 1], s[m], s[m + 1], ln)
    ensures m as real - 0.5 <= PeakEstimate(s, m, ln).value <= m as real + 0.5
  {
    if m < |s| - 1 {
      assert PeakEstimate(s, m, ln).value == m as real + GaussianOffset(s[m - 1], s[m], s[m + 1], ln).value;
      GaussianOffsetBounded(s[m - 1], s[m], s[m + 1], ln);
    }
  }

  /** firmware/dsp.c's peak: the argmax scan, ASSERT(max_index > 0) as the
      precondition that some non-DC bucket rises above -1, then either the
      last bucket itself or a reading of both neighbours, which lie inside
      [0, count), and the Gaussian interpolation. */
  method Peak(magnitudes: array<real>, count: nat, ln: real -> real) returns (r: Estimate)
    requires count <= magnitudes.Length
    requires exists i :: 1 <= i < count && magnitudes[i] > -1.0
    ensures exists m :: IsFirstMax(magnitudes[..count], m) && r == PeakEstimate(magnitudes[..count], m, ln)
  {
    var maxIndex := PeakBucket(magnitudes, count);
    assert maxIndex > 0;
    if maxIndex == count - 1 {
      return Finite(maxIndex as real);
    }
    var high := magnitudes[maxIndex + 1];
    var middle := magnitudes[maxIndex];
    var low := magnitudes[maxIndex - 1];
    r := match GaussianOffset(low, middle, high, ln)
      case Finite(adjust) => Finite(maxIndex as real + adjust)
      case NonFinite => NonFinite;
    assert magnitudes[..count][maxIndex + 1] == high && magnitudes[..count][maxIndex - 1] == low;
  }

  /* ---------------------------------------------------------------------
     window
     --------------------------------------------------------------------- */

  /** The readings as exact reals ((float)s). */
  function AsReals(s: seq<uint16>): (r: seq<real>)
    ensures |r| == |s| && forall i :: 0 <= i < |s| ==> r[i] == s[i] as real
  {
    seq(|s|, i requires 0 <= i < |s| => s[i] as real)
  }

  /** The sum of a sequence, accumulated left to right as the loop does. */
  function Total(x: seq<real>): real
  {
    if x == [] then 0.0 else Total(x[..|x| - 1]) + x[|x| - 1]
  }

  function Mean(s: seq<uint16>): real
    requires |s| > 0
  {
    Total(AsReals(s)) / |s| as real
  }

  /** The Gaussian (r = 8) window weight e^(K t^2) with K = -32/count^2 and
      t the distance of sample i from the middle (count-1)/2. */
  function Weight(count: nat, i: nat, exp: real -> real): real
    requires count > 0
  {
    var k := -32.0 / (count * count) as real;
    var t := i as real - (count - 1) as real / 2.0;
    exp(k * t * t)
  }

  /** A reading with the mean taken off, scaled by its weight. */
  function Scaled(weight: real, reading: real, mean: real): real
  {
    weight * (reading - mean)
  }

  /** The windowed, DC-free value window writes to real[i]. */
  function Windowed(s: seq<uint16>, i: nat, exp: real -> real): real
    requires i < |s|
  {
    Scaled(Weight(|s|, i, exp), s[i] as real, Mean(s))
  }

  /** Index of the first flagged reading, or |s| when there is none. */
  function FirstFlag(s: seq<uint16>): (r: nat)
    ensures r <= |s|
    ensures forall i :: 0 <= i < r ==> !Flagged(s[i])
    ensures r < |s| ==> Flagged(s[r])
  {
    if s == [] then 0 else if Flagged(s[0]) then 0 else 1 + FirstFlag(s[1..])
  }

  /** window: returns false exactly when some reading carries SAMPLE_ERROR.
      It stops at the first flagged reading, so only the entries before it
      have been written; each written entry is the reading minus the mean
      of all count readings, times the window weight, with a zero imaginary
      part. Nothing else in real or imag changes. */
  method Window(samples: array<uint16>, re: array<real>, im: array<real>, count: nat, exp: real -> real)
    returns (ok: bool)
    requires count <= samples.Length && count <= re.Length && count <= im.Length
    requires re != im
    modifies re, im
    ensures ok <==> forall i :: 0 <= i < count ==> !Flagged(samples[i])
    ensures var stop := FirstFlag(samples[..count]);
      (forall i :: 0 <= i < stop ==> re[i] == Windowed(samples[..count], i, exp) && im[i] == 0.0)
      && (forall i :: stop <= i < re.Length ==> re[i] == old(re[i]))
      && (forall i :: stop <= i < im.Length ==> im[i] == old(im[i]))
  {
    ghost var s := samples[..count];
    var sum := SumReadings(samples, count);
    // with count == 0 the C mean is 0/0, but it is never used
    var mean := if count > 0 then sum / count as real else 0.0;
    assert count > 0 ==> mean == Mean(s);
    var stop := WriteWindowed(samples, re, im, count, mean, exp);
    WindowedUpTo(s, stop, mean, re[..], exp);
    ok := stop == count;
  }

  /** The second loop of window: writes the weighted, mean-free readings up
      to the first flagged one and returns where it stopped. */
  method WriteWindowed(samples: array<uint16>, re: array<real>, im: array<real>, count: nat, mean: real, exp: real -> real)
    returns (stop: nat)
    requires count <= samples.Length && count <= re.Length && count <= im.Length
    requires re != im
    modifies re, im
    ensures stop == FirstFlag(samples[..count])
    ensures forall j :: 0 <= j < stop ==> re[j] == Scaled(Weight(count, j, exp), samples[j] as real, mean) && im[j] == 0.0
    ensures forall j :: stop <= j < re.Length ==> re[j] == old(re[j])
    ensures forall j :: stop <= j < im.Length ==> im[j] == old(im[j])
  {
    ghost var s := samples[..count];
    var i := 0;
    while i < count
      invariant i <= FirstFlag(s)
      invariant forall j :: 0 <= j < i ==> re[j] == Scaled(Weight(count, j, exp), samples[j] as real, mean) && im[j] == 0.0
      invariant forall j :: i <= j < re.Length ==> re[j] == old(re[j])
      invariant forall j :: i <= j < im.Length ==> im[j] == old(im[j])
    {
      var sample := samples[i];
      assert sample == s[i];
      if Flagged(sample) {
        return i;
      }
      var w := Weight(count, i, exp);
      re[i] := Scaled(w, sample as real, mean);
      im[i] := 0.0;
      i := i + 1;
    }
    return count;
  }

  /** The values the loop writes, with the mean computed once, are the
      windowed readings. */
  lemma WindowedUpTo(s: seq<uint16>, k: nat, mean: real, r: seq<real>, exp: real -> real)
    requires k <= |s| && k <= |r| && (|s| > 0 ==> mean == Mean(s))
    requires forall j :: 0 <= j < k ==> r[j] == Scaled(Weight(|s|, j, exp), s[j] as real, mean)
    ensures forall j :: 0 <= j < k ==> r[j] == Windowed(s, j, exp)
  {
  }

  /** The first loop of window: the float sum of the first count readings. */
  method SumReadings(samples: array<uint16>, count: nat) returns (sum: real)
    requires count <= samples.Length
    ensures sum == Total(AsReals(samples[..count]))
  {
    sum := 0.0;
    var i := 0;
    while i < count
      invariant i <= count
      invariant sum == Total(AsReals(samples[..i]))
    {
      assert AsReals(samples[..i + 1])[..i] == AsReals(samples[..i]);
      sum := sum + samples[i] as real;
      i := i + 1;
    }
  }

  /** The first flagged index is the one where a clean run ends. */
  lemma {:induction false} FirstFlagAt(s: seq<uint16>, k: nat)
    requires k <= |s| && forall j :: 0 <= j < k ==> !Flagged(s[j])
    requires k < |s| ==> Flagged(s[k])
    ensures FirstFlag(s) == k
  {
    if k > 0 {
      assert !Flagged(s[0]);
      FirstFlagAt(s[1..], k - 1);
    }
  }

  /** The weight depends only on (i - middle)^2: samples mirrored about the
      middle of the burst get the same weight. */
  lemma WeightSymmetric(count: nat, i: nat, exp: real -> real)
    requires i < count
    ensures Weight(count, i, exp) == Weight(count, count - 1 - i, exp)
  {
    var t := i as real - (count - 1) as real / 2.0;
    var u := (count - 1 - i) as real - (count - 1) as real / 2.0;
    assert u == -t;
    assert u * u == t * t;
  }

  /** Sum of a constant sequence. */
  lemma {:induction false} TotalOfConstant(x: seq<real>, c: real)
    requires forall i :: 0 <= i < |x| ==> x[i] == c
    ensures Total(x) == |x| as real * c
  {
    if x != [] {
      TotalOfConstant(x[..|x| - 1], c);
    }
  }

  /** A constant burst has its level as mean and windows to all zeros,
      whatever the window function. */
  lemma ConstantWindowsToZero(s: seq<uint16>, exp: real -> real)
    requires |s| > 0 && forall i :: 0 <= i < |s| ==> s[i] == s[0]
    ensures Mean(s) == s[0] as real
    ensures forall i :: 0 <= i < |s| ==> Windowed(s, i, exp) == 0.0
  {
    TotalOfConstant(AsReals(s), s[0] as real);
  }

  /** The readings with their mean subtracted. */
  function Centred(s: seq<uint16>): (r: seq<real>)
    requires |s| > 0
    ensures |r| == |s|
  {
    seq(|s|, i requires 0 <= i < |s| => s[i] as real - Mean(s))
  }

  lemma {:induction false} TotalShift(x: seq<real>, y: seq<real>, c: real)
    requires |x| == |y| && forall i :: 0 <= i < |x| ==> y[i] == x[i] - c
    ensures Total(y) == Total(x) - |x| as real * c
  {
    if x != [] {
      TotalShift(x[..|x| - 1], y[..|y| - 1], c);
    }
  }

  /** DC removal: the centred readings sum to zero. */
  lemma CentredSumsToZero(s: seq<uint16>)
    requires |s| > 0
    ensures Total(Centred(s)) == 0.0
  {
    TotalShift(AsReals(s), Centred(s), Mean(s));
  }

  /* ---------------------------------------------------------------------
     make_polar
     --------------------------------------------------------------------- */

  /** The modulus sqrt(re^2 + im^2) of one complex value. */
  function Magnitude(r: real, i: real, sqrt: real -> real): real
  {
    sqrt(r * r + i * i)
  }

  /** make_polar: abs[n] = sqrt(re^2 + im^2) and angle[n] = atan2(im, re) for
      n < count, from the values the inputs held on entry. Both inputs of an
      index are read before either output of that index is written, so the
      contract holds for any aliasing of the four arrays, including the
      firmware's in-place use (abs over real, angle over imag). Only when abs
      and angle are the same array does the angle overwrite the magnitude. */
  method MakePolar(re: array<real>, im: array<real>, abs: array<real>, angle: array<real>, count: nat,
                   sqrt: real -> real, atan2: (real, real) -> real)
    requires count <= re.Length && count <= im.Length && count <= abs.Length && count <= angle.Length
    modifies abs, angle
    ensures forall n :: 0 <= n < count ==> angle[n] == atan2(old(im[n]), old(re[n]))
    ensures abs != angle ==>
      forall n :: 0 <= n < count ==> abs[n] == Magnitude(old(re[n]), old(im[n]), sqrt)
    ensures forall n :: count <= n < abs.Length ==> abs[n] == old(abs[n])
    ensures forall n :: count <= n < angle.Length ==> angle[n] == old(angle[n])
  {
    var n := 0;
    while n < count
      invariant n <= count
      invariant forall j :: n <= j < re.Length ==> re[j] == old(re[j])
      invariant forall j :: n <= j < im.Length ==> im[j] == old(im[j])
      invariant forall j :: 0 <= j < n ==> angle[j] == atan2(old(im[j]), old(re[j]))
      invariant abs != angle ==>
        forall j :: 0 <= j < n ==> abs[j] == Magnitude(old(re[j]), old(im[j]), sqrt)
      invariant forall j :: n <= j < abs.Length ==> abs[j] == old(abs[j])
      invariant forall j :: n <= j < angle.Length ==> angle[j] == old(angle[j])
    {
      var r, i := re[n], im[n];
      assert r == old(re[n]) && i == old(im[n]);
      abs[n] := Magnitude(r, i, sqrt);
      angle[n] := atan2(i, r);
      n := n + 1;
    }
  }
}
