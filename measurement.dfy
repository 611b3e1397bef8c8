/** The measurement path of firmware/main.c and of the earlier main.c:
    sampling constants and bucket/frequency conversion, the modulation
    percentage of a stretch of raw samples, the clamp that keeps the graphed
    stretch inside the sample buffer, and the order of the steps of
    measure(). Floats are exact reals; C's unsigned arithmetic is written
    out modulo 2^32 where it can wrap. */
module Measurement {
  import opened Optional
  import opened Bits
  import opened Samples
  import opened Rounding
  import opened Fft
  import opened Dsp
  import opened AgcModel
  import opened Agc

  const SAMPLE_RATE: real := 250000.0
  /** 16 * 1024 samples: the FFT length. */
  const SAMPLE_COUNT: nat := 16 * 1024
  /** Buckets kept from the FFT; the rest mirror them. */
  const FREQ_COUNT: nat := SAMPLE_COUNT / 2 + 1
  const HZ_PER_BUCKET: real := (SAMPLE_RATE / 2.0) / (FREQ_COUNT - 1) as real
  /** Peak search limit of the firmware: a quarter of the sample rate. */
  const FREQ_LIMIT: nat := FREQ_COUNT / 2

  const UINT_MODULUS: nat := 0x1_0000_0000

  /** The size relations the buffers and loops rely on: magnitude and phase
      (FREQ_COUNT entries) fit inside the real and imag storage they share
      (SAMPLE_COUNT entries); the firmware's peak search stays inside
      magnitude; SAMPLE_COUNT is a power of two, as the FFT demands; and a
      bucket is SAMPLE_RATE / SAMPLE_COUNT hertz wide. */
  lemma SizeRelations()
    ensures FREQ_COUNT <= SAMPLE_COUNT && 2 <= FREQ_LIMIT < FREQ_COUNT
    ensures HZ_PER_BUCKET == SAMPLE_RATE / SAMPLE_COUNT as real
  {
  }

  lemma SampleCountIsPowerOfTwo()
    ensures Pow2(14) == SAMPLE_COUNT && IsPowerOfTwo(SAMPLE_COUNT) && Ctz(SAMPLE_COUNT) == 14
  {
    assert Pow2(7) == 128;
    assert Pow2(14) == Pow2(7) * Pow2(7) by {
      Pow2Divides(7, 14);
    }
    CtzOfPow2(14);
  }

  /** to_frequency. */
  function ToFrequency(bucket: real): real
  {
    HZ_PER_BUCKET * bucket
  }

  /** to_bucket: roundf(hz / HZ_PER_BUCKET) converted to unsigned int; a
      rounded value outside the unsigned range makes the conversion
      undefined. */
  function ToBucket(hz: real): Option<nat>
  {
    var b := Round(hz / HZ_PER_BUCKET);
    if b < 0 || b >= UINT_MODULUS then None else Some(b)
  }

  /** Converting a bucket to hertz and back returns the bucket. */
  lemma BucketRoundTrip(bucket: nat)
    requires bucket < UINT_MODULUS
    ensures ToBucket(ToFrequency(bucket as real)) == Some(bucket)
  {
    assert ToFrequency(bucket as real) / HZ_PER_BUCKET == bucket as real;
    RoundOfInteger(bucket);
  }

  /** to_bucket lands within half a bucket of the frequency it converts. */
  lemma BucketNearest(hz: real)
    requires ToBucket(hz).Some?
    ensures hz / HZ_PER_BUCKET - 0.5 <= ToBucket(hz).value as real <= hz / HZ_PER_BUCKET + 0.5
  {
    RoundNearest(hz / HZ_PER_BUCKET);
  }

  /** The firmware prints f.magnitude[to_bucket(frequency)] for the peak it
      found. When the logarithm obeys its laws at the peak bucket, that
      index is the peak bucket or the one above it, and lies inside the
      FREQ_LIMIT buckets the search covered. */
  lemma PeakReadInBounds(mags: seq<real>, m: nat, ln: real -> real)
    requires |mags| == FREQ_LIMIT && IsFirstMax(mags, m) && PeakEstimate(mags, m, ln).Finite?
    requires m < |mags| - 1 ==> LogLaws(mags[m - 1], mags[m], mags[m + 1], ln)
    ensures var b := ToBucket(ToFrequency(PeakEstimate(mags, m, ln).value));
      b.Some? && m <= b.value <= m + 1 && b.value < FREQ_LIMIT
  {
    var v := PeakEstimate(mags, m, ln).value;
    PeakEstimateNear(mags, m, ln);
    BucketOfFrequency(v);
    RoundNearBucket(v, m, |mags| - 1);
  }

  /** A position within half a bucket of bucket m, and exactly m when m is
      the last bucket, rounds to m or m + 1 and not past the last bucket. */
  lemma RoundNearBucket(v: real, m: nat, last: nat)
    requires 1 <= m <= last && m as real - 0.5 <= v <= m as real + 0.5
    requires m == last ==> v == m as real
    ensures m <= Round(v) <= m + 1 && Round(v) <= last
  {
    FloorMonotone(m as real, v + 0.5);
    FloorMonotone(v + 0.5, (m + 1) as real);
    if m == last {
      RoundOfInteger(m);
    }
  }

  /** to_bucket after to_frequency is plain rounding. */
  lemma BucketOfFrequency(bucket: real)
    ensures ToBucket(ToFrequency(bucket)) ==
      var b := Round(bucket); if b < 0 || b >= UINT_MODULUS then None else Some(b)
  {
    assert ToFrequency(bucket) / HZ_PER_BUCKET == bucket;
  }

  /* ---------------------------------------------------------------------
     mod_percent
     --------------------------------------------------------------------- */

  /** The scan's max: starts at 0, so it is the largest sample (0 if none). */
  function SeqMax(s: seq<uint16>): (m: nat)
    ensures forall i :: 0 <= i < |s| ==> s[i] as nat <= m
    ensures s == [] ==> m == 0
    ensures s != [] ==> exists i :: 0 <= i < |s| && s[i] as nat == m
  {
    if s == [] then 0
    else
      var m := SeqMax(s[..|s| - 1]);
      if s[|s| - 1] as nat > m then s[|s| - 1] as nat else m
  }

  /** The scan's min: starts at (unsigned) -1, so it is the smallest sample,
      or 0xFFFFFFFF if there is none. */
  function SeqMin(s: seq<uint16>): (m: nat)
    ensures forall i :: 0 <= i < |s| ==> m <= s[i] as nat
    ensures s == [] ==> m == UINT_MODULUS - 1
    ensures s != [] ==> exists i :: 0 <= i < |s| && s[i] as nat == m
  {
    if s == [] then UINT_MODULUS - 1
    else
      var m := SeqMin(s[..|s| - 1]);
      if (s[|s| - 1] as nat) < m then s[|s| - 1] as nat else m
  }

  /** (int) roundf(100.0 * (max - min) / (max + min)) with unsigned max and
      min: the difference and the sum wrap modulo 2^32 before the float
      division. A zero denominator gives a NaN or an infinity, whose
      conversion to int is undefined: None. */
  function Percent(hi: nat, lo: nat): Option<int>
  {
    var diff := (hi - lo) % UINT_MODULUS;
    var total := (hi + lo) % UINT_MODULUS;
    if total == 0 then None else Some(Round(100.0 * diff as real / total as real))
  }

  /** mod_percent of a stretch of samples, from its max and min scans. */
  function ModPercentOf(s: seq<uint16>): Option<int>
  {
    Percent(SeqMax(s), SeqMin(s))
  }

  /** mod_percent over samples[start .. start + count) (the C caller passes
      samples + start). */
  method ModPercent(samples: array<uint16>, start: nat, count: nat) returns (percent: Option<int>)
    requires start + count <= samples.Length
    ensures percent == ModPercentOf(samples[start..start + count])
  {
    ghost var stretch := samples[start..start + count];
    var max: nat := 0;
    var min: nat := UINT_MODULUS - 1;
    var i := 0;
    while i < count
      invariant i <= count
      invariant max == SeqMax(stretch[..i]) && min == SeqMin(stretch[..i])
    {
      // comparing the float sample with the unsigned max and min is exact
      // for 16-bit samples, so the comparisons are made on integers
      var s := samples[start + i];
      assert s == stretch[i];
      ScanStep(stretch, i + 1);
      max := if s as nat > max then s as nat else max;
      min := if (s as nat) < min then s as nat else min;
      i := i + 1;
      assert max == SeqMax(stretch[..i]) && min == SeqMin(stretch[..i]);
    }
    assert stretch[..count] == stretch;
    percent := Percent(max, min);
  }

  /** One more sample extends both scans by one comparison. */
  lemma ScanStep(s: seq<uint16>, n: nat)
    requires 0 < n <= |s|
    ensures SeqMax(s[..n]) == if s[n - 1] as nat > SeqMax(s[..n - 1]) then s[n - 1] as nat else SeqMax(s[..n - 1])
    ensures SeqMin(s[..n]) == if (s[n - 1] as nat) < SeqMin(s[..n - 1]) then s[n - 1] as nat else SeqMin(s[..n - 1])
  {
    assert s[..n][..n - 1] == s[..n - 1];
  }

  lemma RatioWithin(a: real, b: real)
    requires 0.0 <= a <= b && b > 0.0
    ensures 0.0 <= 100.0 * a / b <= 100.0
  {
    var q := 100.0 * a / b;
    assert q * b == 100.0 * a;
    assert q >= 0.0 by {
      assert q * b >= 0.0;
    }
    assert 100.0 * b >= 100.0 * a;
  }

  /** The percentage of a max and min a scan can produce, when defined,
      lies in [0, 100]. */
  lemma PercentRange(hi: nat, lo: nat)
    requires lo <= hi < 0x1_0000 || (hi == 0 && lo == UINT_MODULUS - 1)
    requires Percent(hi, lo).Some?
    ensures 0 <= Percent(hi, lo).value <= 100
  {
    var diff := (hi - lo) % UINT_MODULUS;
    var total := (hi + lo) % UINT_MODULUS;
    if lo <= hi {
      assert diff == hi - lo && total == hi + lo;
    } else {
      assert diff == 1 && total == UINT_MODULUS - 1;
    }
    RatioWithin(diff as real, total as real);
    RoundWithin(100.0 * diff as real / total as real, 0, 100);
  }

  /** The modulation percentage, when defined, lies in [0, 100]. */
  lemma ModPercentRange(s: seq<uint16>)
    requires ModPercentOf(s).Some?
    ensures 0 <= ModPercentOf(s).value <= 100
  {
    if s != [] {
      assert SeqMin(s) <= s[0] as nat <= SeqMax(s) < 0x1_0000;
    }
    PercentRange(SeqMax(s), SeqMin(s));
  }

  /** The scan over no samples: the unsigned wrap gives 100 * 1 / 0xFFFFFFFF,
      which rounds to 0. */
  lemma ModPercentOfNothing()
    ensures ModPercentOf([]) == Some(0)
  {
    var q := 100.0 * 1.0 / (UINT_MODULUS - 1) as real;
    assert 0.0 <= q < 0.5;
  }

  /** A steady light has no modulation; all-zero samples are the one input
      that makes the division undefined. */
  lemma ModPercentOfConstant(s: seq<uint16>)
    requires s != [] && forall i :: 0 <= i < |s| ==> s[i] == s[0]
    ensures s[0] == 0 ==> ModPercentOf(s) == None
    ensures s[0] != 0 ==> ModPercentOf(s) == Some(0)
  {
    assert SeqMax(s) == SeqMin(s) == s[0] as nat;
    RoundOfInteger(0);
  }

  /** The percentage is undefined exactly for a non-empty all-zero stretch. */
  lemma ModPercentUndefined(s: seq<uint16>)
    ensures ModPercentOf(s) == None <==> s != [] && forall i :: 0 <= i < |s| ==> s[i] == 0
  {
    if s != [] {
      var hi, lo := SeqMax(s), SeqMin(s);
      assert lo <= s[0] as nat <= hi < 0x1_0000;
    }
  }

  /* ---------------------------------------------------------------------
     cycle
     --------------------------------------------------------------------- */

  /** cycle = SAMPLE_RATE / frequency, converted to unsigned int by
      truncation. A zero frequency divides by zero, and a quotient whose
      truncation is negative or beyond the unsigned range cannot be
      converted: both undefined. */
  function CycleOf(frequency: real): Option<nat>
  {
    if frequency == 0.0 then None
    else
      var q := SAMPLE_RATE / frequency;
      if q <= -1.0 || q >= UINT_MODULUS as real then None
      else if q < 0.0 then Some(0)
      else Some(q.Floor)
  }

  /** The clamp of measure(): at most half the buffer either side of its
      middle. */
  function ClampCycle(cycle: nat): (c: nat)
    ensures c <= SAMPLE_COUNT / 2
    ensures c == cycle || (cycle > SAMPLE_COUNT / 2 && c == SAMPLE_COUNT / 2)
  {
    if cycle > SAMPLE_COUNT / 2 then SAMPLE_COUNT / 2 else cycle
  }

  /** The graphed and measured stretch [SAMPLE_COUNT/2 - cycle,
      SAMPLE_COUNT/2 + cycle) always lies within the sample buffer, without
      unsigned wrap-around. */
  lemma CycleStretchInBounds(raw: nat)
    ensures var c := ClampCycle(raw);
      0 <= SAMPLE_COUNT / 2 - c && SAMPLE_COUNT / 2 + c <= SAMPLE_COUNT && 2 * c <= SAMPLE_COUNT
  {
  }

  /** For an integer bucket b >= 1 the cycle is SAMPLE_COUNT / b samples:
      the period of bucket b's frequency, rounded down. */
  lemma CycleOfBucket(b: nat)
    requires b >= 1
    ensures CycleOf(ToFrequency(b as real)) == Some(SAMPLE_COUNT / b)
  {
    SizeRelations();
    assert ToFrequency(b as real) == (SAMPLE_RATE / SAMPLE_COUNT as real) * b as real;
    PeriodOfBucket(SAMPLE_RATE, SAMPLE_COUNT, b);
    FloorOfQuotient(SAMPLE_COUNT, b);
  }

  /** The period, in samples, of bucket b of an n-point transform. */
  lemma PeriodOfBucket(rate: real, n: nat, b: nat)
    requires rate > 0.0 && n >= 1 && b >= 1
    ensures rate / ((rate / n as real) * b as real) == n as real / b as real
  {
    var f := (rate / n as real) * b as real;
    var q := rate / f;
    var r := n as real / b as real;
    assert f > 0.0;
    assert r * b as real == n as real;
    assert q * f == rate;
    assert r * f == rate by {
      assert r * f == (r * b as real) * (rate / n as real);
    }
    assert (q - r) * f == 0.0;
  }

  /** Real division of naturals, rounded down, is natural division. */
  lemma FloorOfQuotient(n: nat, b: nat)
    requires b >= 1
    ensures (n as real / b as real).Floor == n / b
  {
    var d, m := n / b, n % b;
    assert n == d * b + m;
    assert n as real / b as real == d as real + m as real / b as real;
    assert 0.0 <= m as real / b as real < 1.0;
  }

  /** A spectrum whose DC bucket outweighs the peak the search finds at
      bucket 1, with a slightly lighter bucket 2. */
  function DcHeavySpectrum(): (mags: seq<real>)
    ensures |mags| == FREQ_LIMIT
  {
    seq(FREQ_LIMIT, i => if i == 0 then 2.0 else if i == 1 then 1.0 else if i == 2 then 0.50001 else 0.0)
  }

  /** Without the laws of the logarithm at the peak, the printed read can
      leave the array: on DcHeavySpectrum, with the logarithm's values at
      the two quotients rounded to the digits shown, the Gaussian fit puts
      the peak tens of thousands of buckets away, to_bucket lands past
      FREQ_COUNT, and measure() is undefined. */
  lemma PrintedReadOutOfBounds(acquisition: seq<uint16>, ln: real -> real)
    requires |acquisition| == SAMPLE_COUNT
    requires ln(0.50001 / 2.0) == -1.3862744 && ln(1.0 / 1.00002) == -0.0000199998
    ensures IsFirstMax(DcHeavySpectrum(), 1)
    ensures PeakEstimate(DcHeavySpectrum(), 1, ln).Finite?
    ensures ToBucket(ToFrequency(PeakEstimate(DcHeavySpectrum(), 1, ln).value)).value >= FREQ_COUNT
    ensures Conclude(acquisition, PeakEstimate(DcHeavySpectrum(), 1, ln)) == Undefined
  {
    var mags := DcHeavySpectrum();
    assert mags[0] == 2.0 && mags[1] == 1.0 && mags[2] == 0.50001;
    assert (1.0 * 1.0) / (0.50001 * 2.0) == 1.0 / 1.00002;
    var v := 1.0 + (-1.3862744) / (2.0 * -0.0000199998);
    assert PeakEstimate(mags, 1, ln) == Finite(v);
    assert v >= 34000.0;
    BucketOfFrequency(v);
    RoundMonotone(34000.0, v);
    RoundOfInteger(34000);
  }

  /** What measure() reports after the peak search found a frequency: the
      clamped cycle and the modulation of the two cycles around the middle
      of the buffer, or Undefined where a C conversion is undefined. */
  function Finish(acquisition: seq<uint16>, frequency: real): MeasureOutcome
    requires |acquisition| == SAMPLE_COUNT
  {
    match CycleOf(frequency)
    case None => Undefined
    case Some(raw) =>
      var cycle := ClampCycle(raw);
      match ModPercentOf(acquisition[SAMPLE_COUNT / 2 - cycle .. SAMPLE_COUNT / 2 + cycle])
      case None => Undefined
      case Some(percent) => Reported(frequency, cycle, percent)
  }

  /** What measure() makes of the peak estimate: an infinite or NaN
      frequency has no defined conversion to a cycle length; a finite one is
      first printed with f.magnitude[to_bucket(frequency)], a read that is
      undefined unless the bucket converts and lies inside the FREQ_COUNT
      magnitudes, and then goes through the tail of measure(). */
  function Conclude(acquisition: seq<uint16>, estimate: Estimate): MeasureOutcome
    requires |acquisition| == SAMPLE_COUNT
  {
    match estimate
    case NonFinite => Undefined
    case Finite(v) =>
      var printed := ToBucket(ToFrequency(v));
      if printed.None? || printed.value >= FREQ_COUNT then Undefined
      else Finish(acquisition, ToFrequency(v))
  }

  /** Where the logarithm obeys its laws at the peak bucket, the printed
      read is in bounds, so a finite estimate goes on to the tail of
      measure(). */
  lemma ConcludeUnderLogLaws(acquisition: seq<uint16>, mags: seq<real>, m: nat, ln: real -> real)
    requires |acquisition| == SAMPLE_COUNT
    requires |mags| == FREQ_LIMIT && IsFirstMax(mags, m) && PeakEstimate(mags, m, ln).Finite?
    requires m < |mags| - 1 ==> LogLaws(mags[m - 1], mags[m], mags[m + 1], ln)
    ensures Conclude(acquisition, PeakEstimate(mags, m, ln))
      == Finish(acquisition, ToFrequency(PeakEstimate(mags, m, ln).value))
  {
    PeakReadInBounds(mags, m, ln);
  }

  /** The outcome of measure(): Rejected is its `return false`; Undefined
      stands for a step whose C behaviour is undefined (a zero AGC peak, a
      non-finite or unconvertible frequency, an all-zero stretch). */
  datatype MeasureOutcome = Rejected | Undefined | Reported(frequency: real, cycle: nat, modulation: int)

  /** A reported measurement has its cycle within the buffer and its
      modulation in [0, 100]. */
  lemma FinishReports(acquisition: seq<uint16>, frequency: real)
    requires |acquisition| == SAMPLE_COUNT && Finish(acquisition, frequency).Reported?
    ensures var r := Finish(acquisition, frequency);
      r.cycle <= SAMPLE_COUNT / 2 && 0 <= r.modulation <= 100 && r.frequency == frequency
  {
    var cycle := ClampCycle(CycleOf(frequency).value);
    ModPercentRange(acquisition[SAMPLE_COUNT / 2 - cycle .. SAMPLE_COUNT / 2 + cycle]);
  }

  /* ---------------------------------------------------------------------
     measure
     --------------------------------------------------------------------- */

  /** The windowed acquisition as the FFT receives it. */
  function WindowedSignal(acquisition: seq<uint16>, exp: real -> real): (x: Signal)
    requires |acquisition| == SAMPLE_COUNT
    ensures |x.re| == |x.im| == SAMPLE_COUNT
  {
    Signal(seq(SAMPLE_COUNT, i requires 0 <= i < SAMPLE_COUNT => Windowed(acquisition, i, exp)), Zeros(SAMPLE_COUNT))
  }

  /** The FFT of the windowed acquisition. */
  function Spectrum(acquisition: seq<uint16>, exp: real -> real, tw: TwiddleTable): Signal
    requires |acquisition| == SAMPLE_COUNT
  {
    Transform(WindowedSignal(acquisition, exp), 14, tw)
  }

  /** The first n magnitudes of a spectrum. */
  function Magnitudes(x: Signal, n: nat, sqrt: real -> real): (m: seq<real>)
    requires n <= |x.re| && n <= |x.im|
    ensures |m| == n
  {
    seq(n, i requires 0 <= i < n => Magnitude(x.re[i], x.im[i], sqrt))
  }

  lemma MagnitudesPrefix(s: seq<real>, x: Signal, n: nat, sqrt: real -> real)
    requires n <= |s| && n <= |x.re| && n <= |x.im|
    requires forall k :: 0 <= k < n ==> s[k] == Magnitude(x.re[k], x.im[k], sqrt)
    ensures s[..n] == Magnitudes(x, n, sqrt)
  {
  }

  /** The statically allocated buffers of main.c and firmware/main.c: the raw
      samples, the FFT's real and imag arrays (which magnitude and phase
      overlay), and the AGC. */
  class Meter {
    const samples: array<uint16>
    const re: array<real>
    const im: array<real>
    const agc: Agc

    ghost predicate Valid()
      reads this, agc
    {
      samples.Length == SAMPLE_COUNT && re.Length == SAMPLE_COUNT && im.Length == SAMPLE_COUNT
      && re != im && agc.Valid()
    }

    constructor (agc: Agc)
      requires agc.Valid()
      ensures Valid() && this.agc == agc
      ensures fresh(samples) && fresh(re) && fresh(im)
    {
      samples := new uint16[SAMPLE_COUNT];
      re := new real[SAMPLE_COUNT];
      im := new real[SAMPLE_COUNT];
      this.agc := agc;
    }

    /** The spectral part shared by both versions of measure: window, FFT
        and the in-place polar conversion of the first FREQ_COUNT buckets.
        Returns false exactly when some sample is flagged; otherwise re
        holds the magnitudes of the spectrum of the windowed samples. */
    method Analyse(exp: real -> real, sqrt: real -> real, atan2: (real, real) -> real, tw: TwiddleTable)
      returns (ok: bool)
      requires Valid()
      modifies re, im
      ensures Valid()
      ensures ok <==> forall i :: 0 <= i < SAMPLE_COUNT ==> !Flagged(samples[i])
      ensures ok ==> re[..FREQ_COUNT] == Magnitudes(Spectrum(samples[..], exp, tw), FREQ_COUNT, sqrt)
    {
      ok := Window(samples, re, im, SAMPLE_COUNT, exp);
      if !ok {
        return;
      }
      assert samples[..SAMPLE_COUNT] == samples[..];
      assert Signal(re[..], im[..]) == WindowedSignal(samples[..], exp);
      Polarise(WindowedSignal(samples[..], exp), sqrt, atan2, tw);
    }

    /** fft followed by make_polar of the first FREQ_COUNT buckets, in place:
        re ends up holding the magnitudes of the transform of the signal. */
    method Polarise(ghost input: Signal, sqrt: real -> real, atan2: (real, real) -> real, tw: TwiddleTable)
      requires Valid() && Signal(re[..], im[..]) == input
      modifies re, im
      ensures Valid()
      ensures re[..FREQ_COUNT] == Magnitudes(Transform(input, 14, tw), FREQ_COUNT, sqrt)
    {
      SampleCountIsPowerOfTwo();
      Transformer(re, im, tw);
      ghost var spectrum := Signal(re[..], im[..]);
      MakePolar(re, im, re, im, FREQ_COUNT, sqrt, atan2);
      MagnitudesPrefix(re[..], spectrum, FREQ_COUNT, sqrt);
    }

    /** measure() of firmware/main.c: the AGC sets the gain using the
        samples buffer, a full acquisition overwrites it, the AGC is reset,
        and only then is the acquisition windowed, transformed and searched
        (below FREQ_LIMIT) for its peak. Once the AGC run is defined, the AGC
        ends at 127 on both return paths, and measure returns false exactly
        when a sample is flagged. */
    method Measure(bursts: seq<seq<uint16>>, acquisition: seq<uint16>,
                   exp: real -> real, ln: real -> real, sqrt: real -> real,
                   atan2: (real, real) -> real, tw: TwiddleTable)
      returns (outcome: MeasureOutcome)
      requires Valid()
      requires |bursts| == 4 && forall k :: 0 <= k < 4 ==> |bursts[k]| == AGC_SAMPLE_COUNT
      requires |acquisition| == SAMPLE_COUNT
      requires forall x :: sqrt(x) >= 0.0
      modifies samples, re, im, agc
      ensures Valid()
      ensures RunSpec(old(agc.cursor), Peaks(bursts)).UndefinedRound? ==>
        outcome == Undefined && agc.steps == old(agc.steps) + Commands(old(agc.cursor), Peaks(bursts))
        && |Commands(old(agc.cursor), Peaks(bursts))| < 4
        && samples[..AGC_SAMPLE_COUNT] == bursts[|Commands(old(agc.cursor), Peaks(bursts))|]
      ensures RunSpec(old(agc.cursor), Peaks(bursts)).Completed? ==>
        samples[..] == acquisition && agc.cursor == MAX_LEVEL && agc.synced
        && (outcome == Rejected <==> exists i :: 0 <= i < SAMPLE_COUNT && Flagged(acquisition[i]))
      ensures RunSpec(old(agc.cursor), Peaks(bursts)).Completed? ==>
        agc.steps == old(agc.steps) + Commands(old(agc.cursor), Peaks(bursts)) + [MAX_LEVEL as int]
        && Sum(Commands(old(agc.cursor), Peaks(bursts))) == RunSpec(old(agc.cursor), Peaks(bursts)).level - old(agc.cursor)
      ensures (RunSpec(old(agc.cursor), Peaks(bursts)).Completed?
               && forall i :: 0 <= i < SAMPLE_COUNT ==> !Flagged(acquisition[i])) ==>
        var mags := Magnitudes(Spectrum(acquisition, exp, tw), FREQ_LIMIT, sqrt);
        exists m :: IsFirstMax(mags, m) && outcome == Conclude(acquisition, PeakEstimate(mags, m, ln))
      ensures outcome.Reported? ==>
        var mags := Magnitudes(Spectrum(acquisition, exp, tw), FREQ_LIMIT, sqrt);
        exists m, v :: IsFirstMax(mags, m) && PeakEstimate(mags, m, ln) == Finite(v)
          && outcome == Finish(acquisition, ToFrequency(v))
    {
      var gain := agc.Run(samples, bursts);
      if gain.UndefinedRound? {
        return Undefined;
      }
      Sample(SAMPLE_COUNT, acquisition, samples);
      assert samples[..] == acquisition;
      CommandsSum(old(agc.cursor), Peaks(bursts));
      agc.Reset();
      outcome := Evaluate(acquisition, exp, ln, sqrt, atan2, tw);
    }

    /** The part of measure() of firmware/main.c after the AGC reset: window,
        transform, interpolated peak below FREQ_LIMIT, and the report. */
    method Evaluate(ghost acquisition: seq<uint16>, exp: real -> real, ln: real -> real,
                    sqrt: real -> real, atan2: (real, real) -> real, tw: TwiddleTable)
      returns (outcome: MeasureOutcome)
      requires Valid() && samples[..] == acquisition
      requires forall x :: sqrt(x) >= 0.0
      modifies re, im
      ensures Valid()
      ensures outcome == Rejected <==> exists i :: 0 <= i < SAMPLE_COUNT && Flagged(acquisition[i])
      ensures (forall i :: 0 <= i < SAMPLE_COUNT ==> !Flagged(acquisition[i])) ==>
        var mags := Magnitudes(Spectrum(acquisition, exp, tw), FREQ_LIMIT, sqrt);
        exists m :: IsFirstMax(mags, m) && outcome == Conclude(acquisition, PeakEstimate(mags, m, ln))
      ensures outcome.Reported? ==>
        var mags := Magnitudes(Spectrum(acquisition, exp, tw), FREQ_LIMIT, sqrt);
        exists m, v :: IsFirstMax(mags, m) && PeakEstimate(mags, m, ln) == Finite(v)
          && outcome == Finish(acquisition, ToFrequency(v))
    {
      var ok := Analyse(exp, sqrt, atan2, tw);
      if !ok {
        return Rejected;
      }
      SizeRelations();
      assert re[1] >= 0.0 by {
        assert re[..FREQ_COUNT][1] == re[1];
      }
      var estimate := Peak(re, FREQ_LIMIT, ln);
      assert re[..FREQ_LIMIT] == Magnitudes(Spectrum(acquisition, exp, tw), FREQ_LIMIT, sqrt) by {
        assert re[..FREQ_LIMIT] == re[..FREQ_COUNT][..FREQ_LIMIT];
      }
      if estimate.NonFinite? {
        // an infinite or NaN frequency: converting SAMPLE_RATE / frequency
        // to unsigned is not defined for it
        return Undefined;
      }
      var frequency := ToFrequency(estimate.value);
      var printed := ToBucket(frequency);
      if printed.None? || printed.value >= FREQ_COUNT {
        // the printed f.magnitude[to_bucket(frequency)] is not a defined read
        return Undefined;
      }
      outcome := Report(acquisition, frequency);
    }

    /** measure() of main.c, before the AGC: acquisition, window (returning
        false exactly when a sample is flagged, before any FFT work), FFT,
        and the plain argmax over all FREQ_COUNT buckets as the frequency. */
    method MeasureWithoutAgc(acquisition: seq<uint16>, exp: real -> real, sqrt: real -> real,
                             atan2: (real, real) -> real, tw: TwiddleTable)
      returns (outcome: MeasureOutcome)
      requires Valid()
      requires |acquisition| == SAMPLE_COUNT
      requires forall x :: sqrt(x) >= 0.0
      modifies samples, re, im
      ensures Valid() && samples[..] == acquisition
      ensures outcome == Rejected <==> exists i :: 0 <= i < SAMPLE_COUNT && Flagged(acquisition[i])
      ensures outcome != Rejected ==>
        var mags := Magnitudes(Spectrum(acquisition, exp, tw), FREQ_COUNT, sqrt);
        exists m :: IsFirstMax(mags, m) && outcome == Finish(acquisition, ToFrequency(m as real))
    {
      Sample(SAMPLE_COUNT, acquisition, samples);
      assert samples[..] == acquisition;
      var ok := Analyse(exp, sqrt, atan2, tw);
      if !ok {
        return Rejected;
      }
      SizeRelations();
      assert re[1] >= 0.0 by {
        assert re[..FREQ_COUNT][1] == re[1];
      }
      var bucket := PeakBucket(re, FREQ_COUNT);
      var frequency := ToFrequency(bucket as real);
      outcome := Report(acquisition, frequency);
    }

    /** The tail of measure(): cycle, its clamp, and mod_percent over the
        two cycles around the middle of the samples buffer. */
    method Report(ghost acquisition: seq<uint16>, frequency: real) returns (outcome: MeasureOutcome)
      requires Valid() && samples[..] == acquisition
      ensures outcome == Finish(acquisition, frequency)
    {
      var raw := CycleOf(frequency);
      if raw.None? {
        return Undefined;
      }
      var cycle := raw.value;
      if cycle > SAMPLE_COUNT / 2 {
        cycle := SAMPLE_COUNT / 2;
      }
      var percent := ModPercent(samples, SAMPLE_COUNT / 2 - cycle, cycle * 2);
      assert samples[SAMPLE_COUNT / 2 - cycle .. SAMPLE_COUNT / 2 - cycle + cycle * 2]
        == acquisition[SAMPLE_COUNT / 2 - cycle .. SAMPLE_COUNT / 2 + cycle];
      if percent.None? {
        return Undefined;
      }
      outcome := Reported(frequency, cycle, percent.value);
    }
  }
}
