# flicker: a verified model of the light-flicker meter's core

flicker is firmware for a Raspberry Pi Pico that measures how a light source
flickers. It samples a phototransistor through the ADC and sets the gain with an
AD5220 digital potentiometer (the AGC). It windows the samples and runs an
in-place radix-2 FFT. It then finds the dominant frequency and reports the
flicker period and its modulation percentage.

This Dafny project models that core and proves properties of the model:

- `bits.dfy` (`Bits`): powers of two, single bits, trailing-zero count, and the
  N-bit reversal the FFT shuffle uses. Unsigned shifts and masks are written as
  arithmetic on naturals.
- `fft.dfy` (`Fft`): `bit_reverse`, `bit_reverse_shuffle` and `fft` of fft.c, as
  methods over arrays of reals. The twiddle factors are a table supplied by the
  caller, indexed by `(sub_length, step)`. Each method is proved against a
  specification function: `Shuffled`, `Pass` and `Transform`. The loop
  inversion (step outside, block inside) is proved equal to the natural
  block-by-block order.
- `fft_reference.dfy` (`FftReference`): the Python twin `fft` of fft.py and
  fft-test-generator.py. It works on a copy of a real input. Its imaginary part
  starts at zero and is never shuffled. It is proved to compute the same
  transform as fft.c.
- `test_vectors.dfy` (`TestVectors`): the `square_wave` pattern and the
  `c_decl` formatter of fft-test-generator.py.
- `samples.dfy` (`Samples`): the 16-bit sample format with its `SAMPLE_ERROR`
  bit, and `sample()` as a burst that arrives from outside.
- `dsp.dfy` (`Dsp`): `peak`, `window` and `make_polar` of firmware/dsp.c and of
  the older dsp.c.
- `agc_model.dfy` (`AgcModel`): the affine `AGC_OHMS` / `AGC_LEVEL` pair of
  firmware/agc.h.
- `rounding.dfy` (`Rounding`): `roundf` in exact arithmetic.
- `agc.dfy` (`Agc`): the AGC of firmware/agc.c and agc.c.
  - It is a class with the `cursor` the firmware keeps.
  - The AD5220 wiper position and the log of relative step commands are ghost
    state.
  - `agc_run` is the four-round controller.
- `measurement.dfy` (`Measurement`): the measurement path of firmware/main.c
  and the earlier main.c. It covers the size and frequency constants,
  `to_bucket` / `to_frequency`, `mod_percent`, the `cycle` clamp, and
  `measure()` in both versions. Both versions run over the statically allocated
  buffers, with magnitude and phase overlaid on the FFT's arrays.

C floats are exact reals. `expf`, `log`, `sqrt`, `atan2` and the FFT's
`sincosf` are parameters: nothing is assumed about them except where a lemma
or method says so. Where C leaves a step undefined, the model returns an
explicit outcome instead of a value:

- a float division by zero converted to an integer;
- an infinity or NaN converted to `unsigned int`;
- `0/0` in `mod_percent`.

## Model

| member | source | states |
|---|---|---|
| `Bits.Reverse` | fft.c:10-19 | The N-bit reversal the loop builds is below 2^N. |
| `Bits.BitOfReverse` | fft.c:12-17 | Bit k of the reversal is bit N-1-k of the input. |
| `Bits.ReverseInvolution` | fft.c:10-19 | Bit reversal is an involution on [0, 2^N). The same holds for the twins fft.py:6-12 and fft-test-generator.py:6-12. |
| `Bits.Ctz` | fft.c:43 | `__builtin_ctz`: 2^ctz(x) divides x and is at most x, and x / 2^ctz(x) is odd, so no larger power of two divides x. |
| `Bits.CtzOfPow2` | fft.c:40-43 | For length == 2^N, ctz(length) recovers N. |
| `Fft.BitReverse` | fft.c:10-19 | The shifting loop returns the N-bit reversal of its input. For N = 0 it returns input & 1 (the same loop as fft.py:6-12). |
| `Fft.BitReverseShuffle` | fft.c:22-33 | Afterwards new[i] == old[reverse(i, N)] for every i < 2^N, and the array is a permutation (same multiset) of the old one. The assertion of fft.py:16 is the length precondition. |
| `Fft.ShuffledTwice` | fft.c:25-31 | Shuffling twice restores the array. |
| `Fft.Butterfly` | fft.c:77-93 | Writes A + T·B at A_index and A − T·B at B_index, both computed from the old values. No other entry of real or imag changes. |
| `Fft.ButterflySites` | fft.c:78-81 | A_index < B_index < length, B_index − A_index == sub_length/2, and both indices belong to block `base` and step `step`. |
| `Fft.ButterflyCover` | fft.c:62-83 | Within a pass every index in [0, length) is the A or B index of butterfly (i / sub_length, step of i). |
| `Fft.ButterfliesDisjoint` | fft.c:71-81 | Two different (block, step) butterflies of a pass share no index, so the pairs partition [0, length). |
| `Fft.MergeStep` | fft.c:76-94 | After the base loop for one step, the pass is complete for every step up to this one. Every other index still holds the pass's input. |
| `Fft.MergePass` | fft.c:71-95 | The step-outer / base-inner loops leave exactly `Pass(old, sub_length)`, the closed-form result of merging every butterfly of the pass. |
| `Fft.MergePasses` | fft.c:62-96 | The doubling sub_length loop leaves `Passes(old, 1, N)`: the passes for sub_length 2, 4, …, 2^N applied in that order. |
| `Fft.BlockOrderIsPass` | fft.c:63-70 | The natural order described in the comment (each block, then each step) computes the same pass as the inverted loops. |
| `Fft.ButterflyAlgebra` | fft.c:88-93 | In every butterfly A' + B' == 2A and A' − B' == 2·T·B, for the real and the imaginary parts. |
| `Fft.Transformer` | fft.c:37-97 | Requires a non-zero power-of-two length. Afterwards real/imag hold `Transform(old, ctz(length))`: the shuffle of both arrays, then the passes for sub_length 2, 4, …, length, in that order. |
| `Fft.TransformOfOne` | fft.c:59-62 | Length 1 is the identity: no swap and no pass. |
| `Fft.TransformOfZero` | fft.c:88-93 | All-zero input transforms to all-zero output, whatever the twiddles. |
| `FftReference.ShuffledZeros` | fft.py:47-48 | Shuffling an all-zero array changes nothing. This is why the reference may skip shuffling the imaginary part. |
| `FftReference.RealFft` | fft.py:26-87 | Requires len == 2^N. The input is left unchanged, the result arrays are fresh and have the input's length, and the result equals fft.c's transform of (input, zeros). The same holds for the twin fft-test-generator.py:37-97. |
| `FftReference.ReferencePasses` | fft.py:51-84 | The loop over n = 1 … N with sub_length = 2**n leaves the same `Passes(old, 1, N)` as fft.c's doubling loop. |
| `TestVectors.SquareWave` | fft-test-generator.py:150 | Every element is −1 or 1, and it is 1 exactly when bit 8 of x is set. |
| `TestVectors.SquareWaveFlips` | fft-test-generator.py:150 | The sign flips every 256 samples. |
| `TestVectors.DecimalRoundTrip` | fft-test-generator.py:105 | The array length written in the declaration parses back to the number it came from. |
| `TestVectors.JoinCommas` | fft-test-generator.py:106 | Joining n comma-free items with ", " yields exactly n − 1 commas. |
| `TestVectors.CDeclSize` | fft-test-generator.py:105 | The text between `[` and `]` is all digits and parses to len(data). |
| `TestVectors.CDeclItems` | fft-test-generator.py:104-107 | The text between the braces is the items joined by ", ": len(data) items and len(data) − 1 commas, and empty braces for empty data. |
| `Samples.FlaggedIffHigh` | sample.h:13 | `s & SAMPLE_ERROR` is non-zero exactly when s >= 0x8000. |
| `Samples.Sample` | sample.h:10 | sample(count, …, dest) fills dest[0..count) with the burst and changes nothing beyond it. |
| `Dsp.PeakBucket` | dsp.c:11-25 | Returns 0 exactly when no bucket in [1, count) rises above −1 (in particular when count <= 1). Otherwise the result is the first bucket holding the maximum over [1, count): never bucket 0, at least every other bucket, strictly above every earlier one. The firmware's scan (firmware/dsp.c:20-25) is the same. |
| `Dsp.FirstMaxUnique` | firmware/dsp.c:20-25 | The tie-breaking rule determines a single bucket. |
| `Dsp.Peak` | firmware/dsp.c:12-45 | Requires what `ASSERT(max_index > 0)` checks: some non-DC bucket rises above −1. Returns the estimate for the first maximum m. That is m itself when m == count−1; otherwise it is m plus the Gaussian offset read from buckets m−1 and m+1, both inside [0, count). The offset follows IEEE float semantics: a zero or opposite-signed neighbour makes it non-finite; a zero middle with neighbours of one sign makes log(0) = −inf, so the offset is 0; a zero logarithm of the spread gives a division by zero, which is non-finite. |
| `Dsp.ZeroMiddleCentres` | firmware/dsp.c:39-44 | A zero maximum with two non-zero neighbours of one sign gives the estimate m itself. |
| `Dsp.EqualNeighboursCentre` | firmware/dsp.c:39-44 | Equal neighbours put the estimate exactly on the bucket whenever the interpolation is defined. |
| `Dsp.GaussianMirror` | firmware/dsp.c:42 | Swapping the neighbours negates the offset, and keeps it undefined when it was undefined. |
| `Dsp.GaussianOffsetBounded` | firmware/dsp.c:42 | When the logarithm obeys its quotient and monotonicity laws at the three buckets, the offset lies in [−1/2, 1/2]. |
| `Dsp.PeakEstimateNear` | firmware/dsp.c:28-44 | Under the same laws a finite estimate lies within half a bucket of the bucket the scan chose. |
| `Dsp.FirstFlag` | firmware/dsp.c:80-86 | The index where window stops: no flagged sample before it, and a flagged sample at it unless it is count. |
| `Dsp.Window` | firmware/dsp.c:49-97 | Returns false exactly when some sample has SAMPLE_ERROR set. Before the first flagged sample, real[i] is the weight times (sample − mean of all count samples) and imag[i] is 0. From that sample on nothing is written. The earlier dsp.c:29-77 behaves the same. |
| `Dsp.SumReadings` | firmware/dsp.c:58-60 | The accumulated sum is the left-to-right total of the readings. |
| `Dsp.WriteWindowed` | firmware/dsp.c:80-95 | The second loop stops at the first flagged sample. Below that index it has written weight·(sample − mean) to real and 0 to imag; nothing from there on has changed. |
| `Dsp.FirstFlagAt` | firmware/dsp.c:80-86 | A clean run of k samples followed by a flagged one (or by the end) puts the first flag at k. |
| `Dsp.WeightSymmetric` | dsp.c:57-70 | The weight e^(K·t²) with t = i − (count−1)/2 is the same for i and count−1−i. |
| `Dsp.ConstantWindowsToZero` | firmware/dsp.c:58-93 | A constant burst has its level as mean and windows to all zeros, whatever the window. |
| `Dsp.CentredSumsToZero` | dsp.c:37-41 | DC removal: the readings minus their mean sum to zero. |
| `Dsp.MakePolar` | firmware/dsp.c:100-112 | For n < count, abs[n] = sqrt(re² + im²) and angle[n] = atan2(im, re), taken from the values on entry. This holds for any aliasing of the arrays, including the firmware's in-place call, as long as abs and angle differ. Entries beyond count are unchanged. The earlier dsp.c:80-92 is the same. |
| `AgcModel.LevelOfOhms` | firmware/agc.h:26-28 | AGC_LEVEL(AGC_OHMS(l)) == l. |
| `AgcModel.OhmsOfLevel` | firmware/agc.h:26-28 | AGC_OHMS(AGC_LEVEL(o)) == o. |
| `AgcModel.OhmsRange` | firmware/agc.h:26-27 | AGC_OHMS(0) == 720 and AGC_OHMS(127) == 10720. |
| `AgcModel.OhmsIncreasing` | firmware/agc.h:27-28 | Both conversions are strictly increasing. |
| `AgcModel.BurstIsOneMainsCycle` | firmware/agc.h:14-17 | AGC_SAMPLE_COUNT / AGC_SAMPLE_RATE is 1/50 s, one cycle of 50 Hz mains. |
| `Rounding.RoundNearest` | firmware/agc.c:94 | roundf lands within one half of its argument. |
| `Rounding.RoundWithin` | firmware/agc.c:94 | A value between two integers rounds to a value between them. |
| `Agc.Clamp` | firmware/agc.c:103-108 | The result is in [0, 127]: the level itself when inside, 0 below, 127 above. |
| `Agc.CleanMax` | firmware/agc.c:66-70 | The largest unflagged reading, or 0 when there is none. It never carries the error bit. |
| `Agc.MeasurePeak` | firmware/agc.c:61-72 | Fills the buffer's first AGC_SAMPLE_COUNT entries with the burst, leaves the rest unchanged, and returns the clean maximum of the burst. |
| `Agc.NewLevel` | firmware/agc.c:92-108 | The next level is at most 127. It is undefined exactly when the peak is 0, the unguarded float division. |
| `Agc.NextLevel` | firmware/agc.c:92-108 | The firmware's estimate, ceiling override and clamp give exactly the level `NewLevel` predicts for a non-zero peak. |
| `Agc.CeilingRule` | firmware/agc.c:98-100 | Above AGC_CEILING the new level is cursor / 10 with integer division, not the linear estimate. |
| `Agc.OnTargetStays` | firmware/agc.c:92-94 | A peak of exactly AGC_TARGET keeps the level. |
| `Agc.BrighterNotHigher` | firmware/agc.c:92-94 | In the linear range a brighter peak never asks for a higher level. |
| `Agc.TowardsTarget` | firmware/agc.c:88-94 | A dim peak never lowers the level, and a bright one in the linear range never raises it. |
| `Agc.Settle` | firmware/agc.c:84-114 | The rounds end in [0, 127]. They are undefined exactly when some round's peak is 0. |
| `Agc.SettleOnTarget` | firmware/agc.c:84-114 | On-target peaks in every round keep the level. |
| `Agc.SettleStep` | firmware/agc.c:84-114 | After a round moves to its new level, the remaining rounds start from that level. |
| `Agc.TrackStep` | agc.c:36-40 | Appending a step command adds it to the net motion since the last reset. |
| `Agc.Agc.Init` | agc.c:18-24 | agc_init of agc.c leaves cursor at its static initial 0 and sends no step. The wiper may be elsewhere, so cursor and wiper agree only when the wiper starts at 0. |
| `Agc.Agc.InitAndReset` | firmware/agc.c:34-41 | agc_init of the firmware ends with a reset: cursor 127, in agreement with the wiper. |
| `Agc.Agc.Reset` | firmware/agc.c:44-50 | One command of +127 steps drives the wiper to 127 from anywhere. Afterwards cursor is 127 and agrees with it. The earlier agc.c:27-33 is the same. |
| `Agc.Agc.SetLevel` | agc.c:36-41 | Requires level < 128. Sends one command of level − cursor steps, then cursor = level. The invariant that cursor equals 127 plus every step since the last reset is kept, and a synced wiper follows exactly. The firmware's firmware/agc.c:53-58 is the same. |
| `Agc.CommandsLength` | firmware/agc.c:84-114 | There is a command for every round exactly when every round is defined. A shorter list stops at a zero peak, and every earlier peak is non-zero. |
| `Agc.CommandsStep` | firmware/agc.c:85-113 | A round that moves from the cursor to a level sends level − cursor, and the later commands start from that level. |
| `Agc.CommandsSum` | firmware/agc.c:84-114 | When every round is defined, the commands add up to the level `Settle` reaches minus the starting cursor. |
| `Agc.NetMotion` | firmware/agc.c:53-58 | When the cursor is the origin plus the log since the reset mark both before and after commands are appended, those commands add up to the cursor's net change. |
| `Agc.Agc.Round` | firmware/agc.c:85-113 | One loop body: the buffer's first AGC_SAMPLE_COUNT entries hold the burst and the rest are unchanged. The peak is the burst's clean maximum. A zero peak changes nothing. Otherwise the cursor moves to `NewLevel` of the old cursor and peak, with one step command of the difference. |
| `Agc.Agc.Step` | firmware/agc.c:85-113 | Round k as the loop sees it: the buffer holds burst k and the peak is its clean maximum. A non-zero peak logs exactly the next command that `Commands` plans for rounds k onwards. A zero peak logs nothing, and no command is planned from it. |
| `Agc.Agc.Rounds` | firmware/agc.c:84-114 | The loop: the step log gains exactly `Commands` of the start cursor and the four peaks, one per round run. Either all four rounds run, with the last peak kept and burst 3 left in the buffer, or the loop stops at the first zero peak with that round's burst in the buffer. The buffer beyond AGC_SAMPLE_COUNT is unchanged. |
| `Agc.Agc.Run` | firmware/agc.c:77-119 | The four rounds give the result `RunSpec` predicts. It is undefined at a zero peak. Otherwise it reports the final level and the label of the last peak: too bright above 3600, too dark below 500. The step log gains exactly the commands of `Commands`: four in a completed run, summing to the cursor's net change, with the last burst left in the buffer; fewer when a round is undefined, with that round's burst left in the buffer. |
| `Measurement.SizeRelations` | firmware/main.c:30-73 | FREQ_COUNT <= SAMPLE_COUNT, so magnitude/phase fit in the real/imag storage they overlay. FREQ_LIMIT < FREQ_COUNT, and HZ_PER_BUCKET == SAMPLE_RATE / SAMPLE_COUNT. |
| `Measurement.SampleCountIsPowerOfTwo` | firmware/main.c:124 | SAMPLE_COUNT is 2^14, so fft's power-of-two requirement holds and N == 14. |
| `Measurement.BucketRoundTrip` | firmware/main.c:36-43 | to_bucket(to_frequency(b)) == b for every bucket. |
| `Measurement.BucketNearest` | firmware/main.c:36-39 | to_bucket lands within half a bucket of hz / HZ_PER_BUCKET. |
| `Measurement.PeakReadInBounds` | firmware/main.c:126-132 | Under the logarithm laws, the `f.magnitude[to_bucket(frequency)]` read is the peak bucket or the one above. It lies inside the FREQ_LIMIT buckets searched. |
| `Measurement.ConcludeUnderLogLaws` | firmware/main.c:126-140 | Under the logarithm laws at the peak, a finite estimate passes the printed read and goes on to the cycle and modulation of the tail of measure. |
| `Measurement.PrintedReadOutOfBounds` | firmware/main.c:126-132 | Without those laws the read can leave the array. When the DC bucket outweighs the peak at bucket 1, and the logarithm takes its true values to seven digits, the estimate is finite but to_bucket lands past FREQ_COUNT. measure() is then undefined. |
| `Measurement.SeqMax` | main.c:78-85 | The scan's max is at least every sample, and is one of them (0 for none). |
| `Measurement.SeqMin` | firmware/main.c:91-98 | The scan's min is at most every sample, and is one of them. It is 0xFFFFFFFF for none. |
| `Measurement.ModPercent` | firmware/main.c:89-102 | The loop computes the true max and min of the stretch. It returns round(100·(max−min)/(max+min)) with unsigned wrap, or undefined for a zero denominator. |
| `Measurement.ModPercentRange` | firmware/main.c:100-101 | A defined percentage lies in [0, 100]. |
| `Measurement.ModPercentOfNothing` | main.c:78-88 | Zero samples give 100·1/0xFFFFFFFF after the wrap, which rounds to 0. |
| `Measurement.ModPercentOfConstant` | main.c:87-88 | A steady non-zero light gives 0%. All-zero samples are undefined. |
| `Measurement.ModPercentUndefined` | firmware/main.c:101 | The percentage is undefined exactly for a non-empty all-zero stretch. |
| `Measurement.ClampCycle` | firmware/main.c:135-138 | The cycle is at most SAMPLE_COUNT/2: unchanged when it fits, SAMPLE_COUNT/2 otherwise. |
| `Measurement.CycleStretchInBounds` | firmware/main.c:135-140 | [SAMPLE_COUNT/2 − cycle, SAMPLE_COUNT/2 + cycle) lies within the samples buffer without unsigned wrap. The same holds in main.c:114-119. |
| `Measurement.CycleOfBucket` | main.c:114 | For an integer bucket b >= 1, cycle == SAMPLE_COUNT / b. |
| `Measurement.FinishReports` | firmware/main.c:135-143 | A reported result has cycle <= SAMPLE_COUNT/2 and modulation in [0, 100]. |
| `Measurement.Meter.Analyse` | firmware/main.c:121-125 | Window, fft, then an in-place make_polar over FREQ_COUNT buckets. Returns false exactly when a sample is flagged. Otherwise magnitude[0..FREQ_COUNT) holds the moduli of the FFT of the windowed samples. |
| `Measurement.Meter.Polarise` | firmware/main.c:124-125 | After fft and make_polar in place, the first FREQ_COUNT entries of real are the magnitudes of the transform of the signal that real and imag held. |
| `Measurement.Meter.Measure` | firmware/main.c:106-146 | Ordering: agc_run, a full sample overwriting the AGC's buffer, agc_reset, then window. When the AGC run is defined, samples holds the acquisition and the AGC is back at cursor 127, synced, on both return paths. measure returns false exactly when a sample is flagged. The step log gains the run's four commands (`Commands`), which sum to the run's change of level, and then the reset to 127. An undefined run leaves the log with the commands of the rounds before the zero peak, and that round's burst in the buffer. With no flagged sample the outcome is decided by the Gaussian estimate at the first maximum below FREQ_LIMIT of the spectrum's magnitudes (`Conclude`). A non-finite estimate is undefined, and so is a printed `f.magnitude` read outside the array. Otherwise the outcome is reported with its cycle and modulation. |
| `Measurement.Meter.Evaluate` | firmware/main.c:120-146 | After the reset: false exactly when a sample is flagged. Otherwise the outcome is the one that the Gaussian estimate at the first maximum below FREQ_LIMIT determines (`Conclude`), as for `Measure`. That includes Undefined for a printed `f.magnitude` read outside the array. |
| `Measurement.Meter.MeasureWithoutAgc` | main.c:93-125 | It returns false exactly when a sample is flagged, before any FFT work. Otherwise the frequency is that of the first maximum over all FREQ_COUNT buckets of the spectrum's magnitudes. |
| `Measurement.Meter.Report` | firmware/main.c:135-140 | The tail of measure: cycle, its clamp, and mod_percent over the two cycles around the middle of the buffer. |

## Left out

- Floating point:
  - The model computes in exact reals. It does not model rounding error in the FFT, the window, the mean's accumulation, the Gaussian interpolation or the AGC's resistance estimate.
  - It makes no claim of agreement with numpy or of DFT equivalence.
  - An `Estimate` does not tell an infinity from a NaN.
- Math functions: `sincosf`, `expf`, `log`, `sqrt` and `atan2` are parameters.
  - The twiddle factors are a table supplied by the caller, never computed.
  - The only property assumed of `sqrt` is that it is non-negative (a requires of `Measure` and `MeasureWithoutAgc`). The peak's `ASSERT(max_index > 0)` rests on that.
  - Bounds on the interpolated peak assume the logarithm's laws at the three buckets used (`LogLaws`).
- `Measurement.Meter.Measure`: a non-finite peak estimate is reported as `Undefined`. In C the conversion of SAMPLE_RATE / ±inf to unsigned would give cycle 0, and a NaN makes it undefined; the model does not tell the two apart.
- The PIO program behind `ad5220_program_run` is not modelled. Each command is appended to a ghost step log, and its effect on the part is a ghost wiper that stops at either end. The command's unsigned `level - cursor` argument is logged as the signed step it stands for; how the PIO program reads a wrapped value is not modelled.
- `sample()` (sample.c): the ADC and DMA hardware. A burst arrives as an input sequence.
- `printf`, `graph_logx`, `graph` (graph.c), the `main` loops, LED/SMPS GPIO, `sleep_ms`, `bi_decl` metadata, and the halt-and-blink `assertion_failure`. Instead, `ASSERT` conditions are preconditions. Only the index of the printed `f.magnitude` read is kept: `Conclude` treats a read outside the array as undefined. `PeakReadInBounds` shows the read is in bounds when the logarithm obeys its laws at the peak, and `PrintedReadOutOfBounds` shows it can leave the array otherwise.
- numpy's `rfft` comparison, matplotlib plotting and header writing in fft.py and fft-test-generator.py.
  - The other test patterns (cosine, noise, sawtooth) are left out, because they are numpy float computations.
  - The float-to-text conversion of `astype(str)` is not modelled: items reach `c_decl` already formatted.
  - fft.py's module-level square wave (float division then int16 cast) is not modelled; only the generator's `square_wave` is.
- `Dsp.Window` and `Dsp.Weight` compute K = −32 / (count · count) on unbounded integers. In C the product is a 32-bit unsigned int, which wraps for count ≥ 65536; count = 65536 makes it 0, and K becomes −inf. Every caller passes SAMPLE_COUNT = 16384, where no wrap happens.
- `Dsp.Window` requires real and imag to be different arrays, as every caller passes them. With `count == 0` the mean is 0 in the model where C computes 0/0, which is never read.
- `Dsp.MakePolar`: when abs and angle are the same array the angle overwrites the magnitude; the contract then states only the angle.
- `Fft.Transformer`: C's `sub_length *= 2` can wrap at 2^32 for a length of 2^31. The model's lengths are unbounded, so that wrap is not modelled.
- The firmware tests (tests/tests.c, firmware/tests/tests.c) are on-device harnesses that compare float results within tolerances. Float tolerances are outside an exact-real model.
