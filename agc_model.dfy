/** The resistance model of firmware/agc.h: the AD5220 10k digital
    potentiometer in series with a fixed 720 ohms, and the linear map
    between a wiper level (0..127) and the total resistance. The macros are
    evaluated in floating point; here they are exact reals. */
module AgcModel {

  /** AGC_SAMPLE_RATE and AGC_SAMPLE_COUNT: the AGC's own sampling burst. */
  const AGC_SAMPLE_RATE: nat := 250000
  const AGC_SAMPLE_COUNT: nat := 5000

  /** FIXED_OHMS: wiper resistance plus the fixed safety resistor. */
  const FIXED_OHMS: real := 720.0

  /** The resistance one potentiometer step adds, 1e4 / 127. */
  const OHMS_PER_LEVEL: real := 10000.0 / 127.0

  /** AGC_OHMS(level). */
  function Ohms(level: real): real
  {
    FIXED_OHMS + 10000.0 * level / 127.0
  }

  /** AGC_LEVEL(ohms). */
  function Level(ohms: real): real
  {
    (ohms - FIXED_OHMS) / OHMS_PER_LEVEL
  }

  /** AGC_LEVEL undoes AGC_OHMS. */
  lemma LevelOfOhms(level: real)
    ensures Level(Ohms(level)) == level
  {
    assert Ohms(level) - FIXED_OHMS == OHMS_PER_LEVEL * level;
  }

  /** AGC_OHMS undoes AGC_LEVEL. */
  lemma OhmsOfLevel(ohms: real)
    ensures Ohms(Level(ohms)) == ohms
  {
    var l := Level(ohms);
    assert l * OHMS_PER_LEVEL == ohms - FIXED_OHMS;
    assert 10000.0 * l / 127.0 == l * OHMS_PER_LEVEL;
  }

  /** The two ends of the wiper: 720 ohms at level 0, 10720 ohms at 127. */
  lemma OhmsRange()
    ensures Ohms(0.0) == 720.0 && Ohms(127.0) == 10720.0
  {
  }

  /** More level, more resistance, and the other way round. */
  lemma OhmsIncreasing(a: real, b: real)
    requires a < b
    ensures Ohms(a) < Ohms(b)
    ensures Level(a) < Level(b)
  {
  }

  /** One AGC burst lasts 20 ms: one full cycle of 50 Hz mains. */
  lemma BurstIsOneMainsCycle()
    ensures AGC_SAMPLE_COUNT as real / AGC_SAMPLE_RATE as real == 1.0 / 50.0
  {
  }
}
