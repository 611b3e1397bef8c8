/** The ADC sample format shared by the AGC and the measurement path
    (sample.h): 16-bit unsigned readings whose top bit marks a conversion
    error. The sampling hardware itself is not part of this model; a burst
    of samples arrives as a sequence or an array. */
module Samples {
  import opened Bits

  newtype uint16 = x: int | 0 <= x < 0x1_0000

  /** SAMPLE_ERROR: the error flag, a single bit. */
  const SAMPLE_ERROR: uint16 := 0x8000

  /** `s & SAMPLE_ERROR` is non-zero: SAMPLE_ERROR has only bit 15 set. */
  predicate Flagged(s: uint16)
  {
    Bit(s as nat, 15) == 1
  }

  /** A reading is flagged exactly when it is at least SAMPLE_ERROR, so every
      unflagged reading fits in 15 bits. */
  lemma FlaggedIffHigh(s: uint16)
    ensures Flagged(s) <==> s >= SAMPLE_ERROR
  {
    assert Pow2(15) == 0x8000 && Pow2(16) == 0x1_0000;
    TopBit(s as nat, 15);
  }

  /** sample(count, hz, dest): the ADC fills dest[0..count) with one burst.
      The conversion itself is hardware; the burst it delivers is an input
      of the model. */
  method Sample(count: nat, burst: seq<uint16>, dest: array<uint16>)
    requires |burst| == count <= dest.Length
    modifies dest
    ensures dest[..count] == burst
    ensures forall i :: count <= i < dest.Length ==> dest[i] == old(dest[i])
  {
    forall i | 0 <= i < count {
      dest[i] := burst[i];
    }
  }
}
