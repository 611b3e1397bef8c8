/** The reference FFT of fft.py and fft-test-generator.py (the two carry the
    same bit_reverse, bit_reverse_shuffle and fft). It runs the same shuffle
    and butterfly schedule as fft.c, but on a copy of a real-valued input and
    with an imaginary part that starts at zero and is never shuffled. */
module FftReference {
  import opened Bits
  import opened Fft

  /** The shuffle leaves an all-zero array as it is, which is why the
      reference can skip shuffling the imaginary part. */
  lemma ShuffledZeros(N: nat)
    ensures Shuffled(Zeros(Pow2(N)), N) == Zeros(Pow2(N))
  {
  }

  /** fft(input, N): requires len(input) == 2**N, copies the input, shuffles
      the copy, starts the imaginary part at zero, and runs the passes for
      sub_length 2**1 .. 2**N. The caller's input is left untouched, and the
      result is the transform of (input, zeros) as fft.c would compute it. */
  method RealFft(input: array<real>, N: nat, tw: TwiddleTable) returns (re: array<real>, im: array<real>)
    requires input.Length == Pow2(N)
    ensures fresh(re) && fresh(im) && re != im
    ensures input[..] == old(input[..])
    ensures re.Length == im.Length == input.Length
    ensures Signal(re[..], im[..]) == Transform(Signal(input[..], Zeros(input.Length)), N, tw)
  {
    var length := input.Length;
    re := new real[length](i requires 0 <= i < length reads input => input[i]);
    assert re[..] == input[..];
    BitReverseShuffle(re, N);
    im := new real[length](i => 0.0);
    assert im[..] == Zeros(length);
    ShuffledZeros(N);
    ReferencePasses(re, im, N, tw);
  }

  /** The pass loop of the reference: for n in 1 .. N, one merge pass with
      sub_length 2**n. */
  method ReferencePasses(re: array<real>, im: array<real>, N: nat, tw: TwiddleTable)
    requires re != im && re.Length == im.Length == Pow2(N)
    modifies re, im
    ensures Signal(re[..], im[..]) == Passes(old(Signal(re[..], im[..])), 1, N, tw)
  {
    var n := 1;
    while n <= N
      invariant 1 <= n <= N + 1
      invariant Paired(Signal(re[..], im[..]))
      invariant Passes(Signal(re[..], im[..]), n, N, tw) == Passes(old(Signal(re[..], im[..])), 1, N, tw)
    {
      var subLength := Pow2(n);
      PassShapeOfPow2(n, N);
      MergePass(re, im, subLength, tw);
      n := n + 1;
    }
  }
}
