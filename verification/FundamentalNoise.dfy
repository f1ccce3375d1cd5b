/** The bin of the fundamental is filed under noise: exactly when, and for which signal. */
module FundamentalNoise {
  import opened Reals
  import opened ComplexNumbers
  import opened Trigonometry
  import opened FourierTransform
  import opened SpectrumAnalysis
  import opened SpectrumLaws

  // ----- When the noise depends on the fundamental's own bin

  lemma NoiseStep(mags: seq<real>, count: nat, rate: real, n: nat, f: real)
    requires 2 < count <= |mags| && n > 0
    ensures Power(mags, count, rate, n, f, false)
         == Power(mags, count - 1, rate, n, f, false)
            + if IsHarmonic(Frequency(count - 1, rate, n), f, rate / n as real) then 0.0
              else Times(mags[count - 1], mags[count - 1])
  {
    hide Frequency, IsHarmonic;
  }

  /** What changing the magnitude at the fundamental does to the noise power. */
  lemma {:induction false} NoiseDifference(mags: seq<real>, count: nat, rate: real, n: nat, p: nat, x: real)
    requires p < |mags| && count <= |mags| && n > 0
    ensures Power(mags[p := x], count, rate, n, Frequency(p, rate, n), false)
          - Power(mags, count, rate, n, Frequency(p, rate, n), false)
         == if 2 <= p < count then Times(x, x) - Times(mags[p], mags[p]) else 0.0
  {
    hide Frequency, IsHarmonic, Times, BinIsHarmonic;
    if count > 2 {
      NoiseDifference(mags, count - 1, rate, n, p, x);
      NoiseStep(mags, count, rate, n, Frequency(p, rate, n));
      NoiseStep(mags[p := x], count, rate, n, Frequency(p, rate, n));
      hide Power;
      if count - 1 == p {
        HarmonicByIndex(p, p, rate, n);
        PeakIsNotItsHarmonic(p);
      }
    }
  }

  /** The noise power with another magnitude at the fundamental. */
  function NoiseWith(mags: seq<real>, rate: real, n: nat, p: nat, x: real): real
    requires p < |mags| && n > 0
  {
    Power(mags[p := x], |mags|, rate, n, Frequency(p, rate, n), false)
  }

  ghost predicate NoiseIgnoresFundamental(mags: seq<real>, rate: real, n: nat, p: nat)
    requires p < |mags| && n > 0
  {
    forall x: real :: NoiseWith(mags, rate, n, p, x) == Power(mags, |mags|, rate, n, Frequency(p, rate, n), false)
  }

  /** The noise power does not depend on the fundamental's own bin exactly when that bin is 0 or 1. */
  lemma NoiseIgnoresFundamentalExactly(mags: seq<real>, rate: real, n: nat, p: nat)
    requires p < |mags| && n > 0
    ensures NoiseIgnoresFundamental(mags, rate, n, p) <==> p < 2
  {
    hide Power, Frequency;
    var noise := Power(mags, |mags|, rate, n, Frequency(p, rate, n), false);
    if p < 2 {
      forall x: real
        ensures NoiseWith(mags, rate, n, p, x) == noise
      {
        NoiseDifference(mags, |mags|, rate, n, p, x);
      }
    } else {
      var x := if mags[p] == 0.0 then 1.0 else 0.0;
      SignOfProduct(mags[p], mags[p]);
      SignOfProduct(x, x);
      NoiseDifference(mags, |mags|, rate, n, p, x);
      assert NoiseWith(mags, rate, n, p, x) != noise;
    }
  }

  // ----- A sine whose report says less signal than noise

  /** One period of a cosine of a quarter of the sample rate. */
  const SINE: seq<real> := [1.0, 0.0, -1.0, 0.0]

  /** The padded signal as the transform gets it. */
  function Sine8(): seq<Complex> {
    ToComplex(Padded(SINE, 8))
  }

  lemma SineSamples()
    ensures |Sine8()| == 8 && Sine8()[0] == ONE && Sine8()[2] == Neg(ONE)
    ensures forall i :: 0 <= i < 8 && i != 0 && i != 2 ==> Sine8()[i] == ZERO
  {
  }

  lemma UnitTerms(z: Complex)
    ensures Add(z, ZERO) == z && Add(ZERO, z) == z && Mul(ONE, z) == z && Mul(Neg(ONE), z) == Neg(z)
    ensures Add(ONE, Neg(z)) == Sub(ONE, z)
  {
  }

  lemma SilentTerm(m: Libm, x: seq<Complex>, k: int, i: nat)
    requires i < |x| && x[i] == ZERO
    ensures DftSum(m, x, k, i + 1) == DftSum(m, x, k, i)
  {
    hide *;
    DftSumStep(m, x, k, i);
    ZeroTerms(Twiddle(m, |x|, i * k));
    UnitTerms(DftSum(m, x, k, i));
  }

  /** Only two samples count: the output is 1 minus a factor. */
  lemma SineOutput(m: Libm, x: seq<Complex>, k: nat)
    requires m.TrigLaws() && |x| == 8 && x[0] == ONE && x[2] == Neg(ONE)
    requires forall i :: 0 <= i < 8 && i != 0 && i != 2 ==> x[i] == ZERO
    ensures DftSum(m, x, k, 8) == Sub(ONE, Twiddle(m, 4, k))
  {
    assert DftSum(m, x, k, 0) == ZERO;
    hide *;
    DftSumStep(m, x, k, 0);
    SilentTerm(m, x, k, 1);
    DftSumStep(m, x, k, 2);
    SilentTerm(m, x, k, 3);
    SilentTerm(m, x, k, 4);
    SilentTerm(m, x, k, 5);
    SilentTerm(m, x, k, 6);
    SilentTerm(m, x, k, 7);
    TwiddleZero(m, 8);
    TwiddleDoubles(m, 4, k);
    assert 0 * k == 0;
    UnitTerms(ONE);
    UnitTerms(Twiddle(m, 4, k));
  }

  /** The quarter turn has no real part. */
  lemma QuarterTurns(m: Libm)
    requires m.TrigLaws()
    ensures Twiddle(m, 4, 0) == ONE && Twiddle(m, 4, 2) == Neg(ONE)
    ensures Twiddle(m, 4, 1).re == 0.0 && Twiddle(m, 4, 3).re == 0.0
  {
    TwiddleZero(m, 4);
    TwiddleHalf(m, 2);
    TwiddleAdds(m, 4, 1, 1);
    TwiddleAdds(m, 4, 2, 1);
    TwiddleIsUnit(m, 4, 1);
    hide Twiddle;
    var u := Twiddle(m, 4, 1);
    SignOfProduct(u.re, u.re);
    assert Times(u.re, u.re) == u.re * u.re;
  }

  lemma DistanceFromOne(u: Complex)
    requires Norm2(u) == 1.0
    ensures Norm2(Sub(ONE, u)) == 2.0 - 2.0 * u.re
  {
  }

  lemma SineNorms(m: Libm, k: nat)
    requires m.TrigLaws() && k < 4
    ensures Norm2(DftSum(m, Sine8(), k, 8)) == if k == 0 then 0.0 else if k == 2 then 4.0 else 2.0
  {
    SineSamples();
    QuarterTurns(m);
    hide Sine8, Twiddle, Norm2, DftSum;
    SineOutput(m, Sine8(), k);
    TwiddleIsUnit(m, 4, k);
    DistanceFromOne(Twiddle(m, 4, k));
  }

  lemma SineSpectrum(m: Libm, k: nat)
    requires k < 4
    ensures var mags := BinMagnitudes(m, "none", SINE, 8);
            |mags| == 4 && mags[k] == m.Abs(DftSum(m, Sine8(), k, 8))
  {
    NoWindow(m, Padded(SINE, 8));
    SineSamples();
    DftAt(m, Sine8(), k);
    hide Dft, DftSum, Windowed, Padded, Libm.Abs;
  }

  /** The squared magnitudes of the four bins are 0, 2, 4 and 2. */
  lemma SineMagnitudes(m: Libm, k: nat)
    requires m.TrigLaws() && m.RootLaws() && k < 4
    ensures var mags := BinMagnitudes(m, "none", SINE, 8);
            |mags| == 4 && mags[k] >= 0.0 && Times(mags[k], mags[k]) == if k == 0 then 0.0 else if k == 2 then 4.0 else 2.0
  {
    SineSpectrum(m, k);
    SineNorms(m, k);
    hide BinMagnitudes, DftSum, Sine8;
    ModulusOf(m, DftSum(m, Sine8(), k, 8));
    hide *;
  }

  lemma ModulusOf(m: Libm, z: Complex)
    requires m.RootLaws()
    ensures m.Abs(z) >= 0.0 && Times(m.Abs(z), m.Abs(z)) == Norm2(z)
  {
    SquareOfModulus(m, z);
    NormIsPositive(z);
    hide Norm2;
  }

  lemma SmallerSquare(a: real, b: real)
    requires a >= 0.0 && b >= 0.0 && Times(a, a) < Times(b, b)
    ensures a < b
  {
    SignOfProduct(b - a, b + a);
    assert Times(b - a, b + a) == b * b - a * a;
  }

  lemma PaddedToEight(n: nat)
    requires IsPowerOfTwo(n) && 8 <= n < 16
    ensures n == 8
  {
    assert IsPowerOfTwo(n / 2) && IsPowerOfTwo(n / 2 / 2);
    assert !IsPowerOfTwo(3);
  }

  lemma SinePeak(m: Libm, mags: seq<real>, p: nat)
    requires m.TrigLaws() && m.RootLaws() && mags == BinMagnitudes(m, "none", SINE, 8) && IsPeak(mags, p)
    ensures p == 2 && |mags| == 4 && mags[2] > 0.0
  {
    hide BinMagnitudes, Libm.TrigLaws, Libm.RootLaws;
    SineMagnitudes(m, 2);
    SineMagnitudes(m, p);
    SignOfProduct(mags[2], mags[2]);
    hide Times;
    if p != 2 {
      SmallerSquare(mags[p], mags[2]);
    }
  }

  /** A single clean tone: at every sample rate its report puts it at bin 2 of 8 and below the noise. */
  lemma SineIsReportedAsNoise(m: Libm, rate: real, r: Report, n: nat, p: nat)
    requires m.TrigLaws() && m.RootLaws() && m.LogLaws()
    requires IsReport(m, "none", rate, SINE, r, n, p)
    ensures n == 8 && p == 2 && r.snr < 0.0
  {
    PaddedToEight(n);
    hide BinMagnitudes, ReportOf, Libm.TrigLaws, Libm.RootLaws, Libm.LogLaws, IsPowerOfTwo;
    var mags := BinMagnitudes(m, "none", SINE, 8);
    SinePeak(m, mags, p);
    RatioIsNegative(m, rate, mags, 8, 2, 4);
  }
}
