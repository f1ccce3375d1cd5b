/** What the transform keeps: its exact domain, its energy, its symmetry and its information. */
module FourierLaws {
  import opened Reals
  import opened ComplexNumbers
  import opened Trigonometry
  import opened FourierTransform

  // ----- The lengths on which the recursion is the Fourier transform

  function Silence(n: nat): seq<Complex> {
    seq(n, i => ZERO)
  }

  /** All zero but for a one in the last place. */
  function LastImpulse(n: nat): seq<Complex> {
    seq(n, i => if i == n - 1 then ONE else ZERO)
  }

  lemma SilenceHalves(n: nat)
    ensures Evens(Silence(n)) == Silence(n / 2) && Odds(Silence(n)) == Silence(n / 2)
  {
  }

  lemma CombineSilence(m: Libm, n: nat, i: nat)
    requires i < n
    ensures Combine(m, Silence(n), Silence(n / 2), Silence(n / 2))[i] == ZERO
  {
    hide Mul, Add, Sub, Twiddle;
    var h := n / 2;
    if i < h {
      ZeroTerms(Twiddle(m, n, i));
    } else if i < 2 * h {
      ZeroTerms(Twiddle(m, n, i - h));
    }
  }

  lemma {:induction false} SilenceStaysSilent(m: Libm, n: nat)
    ensures Transform(m, Silence(n)) == Silence(n)
    decreases n
  {
    if n > 1 {
      SilenceHalves(n);
      SilenceStaysSilent(m, n / 2);
      hide Combine, Transform;
      TransformStep(m, Silence(n));
      forall i | 0 <= i < n
        ensures Transform(m, Silence(n))[i] == ZERO
      {
        CombineSilence(m, n, i);
      }
    }
  }

  /** On a length with an odd factor the recursion drops the last sample from output 0. */
  lemma {:induction false} LastSampleIsDropped(m: Libm, n: nat)
    requires n > 0 && !IsPowerOfTwo(n)
    ensures Transform(m, LastImpulse(n))[0] == ZERO
    decreases n
  {
    hide Combine, Mul, Add, Sub, Transform;
    var h := n / 2;
    var x := LastImpulse(n);
    assert Evens(x) == Silence(h);
    SilenceStaysSilent(m, h);
    if n % 2 == 0 {
      assert Odds(x) == LastImpulse(h);
      LastSampleIsDropped(m, h);
    } else {
      assert Odds(x) == Silence(h);
    }
    TransformStep(m, x);
    CombineAt(m, x, Transform(m, Evens(x)), Transform(m, Odds(x)), 0);
    ZeroTerms(Twiddle(m, n, 0));
  }

  lemma {:induction false} LastSampleIsSummed(m: Libm, n: nat, count: nat)
    requires m.TrigLaws() && 0 < n && count <= n
    ensures DftSum(m, LastImpulse(n), 0, count) == if count == n then ONE else ZERO
  {
    if count > 0 {
      LastSampleIsSummed(m, n, count - 1);
      hide DftSum, Mul, Twiddle, Libm.TrigLaws;
      TwiddleZero(m, n);
      MulOne(LastImpulse(n)[count - 1]);
      DftSumStep(m, LastImpulse(n), 0, count - 1);
      assert (count - 1) * 0 == 0;
    }
  }

  /** The recursion computes the defining sum for every input of length n exactly when n is a power of two (or 0). */
  lemma TransformIsDftExactly(m: Libm, n: nat)
    requires m.TrigLaws()
    ensures (forall x: seq<Complex> :: |x| == n ==> Transform(m, x) == Dft(m, x)) <==> n == 0 || IsPowerOfTwo(n)
  {
    if n == 0 {
      assert forall x: seq<Complex> :: |x| == 0 ==> Transform(m, x) == Dft(m, x);
    } else if IsPowerOfTwo(n) {
      forall x: seq<Complex> | |x| == n
        ensures Transform(m, x) == Dft(m, x)
      {
        TransformIsDft(m, x);
      }
    } else {
      hide Transform, Dft, DftSum, Libm.TrigLaws;
      LastSampleIsDropped(m, n);
      LastSampleIsSummed(m, n, n);
      DftAt(m, LastImpulse(n), 0);
    }
  }

  // ----- Energy

  /** The energy of the first `count` samples. */
  function Energy(x: seq<Complex>, count: nat): real
    requires count <= |x|
  {
    if count == 0 then 0.0 else Energy(x, count - 1) + Norm2(x[count - 1])
  }

  lemma {:induction false} EnergySplits(x: seq<Complex>, h: nat)
    requires 2 * h <= |x|
    ensures Energy(x, 2 * h) == Energy(Evens(x), h) + Energy(Odds(x), h)
  {
    hide Norm2;
    if h == 0 {
    } else {
      EnergySplits(x, h - 1);
      assert Energy(x, 2 * h - 1) == Energy(x, 2 * h - 2) + Norm2(x[2 * h - 2]);
    }
  }

  lemma ButterflyEnergy(m: Libm, n: nat, k: nat, e: Complex, o: Complex)
    requires m.TrigLaws() && n > 0
    ensures Norm2(Add(e, Mul(Twiddle(m, n, k), o))) + Norm2(Sub(e, Mul(Twiddle(m, n, k), o))) == 2.0 * (Norm2(e) + Norm2(o))
  {
    hide *;
    var t := Mul(Twiddle(m, n, k), o);
    Parallelogram(e, t);
    NormMultiplies(Twiddle(m, n, k), o);
    TwiddleIsUnit(m, n, k);
  }

  /** The energy of the first k butterflies. */
  lemma {:induction false} CombineEnergy(m: Libm, x: seq<Complex>, even: seq<Complex>, odd: seq<Complex>, k: nat)
    requires m.TrigLaws() && |x| > 0 && |even| == |odd| == |x| / 2 && k <= |x| / 2
    ensures |Combine(m, x, even, odd)| == |x|
    ensures var y := Combine(m, x, even, odd);
            Energy(y, k) + Energy(y, |x| / 2 + k) - Energy(y, |x| / 2) == 2.0 * (Energy(even, k) + Energy(odd, k))
  {
    hide Mul, Add, Sub, Norm2, Combine, Libm.TrigLaws;
    CombineAt(m, x, even, odd, 0);
    if k > 0 {
      CombineEnergy(m, x, even, odd, k - 1);
      CombineAt(m, x, even, odd, k - 1);
      ButterflyEnergy(m, |x|, k - 1, even[k - 1], odd[k - 1]);
    }
  }

  lemma EnergyOfOne(m: Libm, x: seq<Complex>)
    requires |x| == 1
    ensures Energy(Transform(m, x), 1) == Times(|x| as real, Energy(x, 1))
  {
  }

  lemma TimesDoubles(r: real, n: real, a: real, b: real)
    requires n == 2.0 * r
    ensures 2.0 * (Times(r, a) + Times(r, b)) == Times(n, a + b)
  {
  }

  lemma {:induction false} EnergyTimesLength(m: Libm, x: seq<Complex>)
    requires m.TrigLaws() && IsPowerOfTwo(|x|)
    ensures Energy(Transform(m, x), |x|) == Times(|x| as real, Energy(x, |x|))
    decreases |x|
  {
    hide Energy, Times, Norm2, Transform, Libm.TrigLaws;
    if |x| == 1 {
      EnergyOfOne(m, x);
    } else {
      var h := |x| / 2;
      EnergyTimesLength(m, Evens(x));
      EnergyTimesLength(m, Odds(x));
      var e, o := Transform(m, Evens(x)), Transform(m, Odds(x));
      EvensOdds(x);
      TransformStep(m, x);
      CombineEnergy(m, x, e, o, h);
      EnergySplits(x, h);
      TimesDoubles(h as real, |x| as real, Energy(Evens(x), h), Energy(Odds(x), h));
    }
  }

  /** Parseval, by induction through the butterflies: the output carries n times the energy of the input. */
  lemma EnergyScales(m: Libm, x: seq<Complex>)
    requires m.TrigLaws() && IsPowerOfTwo(|x|)
    ensures Energy(Transform(m, x), |x|) == |x| as real * Energy(x, |x|)
  {
    hide Transform, Energy;
    EnergyTimesLength(m, x);
  }

  // ----- No information is lost

  function Difference(x: seq<Complex>, y: seq<Complex>): seq<Complex>
    requires |x| == |y|
  {
    seq(|x|, i requires 0 <= i < |x| => Sub(x[i], y[i]))
  }

  lemma SubtractTerms(a: Complex, b: Complex, x: Complex, y: Complex, w: Complex)
    ensures Add(Sub(a, b), Mul(Sub(x, y), w)) == Sub(Add(a, Mul(x, w)), Add(b, Mul(y, w)))
  {
  }

  lemma {:induction false} SumIsLinear(m: Libm, x: seq<Complex>, y: seq<Complex>, k: int, count: nat)
    requires |x| == |y| && count <= |x|
    ensures DftSum(m, Difference(x, y), k, count) == Sub(DftSum(m, x, k, count), DftSum(m, y, k, count))
  {
    if count == 0 {
    } else {
      SumIsLinear(m, x, y, k, count - 1);
      var i := count - 1;
      hide Add, Sub, Mul;
      SubtractTerms(DftSum(m, x, k, i), DftSum(m, y, k, i), x[i], y[i], Twiddle(m, |x|, i * k));
    }
  }

  lemma {:induction false} ZeroEnergyIsSilence(x: seq<Complex>, count: nat)
    requires count <= |x|
    ensures Energy(x, count) >= 0.0
    ensures Energy(x, count) == 0.0 ==> forall i :: 0 <= i < count ==> x[i] == ZERO
  {
    hide Norm2;
    if count > 0 {
      ZeroEnergyIsSilence(x, count - 1);
      NormIsPositive(x[count - 1]);
    }
  }

  lemma {:induction false} SilenceHasNoEnergy(x: seq<Complex>, count: nat)
    requires count <= |x| && forall i :: 0 <= i < |x| ==> x[i] == ZERO
    ensures Energy(x, count) == 0.0
  {
    if count > 0 {
      SilenceHasNoEnergy(x, count - 1);
    }
  }

  lemma DifferenceIsSilent(m: Libm, x: seq<Complex>, y: seq<Complex>, k: nat)
    requires m.TrigLaws() && IsPowerOfTwo(|x|) && |x| == |y| && k < |x|
    requires Transform(m, x) == Transform(m, y)
    ensures Transform(m, Difference(x, y))[k] == ZERO
  {
    hide Mul, Transform, Dft, DftSum, Libm.TrigLaws;
    var d := Difference(x, y);
    TransformIsDft(m, x);
    TransformIsDft(m, y);
    TransformIsDft(m, d);
    SumIsLinear(m, x, y, k, |x|);
    DftAt(m, x, k);
    DftAt(m, y, k);
    DftAt(m, d, k);
  }

  /** Two different signals never share a spectrum. */
  lemma TransformIsInjective(m: Libm, x: seq<Complex>, y: seq<Complex>)
    requires m.TrigLaws() && IsPowerOfTwo(|x|) && |x| == |y|
    requires Transform(m, x) == Transform(m, y)
    ensures x == y
  {
    hide Mul, Transform, Dft, DftSum, Energy, Libm.TrigLaws;
    var n, d := |x|, Difference(x, y);
    forall k | 0 <= k < n
      ensures Transform(m, d)[k] == ZERO
    {
      DifferenceIsSilent(m, x, y, k);
    }
    SilenceHasNoEnergy(Transform(m, d), n);
    EnergyScales(m, d);
    ProductIsZero(n as real, Energy(d, n));
    ZeroEnergyIsSilence(d, n);
    forall i | 0 <= i < n
      ensures x[i] == y[i]
    {
      assert d[i] == ZERO;
    }
  }

  lemma ProductIsZero(r: real, e: real)
    requires r > 0.0 && r * e == 0.0
    ensures e == 0.0
  {
  }

  // ----- Real signals

  predicate IsRealSignal(x: seq<Complex>) {
    forall i :: 0 <= i < |x| ==> x[i].im == 0.0
  }

  lemma MirroredIndex(n: int, i: int, k: int)
    ensures i * (n - k) == -(i * k) + n * i
  {
  }

  lemma MirroredTerm(m: Libm, a: Complex, n: nat, k: int, i: nat)
    requires m.TrigLaws() && n > 0 && a.im == 0.0
    ensures Mul(a, Twiddle(m, n, i * (n - k))) == Conj(Mul(a, Twiddle(m, n, i * k)))
  {
    var w := Twiddle(m, n, i * k);
    assert a == Conj(a);
    hide *;
    MirroredIndex(n, i, k);
    TwiddlePeriodic(m, n, -(i * k), i);
    TwiddleConjugates(m, n, i * k);
    ConjIsHomomorphism(a, w);
  }

  /** For a real signal the outputs at k and n - k are conjugate, so the first half tells all. */
  lemma {:induction false} RealSumMirrors(m: Libm, x: seq<Complex>, k: int, count: nat)
    requires m.TrigLaws() && IsRealSignal(x) && count <= |x|
    ensures DftSum(m, x, |x| - k, count) == Conj(DftSum(m, x, k, count))
  {
    if count == 0 {
    } else {
      RealSumMirrors(m, x, k, count - 1);
      var n, i := |x|, count - 1;
      MirroredTerm(m, x[i], n, k, i);
      hide *;
      ConjIsHomomorphism(DftSum(m, x, k, i), Mul(x[i], Twiddle(m, n, i * k)));
      DftSumStep(m, x, k, i);
      DftSumStep(m, x, n - k, i);
    }
  }

  lemma RealSpectrumMirrors(m: Libm, x: seq<Complex>, k: nat)
    requires m.TrigLaws() && IsPowerOfTwo(|x|) && IsRealSignal(x) && 0 < k < |x|
    ensures Transform(m, x)[|x| - k] == Conj(Transform(m, x)[k])
  {
    hide *;
    TransformIsDft(m, x);
    RealSumMirrors(m, x, k, |x|);
    DftAt(m, x, k);
    DftAt(m, x, |x| - k);
  }

  // ----- Zero padding

  lemma {:induction false} PaddedPrefix(m: Libm, x: seq<Complex>, k: int, count: nat)
    requires |x| > 0 && count <= |x|
    ensures DftSum(m, x + Silence(|x|), 2 * k, count) == DftSum(m, x, k, count)
  {
    hide Mul, Add;
    if count > 0 {
      PaddedPrefix(m, x, k, count - 1);
      assert (count - 1) * (2 * k) == 2 * ((count - 1) * k);
      TwiddleDoubles(m, |x|, (count - 1) * k);
    }
  }

  lemma {:induction false} PaddedTail(m: Libm, x: seq<Complex>, k: int, extra: nat)
    requires |x| > 0 && extra <= |x|
    ensures DftSum(m, x + Silence(|x|), k, |x| + extra) == DftSum(m, x + Silence(|x|), k, |x|)
  {
    if extra > 0 {
      PaddedTail(m, x, k, extra - 1);
    }
  }

  /** Padding a power-of-two signal with as many zeros keeps its spectrum in the even bins. */
  lemma PaddingKeepsEvenBins(m: Libm, x: seq<Complex>, k: nat)
    requires m.TrigLaws() && IsPowerOfTwo(|x|) && k < |x|
    ensures |Transform(m, x + Silence(|x|))| == 2 * |x|
    ensures Transform(m, x + Silence(|x|))[2 * k] == Transform(m, x)[k]
  {
    hide Mul, Transform, Dft, DftSum, Libm.TrigLaws;
    var y := x + Silence(|x|);
    TransformIsDft(m, x);
    TransformIsDft(m, y);
    DftAt(m, x, k);
    DftAt(m, y, 2 * k);
    PaddedTail(m, x, 2 * k, |x|);
    PaddedPrefix(m, x, k, |x|);
  }
}
