/** What the figures of a spectrum report mean for every signal. */
module SpectrumLaws {
  import opened Reals
  import opened ComplexNumbers
  import opened Trigonometry
  import opened FourierTransform
  import opened FourierLaws
  import opened SpectrumAnalysis

  // ----- Which bins are harmonics

  predicate Within(i: int, h: int, p: int) {
    -2 < i - h * p < 2
  }

  /** Bin i lies within one bin of a multiple of bin p, from the second to the tenth. */
  predicate BinIsHarmonic(i: int, p: int) {
    exists h :: 2 <= h <= 10 && Within(i, h, p)
  }

  lemma Reassociate(a: real, r: real, d: real)
    requires d != 0.0
    ensures a * r / d == a * (r / d)
  {
    var w := r / d;
    assert w * d == r;
    assert (a * w) * d == a * r;
    QuotientIs(a * w, a * r, d);
  }

  lemma FrequencyIsMultiple(i: int, rate: real, n: nat)
    requires n > 0
    ensures Frequency(i, rate, n) == i as real * (rate / n as real)
  {
    Reassociate(i as real, rate, n as real);
  }

  lemma ScaleOrder(a: real, b: real, w: real)
    requires w > 0.0
    ensures a * w < b * w <==> a < b
  {
    if a < b {
      assert (b - a) * w > 0.0;
    } else {
      assert (a - b) * w >= 0.0;
    }
  }

  lemma DistanceScales(i: real, h: real, p: real, w: real)
    ensures i * w - h * (p * w) == (i - h * p) * w
  {
    assert h * (p * w) == (h * p) * w;
  }

  lemma BandScales(d: real, a: real, w: real)
    requires w > 0.0 && d == a * w
    ensures -(w * 2.0) < d < w * 2.0 <==> -2.0 < a < 2.0
  {
    ScaleOrder(a, 2.0, w);
    ScaleOrder(-2.0, a, w);
  }

  lemma CastOffset(i: nat, h: nat, p: nat)
    ensures (i - h * p) as real == i as real - h as real * p as real
  {
    assert (h * p) as real == h as real * p as real;
  }

  lemma NearByIndex(i: nat, h: nat, p: nat, rate: real, n: nat)
    requires n > 0 && rate > 0.0
    ensures Near(Frequency(i, rate, n), h, Frequency(p, rate, n), rate / n as real) <==> Within(i, h, p)
  {
    var w := rate / n as real;
    assert w > 0.0;
    FrequencyIsMultiple(i, rate, n);
    FrequencyIsMultiple(p, rate, n);
    DistanceScales(i as real, h as real, p as real, w);
    CastOffset(i, h, p);
    var d := Frequency(i, rate, n) - h as real * Frequency(p, rate, n);
    hide Frequency;
    BandScales(d, (i - h * p) as real, w);
  }

  lemma NothingNear(freq: real, h: nat, fundamental: real, width: real)
    requires width <= 0.0
    ensures !Near(freq, h, fundamental, width)
  {
    assert -(width * 2.0) >= 0.0 >= width * 2.0;
  }

  /** The frequency test of the report is a test on bin numbers; at a rate of zero or below nothing passes it. */
  lemma HarmonicByIndex(i: nat, p: nat, rate: real, n: nat)
    requires n > 0
    ensures IsHarmonic(Frequency(i, rate, n), Frequency(p, rate, n), rate / n as real) <==> rate > 0.0 && BinIsHarmonic(i, p)
  {
    hide Near, Frequency, Within;
    var freq, f, w := Frequency(i, rate, n), Frequency(p, rate, n), rate / n as real;
    if IsHarmonic(freq, f, w) {
      var h :| FIRST_HARMONIC <= h <= LAST_HARMONIC && Near(freq, h, f, w);
      if rate > 0.0 {
        NearByIndex(i, h, p, rate, n);
      } else {
        NoWidth(rate, n);
        NothingNear(freq, h, f, w);
      }
    }
    if rate > 0.0 && BinIsHarmonic(i, p) {
      var h :| FIRST_HARMONIC <= h <= LAST_HARMONIC && Within(i, h, p);
      NearByIndex(i, h, p, rate, n);
    }
  }

  lemma NoWidth(rate: real, n: nat)
    requires n > 0 && rate <= 0.0
    ensures rate / n as real <= 0.0
  {
  }

  // ----- A peak at bin 0 has no harmonics

  lemma {:induction false} NoHarmonicOfZero(mags: seq<real>, count: nat, rate: real, n: nat)
    requires count <= |mags| && n > 0
    ensures Power(mags, count, rate, n, Frequency(0, rate, n), true) == 0.0
  {
    hide Frequency, IsHarmonic;
    if count > 2 {
      NoHarmonicOfZero(mags, count - 1, rate, n);
      HarmonicByIndex(count - 1, 0, rate, n);
    }
  }

  lemma RootOfZero(m: Libm)
    requires m.RootLaws()
    ensures m.sqrt(0.0) == 0.0
  {
    var s := m.sqrt(0.0);
    assert s >= 0.0 && s * s == 0.0;
    SignOfProduct(s, s);
    assert Times(s, s) == s * s;
  }

  /** A signal whose spectrum peaks at bin 0 is reported with no distortion at all. */
  lemma DcPeakHasNoDistortion(m: Libm, rate: real, mags: seq<real>, n: nat, numPoints: nat)
    requires m.RootLaws() && n > 0 && |mags| > 0
    ensures ReportOf(m, rate, mags, n, 0, numPoints).thd == 0.0
  {
    hide Frequency, Points;
    NoHarmonicOfZero(mags, |mags|, rate, n);
    RootOfZero(m);
  }

  // ----- The fundamental is counted as noise

  lemma PeakIsNotItsHarmonic(p: nat)
    requires p >= 2
    ensures !BinIsHarmonic(p, p)
  {
    forall h | FIRST_HARMONIC <= h <= LAST_HARMONIC
      ensures !Within(p, h, p)
    {
      assert h * p >= 2 * p;
    }
  }

  lemma {:induction false} NoiseHoldsBin(mags: seq<real>, count: nat, rate: real, n: nat, p: nat)
    requires count <= |mags| && n > 0 && 2 <= p < count
    ensures Power(mags, count, rate, n, Frequency(p, rate, n), false) >= mags[p] * mags[p]
  {
    hide Frequency, IsHarmonic;
    var f := Frequency(p, rate, n);
    if count == p + 1 {
      HarmonicByIndex(p, p, rate, n);
      PeakIsNotItsHarmonic(p);
      PowerIsPositive(mags, p, rate, n, f, false);
    } else {
      NoiseHoldsBin(mags, count - 1, rate, n, p);
      SquareAtLeastZero(mags[count - 1]);
    }
  }

  lemma RatioBelowOne(a: real, b: real)
    requires 0.0 < a <= b
    ensures 0.0 < a / (b + EPSILON) < 1.0
  {
    var d := b + EPSILON;
    assert a / d * d == a;
  }

  /** The bin of the fundamental itself is filed under noise, so from bin 2 on the reported ratio is below 0 dB. */
  lemma RatioIsNegative(m: Libm, rate: real, mags: seq<real>, n: nat, p: nat, numPoints: nat)
    requires m.LogLaws() && n > 0 && 2 <= p < |mags| && mags[p] > 0.0
    ensures ReportOf(m, rate, mags, n, p, numPoints).snr < 0.0
  {
    hide Frequency, Points;
    var noise := Power(mags, |mags|, rate, n, Frequency(p, rate, n), false);
    NoiseHoldsBin(mags, |mags|, rate, n, p);
    PowerIsPositive(mags, |mags|, rate, n, Frequency(p, rate, n), false);
    SignOfProduct(mags[p], mags[p]);
    RatioBelowOne(Times(mags[p], mags[p]), noise);
  }

  // ----- Power is conserved

  /** The power of the bins from 2 up to `count`. */
  function Total(x: seq<Complex>, count: nat): real
    requires count <= |x|
  {
    if count <= 2 then 0.0 else Total(x, count - 1) + Norm2(x[count - 1])
  }

  lemma SquareOfModulus(m: Libm, z: Complex)
    requires m.RootLaws()
    ensures m.Abs(z) * m.Abs(z) == Norm2(z)
  {
    NormIsPositive(z);
    hide Norm2;
  }

  lemma {:induction false} SplitIsComplete(m: Libm, x: seq<Complex>, count: nat, rate: real, n: nat, f: real)
    requires m.RootLaws() && n > 0 && count <= |x| / 2
    ensures Power(Magnitudes(m, x), count, rate, n, f, true) + Power(Magnitudes(m, x), count, rate, n, f, false)
         == Total(x, count)
  {
    hide Frequency, IsHarmonic, Norm2, Libm.Abs, Libm.RootLaws;
    if count > 2 {
      SplitIsComplete(m, x, count - 1, rate, n, f);
      SquareOfModulus(m, x[count - 1]);
    }
  }

  lemma {:induction false} TotalIsEnergy(x: seq<Complex>, count: nat)
    requires 2 <= count <= |x|
    ensures Energy(x, count) == Norm2(x[0]) + Norm2(x[1]) + Total(x, count)
  {
    hide Norm2;
    if count > 2 {
      TotalIsEnergy(x, count - 1);
    } else {
      assert Energy(x, 1) == Energy(x, 0) + Norm2(x[0]);
    }
  }

  lemma ConjKeepsNorm(z: Complex)
    ensures Norm2(Conj(z)) == Norm2(z)
  {
  }

  /** The upper half of a real signal's spectrum repeats the energy of the lower half. */
  lemma {:induction false} MirroredEnergy(m: Libm, x: seq<Complex>, k: nat)
    requires m.TrigLaws() && IsPowerOfTwo(|x|) && IsRealSignal(x) && |x| >= 2 && k < |x| / 2
    ensures var y, h := Transform(m, x), |x| / 2;
            Energy(y, h + 1 + k) - Energy(y, h + 1) == Energy(y, h) - Energy(y, h - k)
  {
    hide Norm2, Transform, Libm.TrigLaws;
    var y, h := Transform(m, x), |x| / 2;
    if k > 0 {
      MirroredEnergy(m, x, k - 1);
      RealSpectrumMirrors(m, x, h - k);
      ConjKeepsNorm(y[h - k]);
      assert |x| - (h - k) == h + k;
      assert Energy(y, h + 1 + k) == Energy(y, h + k) + Norm2(y[h + k]);
      assert Energy(y, h - k + 1) == Energy(y, h - k) + Norm2(y[h - k]);
    }
  }

  /** Harmonic and noise power together, as the report files them. */
  function SplitPowers(m: Libm, y: seq<Complex>, rate: real, f: real): real
    requires |y| > 0
  {
    Power(Magnitudes(m, y), |y| / 2, rate, |y|, f, true) + Power(Magnitudes(m, y), |y| / 2, rate, |y|, f, false)
  }

  lemma IsRealData(data: seq<real>)
    ensures |ToComplex(data)| == |data| && IsRealSignal(ToComplex(data))
  {
  }

  lemma EvenLength(n: nat)
    requires IsPowerOfTwo(n) && n >= 2
    ensures n % 2 == 0
  {
  }

  lemma EnergyStep(y: seq<Complex>, h: nat)
    requires h < |y|
    ensures Energy(y, h + 1) == Energy(y, h) + Norm2(y[h])
    ensures Energy(y, 1) == Norm2(y[0])
  {
    hide Norm2;
    assert Energy(y, 1) == Energy(y, 0) + Norm2(y[0]);
  }

  lemma HalfEnergy(m: Libm, y: seq<Complex>, rate: real, f: real)
    requires m.RootLaws() && |y| >= 4
    ensures SplitPowers(m, y, rate, f) + Norm2(y[0]) + Norm2(y[1]) == Energy(y, |y| / 2)
  {
    hide Norm2, Power, Energy;
    SplitIsComplete(m, y, |y| / 2, rate, |y|, f);
    TotalIsEnergy(y, |y| / 2);
  }

  /** Harmonic and noise power together are half the signal's energy, less the bins the loop leaves out. */
  lemma PowerIsConserved(m: Libm, data: seq<real>, rate: real, f: real)
    requires m.TrigLaws() && m.RootLaws() && IsPowerOfTwo(|data|) && |data| >= 4
    ensures var y := Transform(m, ToComplex(data));
            2.0 * SplitPowers(m, y, rate, f) + Norm2(y[0]) + 2.0 * Norm2(y[1]) + Norm2(y[|data| / 2])
            == |data| as real * Energy(ToComplex(data), |data|)
  {
    hide *;
    var n, x := |data|, ToComplex(data);
    IsRealData(data);
    var y, h := Transform(m, x), n / 2;
    HalfEnergy(m, y, rate, f);
    assert h + 1 + (h - 1) == n by {
      EvenLength(n);
    }
    MirroredEnergy(m, x, h - 1);
    EnergyStep(y, h);
    EnergyScales(m, x);
  }

  // ----- The peak

  /** A spectrum has exactly one peak: nothing before it is as great, nothing behind it is greater. */
  lemma PeakIsUnique(mags: seq<real>, p: nat, q: nat)
    requires IsPeak(mags, p) && q < |mags|
    ensures IsPeak(mags, q) <==> q == p
    ensures q < p ==> mags[q] < mags[p]
    ensures q > p ==> mags[q] <= mags[p]
  {
  }
}
