/** What the windows weigh and what the figures of a report say, in numbers. */
module ReportLaws {
  import opened Reals
  import opened ComplexNumbers
  import opened Trigonometry
  import opened FourierTransform
  import opened SpectrumAnalysis
  import opened FftTones

  // ----- The cosine at the quarters of a turn

  lemma PolarLaws(m: Libm, a: real, b: real)
    requires m.TrigLaws()
    ensures m.Polar(0.0) == ONE && m.Polar(-m.pi) == Neg(ONE)
    ensures m.Polar(a + b) == Mul(m.Polar(a), m.Polar(b))
    ensures m.Polar(-a) == Conj(m.Polar(a))
  {
    assert m.Polar(Plus(a, b)) == Mul(m.Polar(a), m.Polar(b));
    assert m.Polar(Opposite(a)) == Conj(m.Polar(a));
  }

  lemma UnitSquares()
    ensures Mul(Neg(ONE), Neg(ONE)) == ONE && Conj(Neg(ONE)) == Neg(ONE)
  {
    NegOneNegates(Neg(ONE));
    hide Mul;
  }

  lemma PolarOfTurns(m: Libm)
    requires m.TrigLaws()
    ensures m.Polar(0.0) == ONE && m.Polar(m.pi) == Neg(ONE) && m.Polar(2.0 * m.pi) == ONE
    ensures Mul(m.Polar(m.pi / 2.0), m.Polar(m.pi / 2.0)) == Neg(ONE)
  {
    hide Libm.TrigLaws, Libm.Polar, Mul, Conj;
    UnitSquares();
    PolarLaws(m, -m.pi, 0.0);
    PolarLaws(m, m.pi, m.pi);
    PolarLaws(m, m.pi / 2.0, m.pi / 2.0);
    assert -(-m.pi) == m.pi && m.pi + m.pi == 2.0 * m.pi && m.pi / 2.0 + m.pi / 2.0 == m.pi;
  }

  lemma CosineOfQuarters(m: Libm)
    requires m.TrigLaws()
    ensures m.cos(0.0) == 1.0 && m.cos(m.pi) == -1.0 && m.cos(2.0 * m.pi) == 1.0
    ensures m.cos(m.pi / 2.0) == 0.0
  {
    PolarOfTurns(m);
    hide Libm.TrigLaws;
    RootOfMinusOne(m.Polar(m.pi / 2.0));
  }

  lemma RootOfMinusOne(z: Complex)
    requires Mul(z, z) == Neg(ONE)
    ensures z.re == 0.0
  {
    SignOfProduct(z.re, z.im);
    assert Times(z.re, z.im) + Times(z.re, z.im) == 0.0;
    SignOfProduct(z.re, z.re);
    assert Times(z.re, z.re) == z.re * z.re;
  }

  lemma CosineMirrors(m: Libm, a: real)
    requires m.TrigLaws()
    ensures m.cos(2.0 * m.pi - a) == m.cos(a)
  {
    PolarOfTurns(m);
    PolarLaws(m, 2.0 * m.pi, -a);
    PolarLaws(m, a, 0.0);
    hide Libm.TrigLaws, Mul;
    MulOne(m.Polar(-a));
    assert 2.0 * m.pi + -a == 2.0 * m.pi - a;
  }

  lemma CosineMirrorsTwice(m: Libm, a: real)
    requires m.TrigLaws()
    ensures m.cos(4.0 * m.pi - a) == m.cos(a)
  {
    CosineMirrors(m, a - 2.0 * m.pi);
    CosineMirrors(m, 4.0 * m.pi - a);
    CosineMirrors(m, a);
    assert 2.0 * m.pi - (a - 2.0 * m.pi) == 4.0 * m.pi - a;
    assert 2.0 * m.pi - (4.0 * m.pi - a) == a - 2.0 * m.pi;
    FullTurn(m, a - 2.0 * m.pi);
  }

  lemma FullTurn(m: Libm, a: real)
    requires m.TrigLaws()
    ensures m.cos(a + 2.0 * m.pi) == m.cos(a)
  {
    PolarOfTurns(m);
    PolarLaws(m, a, 2.0 * m.pi);
    hide Libm.TrigLaws, Mul;
    MulOne(m.Polar(a));
  }

  // ----- The windows

  lemma PartOfTurn(m: Libm, turns: real, i: nat, n: nat, angle: real)
    requires n > 1 && turns * m.pi * i as real == angle * (n - 1) as real
    ensures WindowAngle(m, turns, i, n) == angle
  {
    QuotientIs(angle, turns * m.pi * i as real, (n - 1) as real);
  }

  lemma QuarterAngles(m: Libm, i: nat, n: nat)
    requires n > 1
    ensures i == 0 ==> WindowAngle(m, 2.0, i, n) == 0.0
    ensures i == n - 1 ==> WindowAngle(m, 2.0, i, n) == 2.0 * m.pi
    ensures 2 * i == n - 1 ==> WindowAngle(m, 2.0, i, n) == m.pi
    ensures 4 * i == n - 1 ==> WindowAngle(m, 2.0, i, n) == m.pi / 2.0
  {
    if i == 0 {
      PartOfTurn(m, 2.0, i, n, 0.0);
    }
    if i == n - 1 {
      PartOfTurn(m, 2.0, i, n, 2.0 * m.pi);
    }
    if 2 * i == n - 1 {
      HalfAngle(m.pi, i as real, (n - 1) as real);
      PartOfTurn(m, 2.0, i, n, m.pi);
    }
    if 4 * i == n - 1 {
      QuarterAngle(m.pi, i as real, (n - 1) as real);
      PartOfTurn(m, 2.0, i, n, m.pi / 2.0);
    }
  }

  lemma HalfAngle(pi: real, j: real, d: real)
    requires d == 2.0 * j
    ensures 2.0 * pi * j == pi * d
  {
  }

  lemma QuarterAngle(pi: real, j: real, d: real)
    requires d == 4.0 * j
    ensures 2.0 * pi * j == pi / 2.0 * d
  {
  }

  lemma AngleTimes(m: Libm, turns: real, i: nat, n: nat)
    requires n > 1
    ensures WindowAngle(m, turns, i, n) * (n - 1) as real == turns * m.pi * i as real
  {
  }

  lemma MirroredAngle(c: real, d: real, j: real, w: real)
    requires w * d == c * j
    ensures c * (d - j) == (c - w) * d
  {
  }

  lemma AngleMirrors(m: Libm, turns: real, i: nat, n: nat)
    requires n > 1 && i < n
    ensures WindowAngle(m, turns, n - 1 - i, n) == turns * m.pi - WindowAngle(m, turns, i, n)
  {
    AngleTimes(m, turns, i, n);
    hide WindowAngle;
    var w := WindowAngle(m, turns, i, n);
    assert (n - 1 - i) as real == (n - 1) as real - i as real;
    MirroredAngle(turns * m.pi, (n - 1) as real, i as real, w);
    PartOfTurn(m, turns, n - 1 - i, n, turns * m.pi - w);
  }

  lemma TwiceTheAngle(m: Libm, i: nat, n: nat)
    requires n > 1
    ensures WindowAngle(m, 4.0, i, n) == 2.0 * WindowAngle(m, 2.0, i, n)
  {
    AngleTimes(m, 2.0, i, n);
    hide WindowAngle;
    Doubled(m.pi, i as real, WindowAngle(m, 2.0, i, n), (n - 1) as real);
    PartOfTurn(m, 4.0, i, n, 2.0 * WindowAngle(m, 2.0, i, n));
  }

  lemma Doubled(pi: real, j: real, w: real, d: real)
    requires w * d == 2.0 * pi * j
    ensures 4.0 * pi * j == 2.0 * w * d
  {
  }

  lemma SameCosine(m: Libm, a: real, b: real)
    requires a == b
    ensures m.cos(a) == m.cos(b)
  {
  }

  lemma WeightsByAngle(m: Libm, i: nat, n: nat)
    requires n > 1
    ensures var a, b := m.cos(WindowAngle(m, 2.0, i, n)), m.cos(WindowAngle(m, 4.0, i, n));
            && Weight(m, "hanning", i, n) == 0.5 - 0.5 * a
            && Weight(m, "hamming", i, n) == 0.54 - 0.46 * a
            && Weight(m, "blackman", i, n) == 0.42 - 0.5 * a + 0.08 * b
  {
    hide WindowAngle;
    assert "hanning"[2] == 'n' && "hamming"[2] == 'm';
    assert "blackman"[0] == 'b' && "hanning"[0] == 'h' && "hamming"[0] == 'h';
  }

  /** The windows at the ends, in the middle and a quarter in. */
  lemma WindowsWeigh(m: Libm, i: nat, n: nat)
    requires m.TrigLaws() && n > 1
    ensures i == 0 || i == n - 1 ==>
              Weight(m, "hanning", i, n) == 0.0 && Weight(m, "hamming", i, n) == 0.08 && Weight(m, "blackman", i, n) == 0.0
    ensures 2 * i == n - 1 ==>
              Weight(m, "hanning", i, n) == 1.0 && Weight(m, "hamming", i, n) == 1.0 && Weight(m, "blackman", i, n) == 1.0
    ensures 4 * i == n - 1 ==>
              Weight(m, "hanning", i, n) == 0.5 && Weight(m, "hamming", i, n) == 0.54 && Weight(m, "blackman", i, n) == 0.34
  {
    CosineOfQuarters(m);
    QuarterAngles(m, i, n);
    TwiceTheAngle(m, i, n);
    WeightsByAngle(m, i, n);
    FullTurn(m, 2.0 * m.pi);
    hide Weight, WindowAngle, Libm.TrigLaws;
    var a, b := WindowAngle(m, 2.0, i, n), WindowAngle(m, 4.0, i, n);
    if i == 0 {
      SameCosine(m, b, 0.0);
    }
    if i == n - 1 {
      SameCosine(m, b, 2.0 * m.pi + 2.0 * m.pi);
    }
    if 2 * i == n - 1 {
      SameCosine(m, b, 2.0 * m.pi);
    }
    if 4 * i == n - 1 {
      SameCosine(m, b, m.pi);
    }
  }

  /** A window is the same forwards and backwards. */
  lemma WindowsAreSymmetric(m: Libm, i: nat, n: nat)
    requires m.TrigLaws() && n > 1 && i < n
    ensures Weight(m, "hanning", n - 1 - i, n) == Weight(m, "hanning", i, n)
    ensures Weight(m, "hamming", n - 1 - i, n) == Weight(m, "hamming", i, n)
    ensures Weight(m, "blackman", n - 1 - i, n) == Weight(m, "blackman", i, n)
  {
    WeightsByAngle(m, i, n);
    WeightsByAngle(m, n - 1 - i, n);
    AngleMirrors(m, 2.0, i, n);
    AngleMirrors(m, 4.0, i, n);
    CosineMirrors(m, WindowAngle(m, 2.0, i, n));
    CosineMirrorsTwice(m, WindowAngle(m, 4.0, i, n));
    hide Weight, WindowAngle, Libm.TrigLaws;
    SameCosine(m, WindowAngle(m, 2.0, n - 1 - i, n), 2.0 * m.pi - WindowAngle(m, 2.0, i, n));
    SameCosine(m, WindowAngle(m, 4.0, n - 1 - i, n), 4.0 * m.pi - WindowAngle(m, 4.0, i, n));
  }

  // ----- Frequencies

  /** Bin p is the frequency of the tone it finds: sampled at the given rate, that tone turns p times in n samples. */
  lemma BinIsFrequency(m: Libm, p: nat, i: nat, n: nat, rate: real)
    requires n > 0 && rate != 0.0
    ensures 2.0 * m.pi * Frequency(p, rate, n) * (i as real / rate) == ToneAngle(m.pi, p, i, n)
  {
    var c, d, k, j := 2.0 * m.pi, n as real, p as real, i as real;
    var f, t := Frequency(p, rate, n), j / rate;
    CastProduct(p, i);
    assert f * d == k * rate && t * rate == j;
    BinTimes(c, k, j, rate, d, f, t);
    QuotientIs(c * f * t, c * (p * i) as real, d);
  }

  lemma CastProduct(p: nat, i: nat)
    ensures (p * i) as real == p as real * i as real
  {
  }

  lemma BinTimes(c: real, k: real, j: real, rate: real, d: real, f: real, t: real)
    requires f * d == k * rate && t * rate == j && rate != 0.0
    ensures c * f * t * d == c * (k * j)
  {
    assert c * f * t * d == c * ((f * d) * t);
    assert (k * rate) * t == k * (t * rate);
  }

  // ----- The figures

  /** The squared distortion is the harmonic power in ten-thousandths of the squared peak; without a peak it is 0. */
  lemma DistortionIsPercentage(m: Libm, peak: real, harmonic: real)
    requires m.RootLaws() && harmonic >= 0.0
    ensures var thd := HarmonicDistortion(m, peak, harmonic);
            && thd >= 0.0
            && (peak > 0.0 ==> (thd * peak) * (thd * peak) == 10000.0 * harmonic)
            && (peak <= 0.0 ==> thd == 0.0)
  {
    if peak > 0.0 {
      var r := m.sqrt(harmonic);
      assert r >= 0.0 && r * r == harmonic;
      var thd := HarmonicDistortion(m, peak, harmonic);
      assert thd * peak == 100.0 * r;
      SquareOfHundredfold(thd * peak, r);
      QuotientSign(100.0 * r, peak);
    }
  }

  lemma SquareOfHundredfold(x: real, r: real)
    requires x == 100.0 * r
    ensures x * x == 10000.0 * (r * r)
  {
  }

  lemma QuotientSign(a: real, b: real)
    requires a >= 0.0 && b > 0.0
    ensures a / b >= 0.0
  {
  }

  /** The common logarithm counts decades. */
  ghost predicate DecadeLaws(m: Libm) {
    m.log10(1.0) == 0.0 && forall x: real :: x > 0.0 ==> m.log10(10.0 * x) == m.log10(x) + 1.0
  }

  /** A magnitude that makes up one sample in n is at 0 dB, and ten times the magnitude is 20 dB more. */
  lemma DecibelsCountDecades(m: Libm, mag: real, louder: real, n: nat)
    requires DecadeLaws(m) && n > 0 && mag >= 0.0
    requires louder / n as real + 0.000000000001 == 10.0 * (mag / n as real + 0.000000000001)
    ensures Decibels(m, louder, n) == Decibels(m, mag, n) + 20.0
    ensures mag / n as real + 0.000000000001 == 1.0 ==> Decibels(m, mag, n) == 0.0
  {
    QuotientSign(mag, n as real);
  }

  /** Equal power of signal and noise is 0 dB, ten times the power ratio 10 dB more, and silence -120 dB. */
  lemma RatioCountsDecades(m: Libm, peak: real, stronger: real, noise: real, less: real)
    requires DecadeLaws(m) && peak > 0.0 && stronger > 0.0 && noise >= 0.0 && less >= 0.0
    requires stronger * stronger / (less + 0.000000000001) == 10.0 * (peak * peak / (noise + 0.000000000001))
    ensures SignalToNoise(m, stronger, less) == SignalToNoise(m, peak, noise) + 10.0
    ensures peak * peak == noise + 0.000000000001 ==> SignalToNoise(m, peak, noise) == 0.0
    ensures SignalToNoise(m, 0.0, noise) == -120.0
  {
    SignOfProduct(peak, peak);
    assert Times(peak, peak) == peak * peak;
    PositiveQuotient(peak * peak, noise + 0.000000000001);
  }

  lemma PositiveQuotient(a: real, b: real)
    requires a > 0.0 && b > 0.0
    ensures a / b > 0.0
    ensures a == b ==> a / b == 1.0
  {
  }

  /** The fields of a report, in terms of the signal. */
  lemma ReportFields(m: Libm, window: string, rate: real, signal: seq<real>, r: Report, n: nat, p: nat)
    requires IsReport(m, window, rate, signal, r, n, p)
    ensures r.sampleRate == rate && r.numPoints == |signal| && |r.spectrum| == n / 2
    ensures r.fundamentalFreq == p as real * rate / n as real
    ensures forall i :: 0 <= i < n / 2 ==> r.spectrum[i].frequency == i as real * rate / n as real
  {
    hide Power, Decibels, BinMagnitudes, IsPowerOfTwo;
  }
}
