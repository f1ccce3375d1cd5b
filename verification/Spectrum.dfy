/** The numeric part of the spectrum report: padding, window, peak search and the harmonic/noise split. */
module SpectrumAnalysis {
  import opened ComplexNumbers
  import opened Trigonometry
  import opened FourierTransform

  const EPSILON := 0.000000000001
  const FIRST_HARMONIC := 2
  const LAST_HARMONIC := 10

  datatype Point = Point(frequency: real, magnitude: real)

  datatype Report = Report(spectrum: seq<Point>, sampleRate: real, fundamentalFreq: real,
                           thd: real, snr: real, numPoints: nat)

  // ----- What the report is about

  /** An angle of a window function at sample i of n: `turns` times pi i / (n - 1). */
  function WindowAngle(m: Libm, turns: real, i: nat, n: nat): real
    requires n != 1
  {
    turns * m.pi * i as real / (n - 1) as real
  }

  function Weight(m: Libm, window: string, i: nat, n: nat): real
    requires n != 1
  {
    if window == "hanning" then 0.5 * (1.0 - m.cos(WindowAngle(m, 2.0, i, n)))
    else if window == "hamming" then 0.54 - 0.46 * m.cos(WindowAngle(m, 2.0, i, n))
    else if window == "blackman" then
      0.42 - 0.5 * m.cos(WindowAngle(m, 2.0, i, n)) + 0.08 * m.cos(WindowAngle(m, 4.0, i, n))
    else 1.0
  }

  function Windowed(m: Libm, window: string, data: seq<real>): seq<real>
    requires |data| != 1
  {
    seq(|data|, i requires 0 <= i < |data| => data[i] * Weight(m, window, i, |data|))
  }

  lemma WindowedAt(m: Libm, window: string, data: seq<real>, i: nat)
    requires |data| != 1
    ensures |Windowed(m, window, data)| == |data|
    ensures i < |data| ==> Windowed(m, window, data)[i] == data[i] * Weight(m, window, i, |data|)
  {
  }

  lemma NoWindow(m: Libm, data: seq<real>)
    requires |data| != 1
    ensures Windowed(m, "none", data) == data
  {
    hide Weight;
    forall i | 0 <= i < |data|
      ensures Weight(m, "none", i, |data|) == 1.0
    {
      UnitWeight(m, i, |data|);
    }
    forall i | 0 <= i < |data|
      ensures Windowed(m, "none", data)[i] == data[i]
    {
    }
  }

  lemma UnitWeight(m: Libm, i: nat, n: nat)
    requires n != 1
    ensures Weight(m, "none", i, n) == 1.0
  {
    assert "none"[0] == 'n';
    assert "hanning"[0] == 'h' && "hamming"[0] == 'h' && "blackman"[0] == 'b';
  }

  function Padded(signal: seq<real>, n: nat): seq<real>
    requires |signal| <= n
  {
    signal + seq(n - |signal|, i => 0.0)
  }

  function ToComplex(data: seq<real>): seq<Complex> {
    seq(|data|, i requires 0 <= i < |data| => Complex(data[i], 0.0))
  }

  /** The moduli of the first half of a spectrum. */
  function Magnitudes(m: Libm, x: seq<Complex>): seq<real> {
    seq(|x| / 2, i requires 0 <= i < |x| / 2 => m.Abs(x[i]))
  }

  /** The frequency of bin i of n. */
  function Frequency(i: int, rate: real, n: nat): real
    requires n > 0
  {
    i as real * rate / n as real
  }

  /** p is the first bin of greatest magnitude. */
  ghost predicate IsPeak(mags: seq<real>, p: nat) {
    && p < |mags|
    && (forall i :: 0 <= i < |mags| ==> mags[i] <= mags[p])
    && (forall i :: 0 <= i < p ==> mags[i] < mags[p])
  }

  predicate Near(freq: real, h: nat, fundamental: real, width: real) {
    -(width * 2.0) < freq - h as real * fundamental < width * 2.0
  }

  predicate IsHarmonic(freq: real, fundamental: real, width: real) {
    exists h :: FIRST_HARMONIC <= h <= LAST_HARMONIC && Near(freq, h, fundamental, width)
  }

  /** The power of the bins from 2 up to `count` that are, or are not, near a harmonic. */
  function Power(mags: seq<real>, count: nat, rate: real, n: nat, fundamental: real, harmonic: bool): real
    requires count <= |mags| && n > 0
  {
    if count <= 2 then 0.0
    else
      Power(mags, count - 1, rate, n, fundamental, harmonic)
      + if IsHarmonic(Frequency(count - 1, rate, n), fundamental, rate / n as real) == harmonic
        then mags[count - 1] * mags[count - 1] else 0.0
  }

  function HarmonicDistortion(m: Libm, peak: real, harmonic: real): real {
    if peak > 0.0 then 100.0 * m.sqrt(harmonic) / peak else 0.0
  }

  function SignalToNoise(m: Libm, peak: real, noise: real): real
    requires noise + EPSILON != 0.0
  {
    if peak > 0.0 then 10.0 * m.log10(peak * peak / (noise + EPSILON)) else -120.0
  }

  function Decibels(m: Libm, mag: real, n: nat): real
    requires n > 0
  {
    20.0 * m.log10(mag / n as real + EPSILON)
  }

  function Points(m: Libm, mags: seq<real>, rate: real, n: nat): seq<Point>
    requires n > 0
  {
    seq(|mags|, i requires 0 <= i < |mags| => Point(Frequency(i, rate, n), Decibels(m, mags[i], n)))
  }

  /** The magnitudes the report is built from: the plain Fourier sum of the padded, windowed signal. */
  function BinMagnitudes(m: Libm, window: string, signal: seq<real>, n: nat): (mags: seq<real>)
    requires |signal| <= n && n != 1
    ensures |mags| == n / 2
  {
    Magnitudes(m, Dft(m, ToComplex(Windowed(m, window, Padded(signal, n)))))
  }

  function ReportOf(m: Libm, rate: real, mags: seq<real>, n: nat, p: nat, numPoints: nat): Report
    requires n > 0 && p < |mags|
  {
    var fundamental := Frequency(p, rate, n);
    var noise := Power(mags, |mags|, rate, n, fundamental, false);
    PowerIsPositive(mags, |mags|, rate, n, fundamental, false);
    Report(Points(m, mags, rate, n), rate, fundamental,
           HarmonicDistortion(m, mags[p], Power(mags, |mags|, rate, n, fundamental, true)),
           SignalToNoise(m, mags[p], noise), numPoints)
  }

  /** The report on a signal, padded to n samples, whose spectrum has its first greatest magnitude at bin p. */
  ghost predicate IsReport(m: Libm, window: string, rate: real, signal: seq<real>, r: Report, n: nat, p: nat) {
    && IsPowerOfTwo(n) && n >= 2 && |signal| <= n / 2
    && (|signal| >= 1 ==> n < 4 * |signal|)
    && IsPeak(BinMagnitudes(m, window, signal, n), p)
    && r == ReportOf(m, rate, BinMagnitudes(m, window, signal, n), n, p, |signal|)
  }

  lemma SquareAtLeastZero(x: real)
    ensures x * x >= 0.0
  {
  }

  lemma {:induction false} PowerIsPositive(mags: seq<real>, count: nat, rate: real, n: nat, fundamental: real, harmonic: bool)
    requires count <= |mags| && n > 0
    ensures Power(mags, count, rate, n, fundamental, harmonic) >= 0.0
  {
    hide Frequency, IsHarmonic;
    if count > 2 {
      PowerIsPositive(mags, count - 1, rate, n, fundamental, harmonic);
      SquareAtLeastZero(mags[count - 1]);
    }
  }

  lemma FrequencyOfZero(rate: real, n: nat)
    requires n > 0
    ensures Frequency(0, rate, n) == 0.0
  {
    assert 0 as real * rate == 0.0;
  }

  lemma ModuliArePositive(m: Libm, x: seq<Complex>)
    requires m.RootLaws()
    ensures forall i :: 0 <= i < |x| / 2 ==> Magnitudes(m, x)[i] >= 0.0
  {
    forall i | 0 <= i < |x| / 2
      ensures Magnitudes(m, x)[i] >= 0.0
    {
      NormIsPositive(x[i]);
    }
  }

  // ----- The engine

  class FftEngine {
    const math: Libm
    var sampleRate: real
    var windowType: string

    constructor (math: Libm)
      ensures this.math == math && sampleRate == 1000.0 && windowType == "hanning"
    {
      this.math := math;
      sampleRate := 1000.0;
      windowType := "hanning";
    }

    method SetSampleRate(rate: real)
      modifies this`sampleRate
      ensures sampleRate == rate
    {
      sampleRate := rate;
    }

    method SetWindowType(window: string)
      modifies this`windowType
      ensures windowType == window
    {
      windowType := window;
    }

    method ApplyWindow(data: array<real>)
      requires data.Length != 1
      modifies data
      ensures data[..] == Windowed(math, windowType, old(data[..]))
    {
      hide Weight, Windowed;
      ghost var was := data[..];
      ghost var result := Windowed(math, windowType, was);
      WindowedAt(math, windowType, was, 0);
      if windowType == "none" {
        NoWindow(math, was);
        return;
      }
      for i := 0 to data.Length
        invariant forall j :: 0 <= j < i ==> data[j] == result[j]
        invariant forall j :: i <= j < data.Length ==> data[j] == was[j]
      {
        WindowedAt(math, windowType, was, i);
        var w := Weight(math, windowType, i, data.Length);
        data[i] := data[i] * w;
      }
    }

    /** The padding loop: the least power of two that holds the signal, doubled. */
    method PaddedLength(size: nat) returns (n: nat)
      ensures IsPowerOfTwo(n) && n >= 2 && size <= n / 2
      ensures size >= 1 ==> n < 4 * size
    {
      n := 1;
      while n < size
        invariant IsPowerOfTwo(n) && (n == 1 || n < 2 * size)
      {
        n := n * 2;
      }
      n := n * 2;
    }

    /** The peak search over the first half, with the spectrum it records. */
    method FindPeak(x: array<Complex>) returns (spectrum: seq<Point>, maxMag: real, maxFreq: real, ghost p: nat)
      requires math.RootLaws() && x.Length >= 2
      ensures var mags := Magnitudes(math, x[..]);
              IsPeak(mags, p) && maxMag == mags[p] && maxFreq == Frequency(p, sampleRate, x.Length)
      ensures spectrum == Points(math, Magnitudes(math, x[..]), sampleRate, x.Length)
    {
      var n := x.Length;
      ghost var mags := Magnitudes(math, x[..]);
      ghost var points := Points(math, mags, sampleRate, n);
      ModuliArePositive(math, x[..]);
      FrequencyOfZero(sampleRate, n);
      hide Frequency, Libm.Abs, Libm.RootLaws;
      maxMag, maxFreq, p, spectrum := 0.0, 0.0, 0, [];
      for i := 0 to n / 2
        invariant spectrum == points[..i]
        invariant p <= i && (p == i ==> i == 0)
        invariant maxFreq == Frequency(p, sampleRate, n)
        invariant maxMag == if i == 0 then 0.0 else mags[p]
        invariant forall j :: 0 <= j < i ==> mags[j] <= maxMag
        invariant forall j :: 0 <= j < p ==> mags[j] < maxMag
      {
        var freq := Frequency(i, sampleRate, n);
        var mag := math.Abs(x[i]);
        if mag > maxMag {
          maxMag, maxFreq, p := mag, freq, i;
        }
        spectrum := spectrum + [Point(freq, Decibels(math, mag, n))];
      }
    }

    /** The loop that files every bin from 2 on under harmonic or noise power. */
    method SplitPower(x: array<Complex>, fundamental: real) returns (harmonic: real, noise: real)
      requires x.Length >= 2
      ensures harmonic == Power(Magnitudes(math, x[..]), x.Length / 2, sampleRate, x.Length, fundamental, true)
      ensures noise == Power(Magnitudes(math, x[..]), x.Length / 2, sampleRate, x.Length, fundamental, false)
    {
      var n := x.Length;
      ghost var mags := Magnitudes(math, x[..]);
      harmonic, noise := 0.0, 0.0;
      hide Frequency, Libm.Abs, Near;
      var i := 2;
      while i < n / 2
        invariant 2 <= i && (n / 2 < 2 || i <= n / 2)
        invariant harmonic == Power(mags, if i <= n / 2 then i else n / 2, sampleRate, n, fundamental, true)
        invariant noise == Power(mags, if i <= n / 2 then i else n / 2, sampleRate, n, fundamental, false)
      {
        var freq := Frequency(i, sampleRate, n);
        var mag := math.Abs(x[i]);
        var isHarmonic := SearchHarmonic(freq, fundamental, sampleRate / n as real);
        assert mag == mags[i];
        if isHarmonic {
          harmonic := harmonic + mag * mag;
        } else {
          noise := noise + mag * mag;
        }
        i := i + 1;
      }
    }

    method SearchHarmonic(freq: real, fundamental: real, width: real) returns (isHarmonic: bool)
      ensures isHarmonic == IsHarmonic(freq, fundamental, width)
    {
      isHarmonic := false;
      var h := FIRST_HARMONIC;
      while h <= LAST_HARMONIC
        invariant FIRST_HARMONIC <= h <= LAST_HARMONIC + 1
        invariant forall g :: FIRST_HARMONIC <= g < h ==> !Near(freq, g, fundamental, width)
      {
        if Near(freq, h, fundamental, width) {
          return true;
        }
        h := h + 1;
      }
    }

    method Compute(signal: seq<real>) returns (report: Report)
      requires math.TrigLaws() && math.RootLaws()
      ensures exists n: nat, p: nat :: IsReport(math, windowType, sampleRate, signal, report, n, p)
    {
      var size := PaddedLength(|signal|);
      var padded := new real[size](i => if 0 <= i < |signal| then signal[i] else 0.0);
      assert padded[..] == Padded(signal, size);
      ApplyWindow(padded);
      var x := new Complex[size](i requires 0 <= i < size reads padded => Complex(padded[i], 0.0));
      ghost var windowed := Windowed(math, windowType, Padded(signal, size));
      assert x[..] == ToComplex(windowed);
      Fft(math, x);
      ghost var mags := BinMagnitudes(math, windowType, signal, size);
      assert Magnitudes(math, x[..]) == mags;
      var spectrum, fundamentalMag, maxFreq, peak := FindPeak(x);
      var harmonicPower, noisePower := SplitPower(x, maxFreq);
      PowerIsPositive(mags, size / 2, sampleRate, size, maxFreq, false);
      var thd := HarmonicDistortion(math, fundamentalMag, harmonicPower);
      var snr := SignalToNoise(math, fundamentalMag, noisePower);
      report := Report(spectrum, sampleRate, maxFreq, thd, snr, |signal|);
      assert IsReport(math, windowType, sampleRate, signal, report, size, peak);
    }
  }
}
