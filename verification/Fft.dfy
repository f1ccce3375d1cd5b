/** The recursive Cooley-Tukey transform and the plain discrete Fourier transform it stands for. */
module FourierTransform {
  import opened ComplexNumbers
  import opened Trigonometry

  // ----- The reference: the defining sum

  /** The first `count` terms of the k-th output of the transform. */
  function DftSum(m: Libm, x: seq<Complex>, k: int, count: nat): Complex
    requires count <= |x|
  {
    if count == 0 then ZERO
    else Add(DftSum(m, x, k, count - 1), Mul(x[count - 1], Twiddle(m, |x|, (count - 1) * k)))
  }

  function Dft(m: Libm, x: seq<Complex>): seq<Complex> {
    seq(|x|, k requires 0 <= k < |x| => DftSum(m, x, k, |x|))
  }

  lemma DftAt(m: Libm, x: seq<Complex>, k: nat)
    requires k < |x|
    ensures |Dft(m, x)| == |x|
    ensures Dft(m, x)[k] == DftSum(m, x, k, |x|)
  {
  }

  predicate IsPowerOfTwo(n: nat) {
    n == 1 || (n > 1 && n % 2 == 0 && IsPowerOfTwo(n / 2))
  }

  // ----- The algorithm on values

  function Evens(x: seq<Complex>): seq<Complex> {
    seq(|x| / 2, i requires 0 <= i < |x| / 2 => x[2 * i])
  }

  function Odds(x: seq<Complex>): seq<Complex> {
    seq(|x| / 2, i requires 0 <= i < |x| / 2 => x[2 * i + 1])
  }

  /** The rotated odd part that a butterfly adds and subtracts. */
  function Rotated(m: Libm, n: nat, odd: seq<Complex>, k: nat): Complex
    requires n > 0 && k < |odd|
  {
    Mul(Twiddle(m, n, k), odd[k])
  }

  /** The combine step; an odd last element of `x` is left as it was. */
  function Combine(m: Libm, x: seq<Complex>, even: seq<Complex>, odd: seq<Complex>): seq<Complex>
    requires |x| > 0 && |even| == |odd| == |x| / 2
  {
    var h := |x| / 2;
    seq(|x|, i requires 0 <= i < |x| =>
      if i < h then Add(even[i], Rotated(m, |x|, odd, i))
      else if i < 2 * h then Sub(even[i - h], Rotated(m, |x|, odd, i - h))
      else x[i])
  }

  /** The two outputs of the k-th butterfly, and the elements no butterfly touches. */
  lemma CombineAt(m: Libm, x: seq<Complex>, even: seq<Complex>, odd: seq<Complex>, k: nat)
    requires |x| > 0 && |even| == |odd| == |x| / 2
    ensures |Combine(m, x, even, odd)| == |x|
    ensures k < |x| / 2 ==> Combine(m, x, even, odd)[k] == Add(even[k], Rotated(m, |x|, odd, k))
    ensures k < |x| / 2 ==> Combine(m, x, even, odd)[k + |x| / 2] == Sub(even[k], Rotated(m, |x|, odd, k))
    ensures forall i :: 2 * (|x| / 2) <= i < |x| ==> Combine(m, x, even, odd)[i] == x[i]
  {
    hide Mul, Add, Sub;
  }

  function Transform(m: Libm, x: seq<Complex>): (r: seq<Complex>)
    ensures |r| == |x|
    decreases |x|
  {
    if |x| <= 1 then x
    else Combine(m, x, Transform(m, Evens(x)), Transform(m, Odds(x)))
  }

  lemma TransformStep(m: Libm, x: seq<Complex>)
    requires |x| > 1
    ensures Transform(m, x) == Combine(m, x, Transform(m, Evens(x)), Transform(m, Odds(x)))
  {
  }

  // ----- The algorithm as the engine runs it, in place

  /** The divide phase: the two half-length vectors. */
  method Divide(x: array<Complex>) returns (even: array<Complex>, odd: array<Complex>)
    ensures fresh(even) && fresh(odd) && even != odd
    ensures even[..] == Evens(x[..]) && odd[..] == Odds(x[..])
  {
    var h := x.Length / 2;
    even, odd := new Complex[h], new Complex[h];
    for i := 0 to h
      invariant forall j :: 0 <= j < i ==> even[j] == x[2 * j] && odd[j] == x[2 * j + 1]
    {
      even[i] := x[2 * i];
      odd[i] := x[2 * i + 1];
    }
  }

  /** The combine phase: every butterfly, written over `x`. */
  method Butterflies(m: Libm, x: array<Complex>, even: array<Complex>, odd: array<Complex>)
    requires x.Length > 0 && even.Length == odd.Length == x.Length / 2
    requires x != even && x != odd
    modifies x
    ensures x[..] == Combine(m, old(x[..]), even[..], odd[..])
  {
    hide Mul, Add, Sub, Combine, Twiddle;
    var n, h := x.Length, x.Length / 2;
    ghost var was := x[..];
    ghost var result := Combine(m, was, even[..], odd[..]);
    CombineAt(m, was, even[..], odd[..], h);
    for k := 0 to h
      invariant forall j :: 0 <= j < k ==> x[j] == result[j]
      invariant forall j :: h <= j < h + k ==> x[j] == result[j]
      invariant forall j :: 2 * h <= j < n ==> x[j] == result[j]
    {
      CombineAt(m, was, even[..], odd[..], k);
      var t := Mul(Twiddle(m, n, k), odd[k]);
      x[k] := Add(even[k], t);
      x[k + h] := Sub(even[k], t);
    }
    assert x[..] == result;
  }

  method Fft(m: Libm, x: array<Complex>)
    modifies x
    ensures x[..] == Transform(m, old(x[..]))
    ensures m.TrigLaws() && IsPowerOfTwo(x.Length) ==> x[..] == Dft(m, old(x[..]))
    decreases x.Length
  {
    hide Combine, Libm.TrigLaws, Dft;
    if m.TrigLaws() && IsPowerOfTwo(x.Length) {
      TransformIsDft(m, x[..]);
    }
    if x.Length <= 1 {
      return;
    }
    var even, odd := Divide(x);
    Fft(m, even);
    Fft(m, odd);
    Butterflies(m, x, even, odd);
  }

  // ----- The fast transform computes the defining sum

  lemma RegroupPair(a: Complex, b: Complex, p: Complex, q: Complex, w: Complex)
    ensures Add(Add(Add(a, Mul(w, b)), p), Mul(w, q)) == Add(Add(a, p), Mul(w, Add(b, q)))
  {
    MulDistributes(w, b, q);
    hide Mul;
  }

  lemma RotateInto(z: Complex, v: Complex, w: Complex)
    ensures Mul(z, Mul(v, w)) == Mul(w, Mul(z, v))
  {
    MulAssociates(z, v, w);
    MulCommutes(Mul(z, v), w);
  }

  /** The factors at an even and at an odd index, in terms of the half-length factors. */
  lemma TwiddleAtPair(m: Libm, h: nat, k: int, i: nat)
    requires m.TrigLaws() && h > 0
    ensures Twiddle(m, 2 * h, 2 * i * k) == Twiddle(m, h, i * k)
    ensures Twiddle(m, 2 * h, (2 * i + 1) * k) == Mul(Twiddle(m, h, i * k), Twiddle(m, 2 * h, k))
  {
    TwiddleDoubles(m, h, i * k);
    assert 2 * i * k == 2 * (i * k);
    assert (2 * i + 1) * k == 2 * (i * k) + k;
    TwiddleAdds(m, 2 * h, 2 * (i * k), k);
  }

  lemma DftSumStep(m: Libm, x: seq<Complex>, k: int, i: nat)
    requires i < |x|
    ensures DftSum(m, x, k, i + 1) == Add(DftSum(m, x, k, i), Mul(x[i], Twiddle(m, |x|, i * k)))
  {
  }

  /** Splitting the sum by the parity of the index. */
  lemma {:induction false} SumSplits(m: Libm, x: seq<Complex>, k: int, h: nat)
    requires m.TrigLaws() && |x| % 2 == 0 && 2 * h <= |x| && |x| > 0
    ensures DftSum(m, x, k, 2 * h)
         == Add(DftSum(m, Evens(x), k, h), Mul(Twiddle(m, |x|, k), DftSum(m, Odds(x), k, h)))
  {
    hide Mul, Add, Libm.TrigLaws, Twiddle, Evens, Odds;
    EvensOdds(x);
    if h == 0 {
      ZeroTerms(Twiddle(m, |x|, k));
    } else {
      SumSplits(m, x, k, h - 1);
      SumSplitsStep(m, x, k, h - 1);
    }
  }

  lemma SumSplitsStep(m: Libm, x: seq<Complex>, k: int, i: nat)
    requires m.TrigLaws() && |x| % 2 == 0 && 2 * i + 2 <= |x|
    requires DftSum(m, x, k, 2 * i)
          == Add(DftSum(m, Evens(x), k, i), Mul(Twiddle(m, |x|, k), DftSum(m, Odds(x), k, i)))
    ensures DftSum(m, x, k, 2 * i + 2)
         == Add(DftSum(m, Evens(x), k, i + 1), Mul(Twiddle(m, |x|, k), DftSum(m, Odds(x), k, i + 1)))
  {
    hide *;
    EvensOdds(x);
    TwiddleAtPair(m, |x| / 2, k, i);
    var w, v := Twiddle(m, |x|, k), Twiddle(m, |x| / 2, i * k);
    var p, q := Mul(x[2 * i], v), Mul(x[2 * i + 1], v);
    var a, b := DftSum(m, Evens(x), k, i), DftSum(m, Odds(x), k, i);
    assert DftSum(m, Evens(x), k, i + 1) == Add(a, p) && DftSum(m, Odds(x), k, i + 1) == Add(b, q) by {
      DftSumStep(m, Evens(x), k, i);
      DftSumStep(m, Odds(x), k, i);
    }
    assert DftSum(m, x, k, 2 * i + 2) == Add(Add(DftSum(m, x, k, 2 * i), p), Mul(w, q)) by {
      RotateInto(x[2 * i + 1], v, w);
      DftSumStep(m, x, k, 2 * i);
      DftSumStep(m, x, k, 2 * i + 1);
    }
    RegroupPair(a, b, p, q, w);
  }

  lemma EvensOdds(x: seq<Complex>)
    ensures |Evens(x)| == |Odds(x)| == |x| / 2
    ensures forall i :: 0 <= i < |x| / 2 ==> Evens(x)[i] == x[2 * i] && Odds(x)[i] == x[2 * i + 1]
  {
  }

  /** The outputs of the sum repeat with the length of the input. */
  lemma {:induction false} SumPeriodic(m: Libm, x: seq<Complex>, k: int, count: nat)
    requires m.TrigLaws() && count <= |x|
    ensures DftSum(m, x, k + |x|, count) == DftSum(m, x, k, count)
  {
    if count == 0 {
    } else {
      SumPeriodic(m, x, k, count - 1);
      TwiddlePeriodic(m, |x|, (count - 1) * k, count - 1);
      assert (count - 1) * (k + |x|) == (count - 1) * k + |x| * (count - 1);
    }
  }

  lemma SubtractRotated(a: Complex, w: Complex, b: Complex)
    ensures Add(a, Mul(Mul(w, Neg(ONE)), b)) == Sub(a, Mul(w, b))
  {
    MulCommutes(w, Neg(ONE));
    MulAssociates(Neg(ONE), w, b);
    NegOneNegates(Mul(w, b));
    hide Mul;
  }

  /** The sum at an index of the second half, in terms of the outputs of the first halves. */
  lemma SecondHalf(m: Libm, x: seq<Complex>, i: nat)
    requires m.TrigLaws() && |x| % 2 == 0 && i < |x| / 2
    ensures DftSum(m, x, i + |x| / 2, |x|)
         == Sub(DftSum(m, Evens(x), i, |x| / 2), Mul(Twiddle(m, |x|, i), DftSum(m, Odds(x), i, |x| / 2)))
  {
    hide *;
    var n, h := |x|, |x| / 2;
    EvensOdds(x);
    SumSplits(m, x, i + h, h);
    SumPeriodic(m, Evens(x), i, h);
    SumPeriodic(m, Odds(x), i, h);
    TwiddleAdds(m, n, i, h);
    TwiddleHalf(m, h);
    SubtractRotated(DftSum(m, Evens(x), i, h), Twiddle(m, n, i), DftSum(m, Odds(x), i, h));
  }

  /** One combine step of correct halves gives the correct whole. */
  lemma CombineIsDft(m: Libm, x: seq<Complex>)
    requires m.TrigLaws() && |x| > 0 && |x| % 2 == 0
    ensures Combine(m, x, Dft(m, Evens(x)), Dft(m, Odds(x))) == Dft(m, x)
  {
    hide Mul, Add, Sub, DftSum, Libm.TrigLaws;
    var h := |x| / 2;
    forall i | 0 <= i < |x|
      ensures Combine(m, x, Dft(m, Evens(x)), Dft(m, Odds(x)))[i] == DftSum(m, x, i, |x|)
    {
      if i < h {
        SumSplits(m, x, i, h);
      } else {
        SecondHalf(m, x, i - h);
      }
    }
  }

  /** The recursive transform is the discrete Fourier transform on every power-of-two length. */
  lemma {:induction false} TransformIsDft(m: Libm, x: seq<Complex>)
    requires m.TrigLaws() && IsPowerOfTwo(|x|)
    ensures Transform(m, x) == Dft(m, x)
    decreases |x|
  {
    if |x| == 1 {
      TwiddleZero(m, 1);
      MulOne(x[0]);
      assert DftSum(m, x, 0, 1) == Add(DftSum(m, x, 0, 0), Mul(x[0], Twiddle(m, 1, 0)));
    } else {
      TransformIsDft(m, Evens(x));
      TransformIsDft(m, Odds(x));
      CombineIsDft(m, x);
    }
  }
}
