/** What the transform makes of a pure tone, in terms of the cosine and the sine alone. */
module FftTones {
  import opened Reals
  import opened ComplexNumbers
  import opened Trigonometry
  import opened FourierTransform

  /** The angle after i samples of a tone that turns p times in n. */
  function ToneAngle(pi: real, p: nat, i: nat, n: nat): real
    requires n > 0
  {
    2.0 * pi * (p * i) as real / n as real
  }

  /** The samples of a tone that turns p times: exp(2 pi i p k / n). */
  ghost predicate IsTone(m: Libm, x: seq<Complex>, p: nat) {
    forall i :: 0 <= i < |x| ==>
      x[i] == Complex(m.cos(ToneAngle(m.pi, p, i, |x|)), m.sin(ToneAngle(m.pi, p, i, |x|)))
  }

  // ----- The factors of a tone

  lemma NegatedFactor(pi: real, j: nat)
    ensures -2.0 * pi * (-(j as int)) as real == 2.0 * pi * j as real
  {
    assert (-(j as int)) as real == -(j as real);
  }

  lemma TurnsBackwards(m: Libm, p: nat, i: nat, n: nat)
    requires n > 0
    ensures Complex(m.cos(ToneAngle(m.pi, p, i, n)), m.sin(ToneAngle(m.pi, p, i, n))) == Twiddle(m, n, -(p * i))
  {
    NegatedFactor(m.pi, p * i);
    assert Angle(m.pi, n, -(p * i)) == ToneAngle(m.pi, p, i, n);
  }

  lemma NextMultiple(d: int, q: nat)
    requires q > 0
    ensures d * (q - 1) + d == d * q && (q - 1) * d + d == q * d
    ensures 0 * d == 0 && d * 0 == 0
  {
  }

  lemma {:induction false} PowerOfOne(m: Libm, n: nat, d: int, q: nat)
    requires m.TrigLaws() && n > 0 && Twiddle(m, n, d) == ONE
    ensures Twiddle(m, n, d * q) == ONE
  {
    hide *;
    if q == 0 {
      TwiddleZero(m, n);
      NextMultiple(d, 1);
    } else {
      PowerOfOne(m, n, d, q - 1);
      NextMultiple(d, q);
      TwiddleAdds(m, n, d * (q - 1), d);
      MulOne(ONE);
    }
  }

  lemma HalfTurns(h: nat, e: nat)
    ensures (2 * e + 1) * h == h + 2 * h * e
  {
  }

  /** No factor but the whole turns is 1. */
  lemma {:induction false} TwiddleIsNotOne(m: Libm, n: nat, d: nat)
    requires m.TrigLaws() && IsPowerOfTwo(n) && 0 < d < n
    ensures Twiddle(m, n, d) != ONE
    decreases n
  {
    var h := n / 2;
    assert n == 2 * h && h > 0;
    hide Twiddle, Libm.TrigLaws;
    if d % 2 == 0 {
      TwiddleDoubles(m, h, d / 2);
      TwiddleIsNotOne(m, h, d / 2);
    } else {
      var e := d / 2;
      TwiddlePeriodic(m, n, h, e);
      HalfTurns(h, e);
      TwiddleHalf(m, h);
      if Twiddle(m, n, d) == ONE {
        PowerOfOne(m, n, d, h);
      }
    }
  }

  // ----- The sum of the powers of a factor

  function Powers(m: Libm, n: nat, d: int, count: nat): Complex
    requires n > 0
  {
    if count == 0 then ZERO else Add(Powers(m, n, d, count - 1), Twiddle(m, n, (count - 1) * d))
  }

  lemma GeometricStep(w: Complex, s: Complex, v: Complex, u: Complex)
    requires Mul(Sub(w, ONE), s) == Sub(v, ONE) && u == Mul(v, w)
    ensures Mul(Sub(w, ONE), Add(s, v)) == Sub(u, ONE)
  {
    MulDistributes(Sub(w, ONE), s, v);
    MulCommutes(v, w);
    MulLess(w, v);
    hide Mul;
  }

  lemma MulLess(w: Complex, v: Complex)
    ensures Mul(Sub(w, ONE), v) == Sub(Mul(w, v), v)
  {
  }

  lemma PowersStep(m: Libm, n: nat, d: int, count: nat)
    requires n > 0
    ensures Powers(m, n, d, 0) == ZERO
    ensures Powers(m, n, d, count + 1) == Add(Powers(m, n, d, count), Twiddle(m, n, count * d))
  {
    hide Twiddle, Add;
  }

  lemma SelfLess(a: Complex)
    ensures Sub(a, a) == ZERO
  {
  }

  lemma {:induction false} GeometricSum(m: Libm, n: nat, d: int, count: nat)
    requires m.TrigLaws() && n > 0
    ensures Mul(Sub(Twiddle(m, n, d), ONE), Powers(m, n, d, count)) == Sub(Twiddle(m, n, count * d), ONE)
  {
    hide *;
    var w := Twiddle(m, n, d);
    if count == 0 {
      PowersStep(m, n, d, 0);
      TwiddleZero(m, n);
      ZeroTerms(Sub(w, ONE));
      NextMultiple(d, 1);
      SelfLess(ONE);
    } else {
      GeometricSum(m, n, d, count - 1);
      PowersStep(m, n, d, count - 1);
      NextMultiple(d, count);
      TwiddleAdds(m, n, (count - 1) * d, d);
      GeometricStep(w, Powers(m, n, d, count - 1), Twiddle(m, n, (count - 1) * d), Twiddle(m, n, count * d));
    }
  }

  lemma NoZeroDivisors(a: Complex, b: Complex)
    requires Mul(a, b) == ZERO && a != ZERO
    ensures b == ZERO
  {
    NormMultiplies(a, b);
    NormIsPositive(a);
    NormIsPositive(b);
    NormOfZero();
    hide Norm2, Mul;
    SignOfProduct(Norm2(a), Norm2(b));
    assert Times(Norm2(a), Norm2(b)) == 0.0;
  }

  lemma NormOfZero()
    ensures Norm2(ZERO) == 0.0
  {
  }

  lemma {:induction false} PowersOfOne(m: Libm, n: nat, count: nat)
    requires m.TrigLaws() && n > 0
    ensures Powers(m, n, 0, count) == Complex(count as real, 0.0)
  {
    hide Twiddle;
    if count > 0 {
      PowersOfOne(m, n, count - 1);
      TwiddleZero(m, n);
      assert (count - 1) * 0 == 0;
    }
  }

  /** All powers of a factor other than 1 cancel. */
  lemma PowersCancel(m: Libm, n: nat, d: int)
    requires m.TrigLaws() && IsPowerOfTwo(n) && 0 < d + n && d < n && d != 0
    ensures Powers(m, n, d, n) == ZERO
  {
    hide Twiddle, Libm.TrigLaws, Powers, Mul;
    if d > 0 {
      TwiddleIsNotOne(m, n, d);
    } else {
      TwiddleIsNotOne(m, n, d + n);
      TwiddlePeriodic(m, n, d, 1);
    }
    GeometricSum(m, n, d, n);
    WholeTurns(m, n, d);
    NoZeroDivisors(Sub(Twiddle(m, n, d), ONE), Powers(m, n, d, n));
  }

  lemma Cancels(n: nat, d: int)
    ensures n * d + n * (0 - d) == 0 && n * d == 0 + n * d
  {
  }

  lemma WholeTurns(m: Libm, n: nat, d: int)
    requires m.TrigLaws() && n > 0
    ensures Twiddle(m, n, n * d) == ONE
  {
    hide *;
    TwiddleZero(m, n);
    Cancels(n, d);
    if d >= 0 {
      TwiddlePeriodic(m, n, 0, d);
    } else {
      TwiddlePeriodic(m, n, n * d, 0 - d);
    }
  }

  // ----- The spectrum of a tone

  lemma ToneIndex(p: nat, k: nat, i: nat)
    ensures -(p * i) + i * k == i * (k - p)
  {
  }

  lemma ToneTerm(m: Libm, x: seq<Complex>, p: nat, k: nat, i: nat)
    requires m.TrigLaws() && IsTone(m, x, p) && i < |x|
    ensures Mul(x[i], Twiddle(m, |x|, i * k)) == Twiddle(m, |x|, i * (k - p))
  {
    var n := |x|;
    assert x[i] == Complex(m.cos(ToneAngle(m.pi, p, i, n)), m.sin(ToneAngle(m.pi, p, i, n)));
    hide *;
    TurnsBackwards(m, p, i, n);
    TwiddleAdds(m, n, -(p * i), i * k);
    ToneIndex(p, k, i);
  }

  lemma {:induction false} ToneSum(m: Libm, x: seq<Complex>, p: nat, k: nat, count: nat)
    requires m.TrigLaws() && IsTone(m, x, p) && count <= |x| && |x| > 0
    ensures DftSum(m, x, k, count) == Powers(m, |x|, k - p, count)
  {
    hide IsTone, Twiddle, Mul, Add, Libm.TrigLaws;
    if count > 0 {
      ToneSum(m, x, p, k, count - 1);
      ToneTerm(m, x, p, k, count - 1);
      hide *;
      DftSumStep(m, x, k, count - 1);
      PowersStep(m, |x|, k - p, count - 1);
    }
  }

  /**
    * A tone of p turns in n samples comes out as n at output p and as nothing anywhere else: the negative exponent of
    * the transform turns exactly exp(2 pi i p k / n) back.
    */
  lemma ToneIsFound(m: Libm, x: seq<Complex>, p: nat, k: nat)
    requires m.TrigLaws() && IsPowerOfTwo(|x|) && p < |x| && k < |x| && IsTone(m, x, p)
    ensures Transform(m, x)[k] == if k == p then Complex(|x| as real, 0.0) else Complex(0.0, 0.0)
  {
    hide IsTone, Transform, Twiddle, Libm.TrigLaws, Powers, DftSum;
    TransformIsDft(m, x);
    DftAt(m, x, k);
    ToneSum(m, x, p, k, |x|);
    if k == p {
      PowersOfOne(m, |x|, |x|);
    } else {
      PowersCancel(m, |x|, k - p);
    }
  }
}
