/** The library functions the spectrum code calls, and the twiddle factors built from them. */
module Trigonometry {
  import opened ComplexNumbers

  /** Addition and negation of angles, named so that the laws below have a term to hang on. */
  function Plus(a: real, b: real): real {
    a + b
  }

  function Opposite(a: real): real {
    -a
  }

  /** The mathematical functions of the C++ library, in exact arithmetic. */
  datatype Libm = Libm(cos: real -> real, sin: real -> real, sqrt: real -> real, log10: real -> real, pi: real) {

    /** The unit complex number at an angle: std::polar(1.0, angle). */
    function Polar(angle: real): Complex {
      Complex(cos(angle), sin(angle))
    }

    /** The modulus: std::abs(z). */
    function Abs(z: Complex): real {
      sqrt(Norm2(z))
    }

    ghost predicate TrigLaws() {
      && Polar(0.0) == ONE
      && Polar(-pi) == Neg(ONE)
      && (forall a: real, b: real {:trigger Plus(a, b)} :: Polar(Plus(a, b)) == Mul(Polar(a), Polar(b)))
      && (forall a: real {:trigger Opposite(a)} :: Polar(Opposite(a)) == Conj(Polar(a)))
    }

    ghost predicate RootLaws() {
      forall x: real :: x >= 0.0 ==> sqrt(x) >= 0.0 && sqrt(x) * sqrt(x) == x
    }

    ghost predicate LogLaws() {
      forall x: real :: 0.0 < x < 1.0 ==> log10(x) < 0.0
    }
  }

  /** The angle passed to std::polar for the j-th power of the n-th root of unity. */
  function Angle(pi: real, n: nat, j: int): real
    requires n > 0
  {
    -2.0 * pi * j as real / n as real
  }

  /** The factor exp(-2 pi i j / n) of the combine step, for any integer j. */
  function Twiddle(m: Libm, n: nat, j: int): Complex
    requires n > 0
  {
    m.Polar(Angle(m.pi, n, j))
  }

  lemma QuotientIs(q: real, x: real, d: real)
    requires d != 0.0 && q * d == x
    ensures x / d == q
  {
  }

  lemma AngleAdds(pi: real, n: nat, a: int, b: int)
    requires n > 0
    ensures Angle(pi, n, a + b) == Plus(Angle(pi, n, a), Angle(pi, n, b))
  {
    var c, d := -2.0 * pi, n as real;
    var x, y := c * a as real, c * b as real;
    assert (a + b) as real == a as real + b as real;
    assert c * (a as real + b as real) == x + y;
    assert (x / d + y / d) * d == x + y;
    QuotientIs(x / d + y / d, x + y, d);
  }

  lemma AngleOpposes(pi: real, n: nat, j: int)
    requires n > 0
    ensures Angle(pi, n, -j) == Opposite(Angle(pi, n, j))
  {
    var c, d := -2.0 * pi, n as real;
    var x := c * j as real;
    assert (-j) as real == -(j as real);
    assert c * -(j as real) == -x;
    assert -(x / d) * d == -x;
    QuotientIs(-(x / d), -x, d);
  }

  lemma AngleDoubles(pi: real, h: nat, j: int)
    requires h > 0
    ensures Angle(pi, 2 * h, 2 * j) == Angle(pi, h, j)
  {
    var c, d := -2.0 * pi, h as real;
    var x := c * j as real;
    assert (2 * j) as real == 2.0 * j as real;
    assert (2 * h) as real == 2.0 * d;
    assert c * (2.0 * j as real) == 2.0 * x;
    assert x / d * d == x;
    assert x / d * (2.0 * d) == 2.0 * x;
    QuotientIs(x / d, 2.0 * x, 2.0 * d);
  }

  lemma AngleOfTurns(pi: real, h: nat)
    requires h > 0
    ensures Angle(pi, 2 * h, h) == -pi
    ensures Angle(pi, h, h) == Plus(-pi, -pi)
  {
    var d := h as real;
    assert (2 * h) as real == 2.0 * d;
    assert -pi * (2.0 * d) == -2.0 * pi * d;
    QuotientIs(-pi, -2.0 * pi * d, 2.0 * d);
    QuotientIs(-2.0 * pi, -2.0 * pi * d, d);
  }

  lemma TwiddleZero(m: Libm, n: nat)
    requires n > 0 && m.TrigLaws()
    ensures Twiddle(m, n, 0) == ONE
  {
    assert Angle(m.pi, n, 0) == 0.0;
  }

  lemma TwiddleAdds(m: Libm, n: nat, a: int, b: int)
    requires n > 0 && m.TrigLaws()
    ensures Twiddle(m, n, a + b) == Mul(Twiddle(m, n, a), Twiddle(m, n, b))
  {
    AngleAdds(m.pi, n, a, b);
  }

  lemma TwiddleHalf(m: Libm, h: nat)
    requires h > 0 && m.TrigLaws()
    ensures Twiddle(m, 2 * h, h) == Neg(ONE)
  {
    AngleOfTurns(m.pi, h);
  }

  lemma TwiddleDoubles(m: Libm, h: nat, j: int)
    requires h > 0
    ensures Twiddle(m, 2 * h, 2 * j) == Twiddle(m, h, j)
  {
    AngleDoubles(m.pi, h, j);
  }

  lemma TwiddleWhole(m: Libm, n: nat)
    requires n > 0 && m.TrigLaws()
    ensures Twiddle(m, n, n) == ONE
  {
    AngleOfTurns(m.pi, n);
    assert Mul(Neg(ONE), Neg(ONE)) == ONE;
  }

  lemma MulOne(a: Complex)
    ensures Mul(a, ONE) == a && Mul(ONE, a) == a
  {
  }

  lemma {:induction false} TwiddlePeriodic(m: Libm, n: nat, j: int, q: nat)
    requires n > 0 && m.TrigLaws()
    ensures Twiddle(m, n, j + n * q) == Twiddle(m, n, j)
  {
    if q == 0 {
    } else {
      TwiddlePeriodic(m, n, j, q - 1);
      TwiddleAdds(m, n, j + n * (q - 1), n);
      TwiddleWhole(m, n);
      MulOne(Twiddle(m, n, j));
      assert j + n * (q - 1) + n == j + n * q;
    }
  }

  lemma TwiddleConjugates(m: Libm, n: nat, j: int)
    requires n > 0 && m.TrigLaws()
    ensures Twiddle(m, n, -j) == Conj(Twiddle(m, n, j))
  {
    AngleOpposes(m.pi, n, j);
  }

  lemma TwiddleIsUnit(m: Libm, n: nat, j: int)
    requires n > 0 && m.TrigLaws()
    ensures Norm2(Twiddle(m, n, j)) == 1.0
  {
    var w := Twiddle(m, n, j);
    TwiddleConjugates(m, n, j);
    TwiddleAdds(m, n, j, -j);
    TwiddleZero(m, n);
    assert Mul(w, Conj(w)).re == 1.0;
  }
}
