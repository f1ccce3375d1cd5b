/** Complex numbers as pairs of reals, with the ring laws the transform needs. */
module ComplexNumbers {
  import opened Reals

  datatype Complex = Complex(re: real, im: real)

  const ZERO := Complex(0.0, 0.0)
  const ONE := Complex(1.0, 0.0)

  function Add(a: Complex, b: Complex): Complex {
    Complex(a.re + b.re, a.im + b.im)
  }

  function Sub(a: Complex, b: Complex): Complex {
    Complex(a.re - b.re, a.im - b.im)
  }

  function Neg(a: Complex): Complex {
    Complex(-a.re, -a.im)
  }

  function Mul(a: Complex, b: Complex): Complex {
    Complex(a.re * b.re - a.im * b.im, a.re * b.im + a.im * b.re)
  }

  function Conj(a: Complex): Complex {
    Complex(a.re, -a.im)
  }

  /** The squared modulus. */
  function Norm2(a: Complex): real {
    a.re * a.re + a.im * a.im
  }

  lemma MulCommutes(a: Complex, b: Complex)
    ensures Mul(a, b) == Mul(b, a)
  {
  }

  lemma MulAssociates(a: Complex, b: Complex, c: Complex)
    ensures Mul(Mul(a, b), c) == Mul(a, Mul(b, c))
  {
  }

  lemma MulDistributes(a: Complex, b: Complex, c: Complex)
    ensures Mul(a, Add(b, c)) == Add(Mul(a, b), Mul(a, c))
    ensures Mul(Add(b, c), a) == Add(Mul(b, a), Mul(c, a))
  {
  }

  lemma NegOneNegates(a: Complex)
    ensures Mul(Neg(ONE), a) == Neg(a)
  {
  }

  lemma ZeroTerms(w: Complex)
    ensures Mul(w, ZERO) == ZERO && Mul(ZERO, w) == ZERO
    ensures Add(ZERO, ZERO) == ZERO && Sub(ZERO, ZERO) == ZERO
  {
  }

  lemma ConjIsHomomorphism(a: Complex, b: Complex)
    ensures Conj(Add(a, b)) == Add(Conj(a), Conj(b))
    ensures Conj(Mul(a, b)) == Mul(Conj(a), Conj(b))
  {
  }

  lemma NormMultiplies(a: Complex, b: Complex)
    ensures Norm2(Mul(a, b)) == Norm2(a) * Norm2(b)
  {
    var p, q, r, s := a.re * b.re, a.im * b.im, a.re * b.im, a.im * b.re;
    assert p * q == r * s;
    assert Norm2(Mul(a, b)) == (p - q) * (p - q) + (r + s) * (r + s);
    assert (p - q) * (p - q) + (r + s) * (r + s) == p * p + q * q + r * r + s * s;
    assert p * p == a.re * a.re * (b.re * b.re);
    assert q * q == a.im * a.im * (b.im * b.im);
    assert r * r == a.re * a.re * (b.im * b.im);
    assert s * s == a.im * a.im * (b.re * b.re);
  }

  /** One butterfly doubles the energy it is given. */
  lemma Parallelogram(a: Complex, b: Complex)
    ensures Norm2(Add(a, b)) + Norm2(Sub(a, b)) == 2.0 * (Norm2(a) + Norm2(b))
  {
  }

  lemma NormIsPositive(a: Complex)
    ensures Norm2(a) >= 0.0
    ensures a != ZERO ==> Norm2(a) > 0.0
  {
    SignOfProduct(a.re, a.re);
    SignOfProduct(a.im, a.im);
    NormAsTimes(a);
    hide Times, Norm2;
  }

  lemma NormAsTimes(a: Complex)
    ensures Norm2(a) == Times(a.re, a.re) + Times(a.im, a.im)
  {
  }
}
