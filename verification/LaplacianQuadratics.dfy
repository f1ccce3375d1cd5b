/** The matrices differentiate twice: on every quadratic they give its exact second derivative. */
module LaplacianQuadratics {
  import opened Reals
  import opened SparseMatrices
  import opened LaplacianLaws

  /** a x^2 + b x + c. */
  function Quadratic(a: real, b: real, c: real, x: real): real {
    a * (x * x) + b * x + c
  }

  /** The second difference of a quadratic. */
  function Curvature(a: real, h: real): real {
    2.0 * a * (h * h)
  }

  /** The quadratic sampled at the multiples of h. */
  ghost predicate Samples(u: seq<real>, h: real, a: real, b: real, c: real) {
    forall i :: 0 <= i < |u| ==> u[i] == Quadratic(a, b, c, i as real * h)
  }

  lemma SecondDifference(a: real, b: real, c: real, x: real, h: real, before: real, after: real)
    requires before == x - h && after == x + h
    ensures Quadratic(a, b, c, before) - 2.0 * Quadratic(a, b, c, x) + Quadratic(a, b, c, after) == 2.0 * a * (h * h)
  {
    assert before * before == x * x - 2.0 * (x * h) + h * h;
    assert after * after == x * x + 2.0 * (x * h) + h * h;
    assert a * (before * before) + a * (after * after) == 2.0 * (a * (x * x)) + 2.0 * a * (h * h);
    assert b * before + b * after == 2.0 * (b * x);
  }

  /** The factor of the builder takes the step out of a second difference. */
  lemma ScaledDifference(h: real, a: real, s: real)
    requires h != 0.0 && s == Curvature(a, h)
    ensures Factor(h) * s == 2.0 * a
  {
    SignOfProduct(h, h);
    assert Times(h, h) == h * h;
    assert Factor(h) * (h * h) == 1.0;
    assert Factor(h) * (2.0 * a * (h * h)) == 2.0 * a * (Factor(h) * (h * h));
  }

  lemma Neighbouring(i: int, h: real)
    ensures (i - 1) as real * h == i as real * h - h && (i + 1) as real * h == i as real * h + h
  {
    assert (i - 1) as real == i as real - 1.0 && (i + 1) as real == i as real + 1.0;
  }

  /** Away from its ends the line matrix takes a x^2 + b x + c to 2 a. */
  lemma LineDifferentiatesTwice(m: Matrix, n: nat, h: real, u: seq<real>, r: int, a: real, b: real, c: real)
    requires h != 0.0 && IsLaplacian1D(m, n, Factor(h)) && |u| == n && 0 < r < n - 1
    requires Samples(u, h, a, b, c)
    ensures Apply(m, u, r) == 2.0 * a
  {
    Stencil1D(m, n, Factor(h), u, r);
    LineSamples(u, h, r, a, b, c);
    hide *;
    ScaledDifference(h, a, Second(u, r));
  }

  lemma LineSamples(u: seq<real>, h: real, r: int, a: real, b: real, c: real)
    requires Samples(u, h, a, b, c) && 0 < r < |u| - 1
    ensures Second(u, r) == Curvature(a, h)
  {
    hide Quadratic;
    Neighbouring(r, h);
    SecondDifference(a, b, c, r as real * h, h, (r - 1) as real * h, (r + 1) as real * h);
  }

  /** a x^2 + b y^2 + c x + d y + e at the point (i, j) of a grid. */
  function Surface(hx: real, hy: real, a: real, b: real, c: real, d: real, e: real, i: int, j: int): real {
    Quadratic(a, c, e, i as real * hx) + Quadratic(b, d, 0.0, j as real * hy)
  }

  ghost predicate SamplesGrid(u: seq<real>, nx: nat, ny: nat, hx: real, hy: real, a: real, b: real, c: real, d: real, e: real) {
    && |u| == nx * ny
    && forall i, j :: 0 <= i < nx && 0 <= j < ny ==> At(u, j * nx + i) == Surface(hx, hy, a, b, c, d, e, i, j)
  }

  lemma SurfaceDifferences(hx: real, hy: real, a: real, b: real, c: real, d: real, e: real, i: int, j: int)
    ensures Surface(hx, hy, a, b, c, d, e, i - 1, j) - 2.0 * Surface(hx, hy, a, b, c, d, e, i, j)
          + Surface(hx, hy, a, b, c, d, e, i + 1, j) == 2.0 * a * (hx * hx)
    ensures Surface(hx, hy, a, b, c, d, e, i, j - 1) - 2.0 * Surface(hx, hy, a, b, c, d, e, i, j)
          + Surface(hx, hy, a, b, c, d, e, i, j + 1) == 2.0 * b * (hy * hy)
  {
    hide Quadratic;
    Neighbouring(i, hx);
    Neighbouring(j, hy);
    SecondDifference(a, c, e, i as real * hx, hx, (i - 1) as real * hx, (i + 1) as real * hx);
    SecondDifference(b, d, 0.0, j as real * hy, hy, (j - 1) as real * hy, (j + 1) as real * hy);
  }

  lemma RowSamples(u: seq<real>, nx: nat, ny: nat, hx: real, hy: real, a: real, b: real, c: real, d: real, e: real, i: nat, j: nat)
    requires SamplesGrid(u, nx, ny, hx, hy, a, b, c, d, e) && 0 < i < nx - 1 && j < ny
    ensures Second(RowOf(u, nx, j), i) == Curvature(a, hx)
  {
    SurfaceDifferences(hx, hy, a, b, c, d, e, i, j);
    var row := RowOf(u, nx, j);
    hide Surface;
    forall k | 0 <= k < nx
      ensures At(row, k) == Surface(hx, hy, a, b, c, d, e, k, j)
    {
    }
    hide RowOf, SamplesGrid, At;
  }

  lemma ColumnSamples(u: seq<real>, nx: nat, ny: nat, hx: real, hy: real, a: real, b: real, c: real, d: real, e: real, i: nat, j: nat)
    requires SamplesGrid(u, nx, ny, hx, hy, a, b, c, d, e) && i < nx && 0 < j < ny - 1
    ensures Second(ColOf(u, nx, ny, i), j) == Curvature(b, hy)
  {
    SurfaceDifferences(hx, hy, a, b, c, d, e, i, j);
    var col := ColOf(u, nx, ny, i);
    hide Surface;
    forall k | 0 <= k < ny
      ensures At(col, k) == Surface(hx, hy, a, b, c, d, e, i, k)
    {
    }
    hide ColOf, SamplesGrid, At;
  }

  /** At every inner point the grid matrix takes a x^2 + b y^2 + c x + d y + e to 2 a + 2 b. */
  lemma GridDifferentiatesTwice(m: Matrix, nx: nat, ny: nat, hx: real, hy: real, u: seq<real>, i: nat, j: nat,
                                a: real, b: real, c: real, d: real, e: real)
    requires hx != 0.0 && hy != 0.0 && nx > 0 && IsLaplacian2D(m, nx, ny, Factor(hx), Factor(hy))
    requires 0 < i < nx - 1 && 0 < j < ny - 1 && SamplesGrid(u, nx, ny, hx, hy, a, b, c, d, e)
    ensures Apply(m, u, j * nx + i) == 2.0 * a + 2.0 * b
  {
    hide *;
    GridSeconds(u, nx, ny, hx, hy, a, b, c, d, e, i, j);
    NamedStencil(m, nx, ny, Factor(hx), Factor(hy), u, i, j);
    BothDifferences(hx, hy, a, b, Second(RowOf(u, nx, j), i), Second(ColOf(u, nx, ny, i), j), Apply(m, u, j * nx + i));
  }

  lemma NamedStencil(m: Matrix, nx: nat, ny: nat, fx: real, fy: real, u: seq<real>, i: nat, j: nat)
    requires nx > 0 && IsLaplacian2D(m, nx, ny, fx, fy) && |u| == nx * ny && i < nx && j < ny
    ensures Apply(m, u, j * nx + i) == Times(fx, Second(RowOf(u, nx, j), i)) + Times(fy, Second(ColOf(u, nx, ny, i), j))
  {
    Stencil2D(m, nx, ny, fx, fy, u, i, j);
    hide IsLaplacian2D, Apply, Second, RowOf, ColOf;
  }

  lemma GridSeconds(u: seq<real>, nx: nat, ny: nat, hx: real, hy: real, a: real, b: real, c: real, d: real, e: real, i: nat, j: nat)
    requires 0 < i < nx - 1 && 0 < j < ny - 1 && SamplesGrid(u, nx, ny, hx, hy, a, b, c, d, e)
    ensures |u| == nx * ny
    ensures Second(RowOf(u, nx, j), i) == Curvature(a, hx) && Second(ColOf(u, nx, ny, i), j) == Curvature(b, hy)
  {
    assert |u| == nx * ny;
    hide *;
    RowSamples(u, nx, ny, hx, hy, a, b, c, d, e, i, j);
    ColumnSamples(u, nx, ny, hx, hy, a, b, c, d, e, i, j);
  }

  lemma BothDifferences(hx: real, hy: real, a: real, b: real, s: real, t: real, applied: real)
    requires hx != 0.0 && hy != 0.0 && s == Curvature(a, hx) && t == Curvature(b, hy)
    requires applied == Times(Factor(hx), s) + Times(Factor(hy), t)
    ensures applied == 2.0 * a + 2.0 * b
  {
    ScaledDifference(hx, a, s);
    ScaledDifference(hy, b, t);
    hide Factor;
  }
}
