/** The Laplacian matrices as operators: stencils, Kronecker sum, symmetry and definiteness. */
module LaplacianLaws {
  import opened Reals
  import opened SparseMatrices

  /** The value at i, 0 outside: the boundary condition of the builders. */
  function At(u: seq<real>, i: int): real {
    if 0 <= i < |u| then u[i] else 0.0
  }

  /** The first `count` terms of row r of the matrix-vector product. */
  function RowTo(m: Matrix, u: seq<real>, r: int, count: nat): real
    requires count <= |u|
  {
    if count == 0 then 0.0 else RowTo(m, u, r, count - 1) + Coeff(m, r, count - 1) * u[count - 1]
  }

  function Apply(m: Matrix, u: seq<real>, r: int): real {
    RowTo(m, u, r, |u|)
  }

  /** The second difference at i. */
  function Second(u: seq<real>, i: int): real {
    At(u, i - 1) - 2.0 * At(u, i) + At(u, i + 1)
  }

  // ----- The stencils

  function Seen(u: seq<real>, i: int, count: nat): real {
    if i < count then At(u, i) else 0.0
  }

  lemma {:induction false} RowTo1D(m: Matrix, n: nat, f: real, u: seq<real>, r: int, count: nat)
    requires IsLaplacian1D(m, n, f) && |u| == n && 0 <= r < n && count <= n
    ensures RowTo(m, u, r, count) == f * Seen(u, r - 1, count) + -2.0 * f * Seen(u, r, count) + f * Seen(u, r + 1, count)
  {
    if count > 0 {
      RowTo1D(m, n, f, u, r, count - 1);
      var c := count - 1;
      assert (r, c) in m <==> Stored1D(n, r, c);
      assert Coeff(m, r, c) == if r - 1 <= c <= r + 1 then Value1D(f, r, c) else 0.0;
    }
  }

  lemma ScaleSecond(f: real, a: real, b: real, c: real)
    ensures f * a + -2.0 * f * b + f * c == f * (a - 2.0 * b + c)
  {
  }

  /** The one-dimensional matrix takes second differences. */
  lemma Stencil1D(m: Matrix, n: nat, f: real, u: seq<real>, r: int)
    requires IsLaplacian1D(m, n, f) && |u| == n && 0 <= r < n
    ensures Apply(m, u, r) == f * Second(u, r)
  {
    RowTo1D(m, n, f, u, r, n);
    ScaleSecond(f, At(u, r - 1), At(u, r), At(u, r + 1));
  }

  /** The values of row j and of column i of a grid. */
  function RowOf(u: seq<real>, nx: nat, j: int): seq<real> {
    seq(nx, i => At(u, j * nx + i))
  }

  function ColOf(u: seq<real>, nx: nat, ny: nat, i: int): seq<real> {
    seq(ny, j => At(u, j * nx + i))
  }

  /** The part of the five-point sum around point r that the first `count` columns contribute; the flags say which sides exist. */
  function FivePointAt(u: seq<real>, nx: nat, fx: real, fy: real, r: int, left: bool, right: bool, down: bool, top: bool,
                       count: nat): real
  {
    Weighted(-2.0 * (fx + fy), u, r, count)
    + (if left then Weighted(fx, u, r - 1, count) else 0.0)
    + (if right then Weighted(fx, u, r + 1, count) else 0.0)
    + (if down then Weighted(fy, u, r - nx, count) else 0.0)
    + (if top then Weighted(fy, u, r + nx, count) else 0.0)
  }

  function FivePoint(u: seq<real>, nx: nat, ny: nat, fx: real, fy: real, i: int, j: int, count: nat): real {
    FivePointAt(u, nx, fx, fy, j * nx + i, i > 0, i < nx - 1, j > 0, j < ny - 1, count)
  }

  /** One term of the sum, when the column c has been passed. */
  function Weighted(f: real, u: seq<real>, x: int, count: nat): real {
    f * Seen(u, x, count)
  }

  lemma TermStep(f: real, u: seq<real>, x: int, c: nat)
    requires c < |u|
    ensures Weighted(f, u, x, c + 1) - Weighted(f, u, x, c) == if x == c then Times(f, u[c]) else 0.0
  {
    if x == c {
      assert Seen(u, x, c + 1) == u[c] && Seen(u, x, c) == 0.0;
    } else {
      assert Seen(u, x, c + 1) == Seen(u, x, c);
    }
    hide Seen;
  }

  /** What the coefficient of column c is, seen from point r. */
  function CoefficientAt(nx: nat, fx: real, fy: real, r: int, left: bool, right: bool, down: bool, top: bool, c: int): real {
    if c == r then -2.0 * (fx + fy)
    else if (left && c == r - 1) || (right && c == r + 1) then fx
    else if (down && c == r - nx) || (top && c == r + nx) then fy
    else 0.0
  }

  lemma FivePointStep(u: seq<real>, nx: nat, fx: real, fy: real, r: int, left: bool, right: bool, down: bool, top: bool, c: nat)
    requires c < |u| && nx > 0 && (left || right ==> nx > 1) && (nx == 2 ==> !(left && right))
    ensures FivePointAt(u, nx, fx, fy, r, left, right, down, top, c + 1) - FivePointAt(u, nx, fx, fy, r, left, right, down, top, c)
         == Times(CoefficientAt(nx, fx, fy, r, left, right, down, top, c), u[c])
  {
    hide Weighted;
    TermStep(-2.0 * (fx + fy), u, r, c);
    TermStep(fx, u, r - 1, c);
    TermStep(fx, u, r + 1, c);
    TermStep(fy, u, r - nx, c);
    TermStep(fy, u, r + nx, c);
    SignOfProduct(0.0, u[c]);
    hide Times;
  }

  lemma CoefficientIs(nx: nat, ny: nat, fx: real, fy: real, i: nat, j: nat, c: int)
    requires i < nx && j < ny
    ensures CoefficientAt(nx, fx, fy, j * nx + i, i > 0, i < nx - 1, j > 0, j < ny - 1, c)
         == if Neighbours(nx, ny, i, j, c) then Value2D(nx, fx, fy, i, j, c) else 0.0
  {
  }

  lemma {:induction false} RowTo2D(m: Matrix, nx: nat, ny: nat, fx: real, fy: real, u: seq<real>, i: nat, j: nat, count: nat)
    requires nx > 0 && IsLaplacian2D(m, nx, ny, fx, fy) && i < nx && j < ny && count <= |u|
    ensures RowTo(m, u, j * nx + i, count) == FivePoint(u, nx, ny, fx, fy, i, j, count)
  {
    hide Neighbours, Value2D, FivePointAt, CoefficientAt, Times;
    if count > 0 {
      RowTo2D(m, nx, ny, fx, fy, u, i, j, count - 1);
      GridPoint(nx, ny, i, j);
      var r, c := j * nx + i, count - 1;
      FivePointStep(u, nx, fx, fy, r, i > 0, i < nx - 1, j > 0, j < ny - 1, c);
      CoefficientIs(nx, ny, fx, fy, i, j, c);
      assert (r, c) in m <==> Neighbours(nx, ny, i, j, c);
      RowStep(m, u, r, c, if Neighbours(nx, ny, i, j, c) then Value2D(nx, fx, fy, i, j, c) else 0.0);
    } else {
      NothingSeen(u, nx, ny, fx, fy, i, j);
    }
  }

  lemma RowStep(m: Matrix, u: seq<real>, r: int, c: nat, value: real)
    requires c < |u| && Coeff(m, r, c) == value
    ensures RowTo(m, u, r, c + 1) == RowTo(m, u, r, c) + Times(value, u[c])
  {
  }

  lemma NothingSeen(u: seq<real>, nx: nat, ny: nat, fx: real, fy: real, i: int, j: int)
    ensures FivePoint(u, nx, ny, fx, fy, i, j, 0) == 0.0
  {
    var r := j * nx + i;
    assert forall x: int :: Seen(u, x, 0) == 0.0;
  }

  /** One side of the five-point sum, once every column has been passed. */
  lemma SideSeen(f: real, u: seq<real>, x: int, isThere: bool, v: real)
    requires v == if isThere then At(u, x) else 0.0
    ensures (if isThere then Weighted(f, u, x, |u|) else 0.0) == f * v
  {
    assert Seen(u, x, |u|) == At(u, x);
    hide Seen, At;
  }

  lemma RegroupStencil(fx: real, fy: real, a: real, l: real, r: real, d: real, t: real)
    ensures -2.0 * (fx + fy) * a + fx * l + fx * r + fy * d + fy * t
         == fx * (l - 2.0 * a + r) + fy * (d - 2.0 * a + t)
  {
  }

  lemma AllSeen(u: seq<real>, nx: nat, fx: real, fy: real, x: int, left: bool, right: bool, down: bool, top: bool,
                l: real, r: real, d: real, t: real, dx: real, dy: real)
    requires dx == l - 2.0 * At(u, x) + r && dy == d - 2.0 * At(u, x) + t
    requires l == (if left then At(u, x - 1) else 0.0) && r == (if right then At(u, x + 1) else 0.0)
    requires d == (if down then At(u, x - nx) else 0.0) && t == (if top then At(u, x + nx) else 0.0)
    ensures FivePointAt(u, nx, fx, fy, x, left, right, down, top, |u|)
         == fx * dx + fy * dy
  {
    hide At, Weighted;
    SideSeen(-2.0 * (fx + fy), u, x, true, At(u, x));
    SideSeen(fx, u, x - 1, left, l);
    SideSeen(fx, u, x + 1, right, r);
    SideSeen(fy, u, x - nx, down, d);
    SideSeen(fy, u, x + nx, top, t);
    RegroupStencil(fx, fy, At(u, x), l, r, d, t);
  }

  lemma GridNeighbours(u: seq<real>, nx: nat, ny: nat, i: nat, j: nat)
    requires i < nx && j < ny
    ensures var r := j * nx + i;
            && At(RowOf(u, nx, j), i) == At(u, r) && At(ColOf(u, nx, ny, i), j) == At(u, r)
            && At(RowOf(u, nx, j), i - 1) == (if i > 0 then At(u, r - 1) else 0.0)
            && At(RowOf(u, nx, j), i + 1) == (if i < nx - 1 then At(u, r + 1) else 0.0)
            && At(ColOf(u, nx, ny, i), j - 1) == (if j > 0 then At(u, r - nx) else 0.0)
            && At(ColOf(u, nx, ny, i), j + 1) == (if j < ny - 1 then At(u, r + nx) else 0.0)
  {
    assert (j - 1) * nx == j * nx - nx;
    assert (j + 1) * nx == j * nx + nx;
  }

  /** The grid matrix takes second differences along the row and along the column of a point. */
  lemma Stencil2D(m: Matrix, nx: nat, ny: nat, fx: real, fy: real, u: seq<real>, i: nat, j: nat)
    requires nx > 0 && IsLaplacian2D(m, nx, ny, fx, fy) && |u| == nx * ny && i < nx && j < ny
    ensures Apply(m, u, j * nx + i) == fx * Second(RowOf(u, nx, j), i) + fy * Second(ColOf(u, nx, ny, i), j)
  {
    hide IsLaplacian2D, RowTo, FivePointAt, At, RowOf, ColOf;
    RowTo2D(m, nx, ny, fx, fy, u, i, j, |u|);
    GridNeighbours(u, nx, ny, i, j);
    AllSeen(u, nx, fx, fy, j * nx + i, i > 0, i < nx - 1, j > 0, j < ny - 1,
            At(RowOf(u, nx, j), i - 1), At(RowOf(u, nx, j), i + 1), At(ColOf(u, nx, ny, i), j - 1), At(ColOf(u, nx, ny, i), j + 1),
            Second(RowOf(u, nx, j), i), Second(ColOf(u, nx, ny, i), j));
  }

  /** The grid matrix is the one-dimensional matrix along every row plus the one along every column. */
  lemma GridIsSumOfLines(m: Matrix, mx: Matrix, my: Matrix, nx: nat, ny: nat, fx: real, fy: real,
                         u: seq<real>, i: nat, j: nat)
    requires nx > 0 && IsLaplacian2D(m, nx, ny, fx, fy) && IsLaplacian1D(mx, nx, fx) && IsLaplacian1D(my, ny, fy)
    requires |u| == nx * ny && i < nx && j < ny
    ensures Apply(m, u, j * nx + i) == Apply(mx, RowOf(u, nx, j), i) + Apply(my, ColOf(u, nx, ny, i), j)
  {
    hide Apply, Second;
    Stencil2D(m, nx, ny, fx, fy, u, i, j);
    Stencil1D(mx, nx, fx, RowOf(u, nx, j), i);
    Stencil1D(my, ny, fy, ColOf(u, nx, ny, i), j);
  }

  // ----- Symmetry

  lemma LineIsSymmetric(m: Matrix, n: nat, f: real, r: int, c: int)
    requires IsLaplacian1D(m, n, f)
    ensures Coeff(m, r, c) == Coeff(m, c, r)
  {
    assert (r, c) in m <==> Stored1D(n, r, c);
    assert (c, r) in m <==> Stored1D(n, c, r);
  }

  /** A neighbour sees the point it is a neighbour of, with the same coefficient. */
  lemma NeighboursAreMutual(nx: nat, ny: nat, fx: real, fy: real, i: nat, j: nat, c: int)
    requires i < nx && j < ny && Neighbours(nx, ny, i, j, c)
    ensures 0 <= c < nx * ny
    ensures Neighbours(nx, ny, c % nx, c / nx, j * nx + i)
    ensures Value2D(nx, fx, fy, c % nx, c / nx, j * nx + i) == Value2D(nx, fx, fy, i, j, c)
  {
    hide Neighbours, Value2D;
    var i', j' := NeighbourIsPoint(nx, ny, i, j, c);
    SidesAreMutual(nx, ny, fx, fy, i, j, i', j');
  }

  /** The same point, or one of the four next to it. */
  predicate IsBeside(nx: nat, i: nat, j: nat, i': nat, j': nat) {
    || (j' == j && i - 1 <= i' <= i + 1)
    || (i' == i && j' == j - 1 && j' * nx == j * nx - nx)
    || (i' == i && j' == j + 1 && j' * nx == j * nx + nx)
  }

  lemma SidesAreMutual(nx: nat, ny: nat, fx: real, fy: real, i: nat, j: nat, i': nat, j': nat)
    requires i < nx && i' < nx && j < ny && j' < ny && IsBeside(nx, i, j, i', j')
    ensures Neighbours(nx, ny, i', j', j * nx + i)
    ensures Value2D(nx, fx, fy, i', j', j * nx + i) == Value2D(nx, fx, fy, i, j, j' * nx + i')
  {
  }

  /** The grid coordinates of a neighbour. */
  lemma NeighbourIsPoint(nx: nat, ny: nat, i: nat, j: nat, c: int) returns (i': nat, j': nat)
    requires i < nx && j < ny && Neighbours(nx, ny, i, j, c)
    ensures i' < nx && j' < ny && 0 <= c < nx * ny && c == j' * nx + i' && c % nx == i' && c / nx == j'
    ensures IsBeside(nx, i, j, i', j')
  {
    GridPoint(nx, ny, i, j);
    i', j' := i, j;
    if i > 0 && c == j * nx + i - 1 {
      i' := i - 1;
      GridPoint(nx, ny, i - 1, j);
    } else if i < nx - 1 && c == j * nx + i + 1 {
      i' := i + 1;
      GridPoint(nx, ny, i + 1, j);
    } else if j > 0 && c == j * nx + i - nx {
      j' := j - 1;
      LineAbove(nx, ny, i, j, c);
    } else if j < ny - 1 && c == j * nx + i + nx {
      j' := j + 1;
      LineBelow(nx, ny, i, j, c);
    }
  }

  lemma LineAbove(nx: nat, ny: nat, i: nat, j: nat, c: int)
    requires i < nx && 0 < j < ny && c == j * nx + i - nx
    ensures 0 <= c < nx * ny && c % nx == i && c / nx == j - 1
    ensures (j - 1) * nx == j * nx - nx && c == (j - 1) * nx + i
  {
    assert (j - 1) * nx == j * nx - nx;
    GridPoint(nx, ny, i, j - 1);
  }

  lemma LineBelow(nx: nat, ny: nat, i: nat, j: nat, c: int)
    requires i < nx && j < ny - 1 && c == j * nx + i + nx
    ensures 0 <= c < nx * ny && c % nx == i && c / nx == j + 1
    ensures (j + 1) * nx == j * nx + nx && c == (j + 1) * nx + i
  {
    assert (j + 1) * nx == j * nx + nx;
    GridPoint(nx, ny, i, j + 1);
  }

  lemma Monotone(a: nat, b: nat, d: nat)
    ensures a <= b ==> a * d <= b * d
  {
  }

  lemma PointOf(nx: nat, ny: nat, r: int)
    requires nx > 0 && 0 <= r < nx * ny
    ensures 0 <= r % nx < nx && 0 <= r / nx < ny && (r / nx) * nx + r % nx == r
  {
    Monotone(ny, r / nx, nx);
  }

  lemma GridIsSymmetric(m: Matrix, nx: nat, ny: nat, fx: real, fy: real, r: int, c: int)
    requires nx > 0 && IsLaplacian2D(m, nx, ny, fx, fy)
    ensures Coeff(m, r, c) == Coeff(m, c, r)
  {
    hide Neighbours, Value2D;
    if (r, c) in m {
      PointOf(nx, ny, r);
      NeighboursAreMutual(nx, ny, fx, fy, r % nx, r / nx, c);
      assert (c, r) in m;
    } else if (c, r) in m {
      PointOf(nx, ny, c);
      NeighboursAreMutual(nx, ny, fx, fy, c % nx, c / nx, r);
    }
  }

  // ----- The quadratic form of a line

  /** The first k terms of u' L u, without the factor. */
  function QuadTo(u: seq<real>, k: nat): real {
    if k == 0 then 0.0 else QuadTo(u, k - 1) + At(u, k - 1) * Second(u, k - 1)
  }

  /** The squares of the first k - 1 differences between neighbours, and of the first value. */
  function Roughness(u: seq<real>, k: nat): real {
    if k == 0 then 0.0
    else if k == 1 then Square(At(u, 0))
    else Roughness(u, k - 1) + Square(At(u, k - 1) - At(u, k - 2))
  }

  function Square(x: real): real {
    x * x
  }

  lemma SummationStep(a: real, b: real, c: real)
    ensures b * (a - 2.0 * b + c) - a * a + a * b == -Square(b - a) - b * b + b * c
  {
  }

  /** Summation by parts. */
  lemma {:induction false} SummedByParts(u: seq<real>, k: nat)
    requires k > 0
    ensures QuadTo(u, k) == -Roughness(u, k) - At(u, k - 1) * At(u, k - 1) + At(u, k - 1) * At(u, k)
  {
    if k == 1 {
      var a, b := At(u, 0), At(u, 1);
      assert At(u, -1) == 0.0;
      assert QuadTo(u, 1) == QuadTo(u, 0) + a * (0.0 - 2.0 * a + b);
      SummationStep(0.0, a, b);
    } else {
      SummedByParts(u, k - 1);
      SummationStep(At(u, k - 2), At(u, k - 1), At(u, k));
      assert At(u, k - 1) * Second(u, k - 1) == At(u, k - 1) * (At(u, k - 2) - 2.0 * At(u, k - 1) + At(u, k));
      hide At, Square, Second;
      assert QuadTo(u, k) == QuadTo(u, k - 1) + At(u, k - 1) * Second(u, k - 1);
      assert Roughness(u, k) == Roughness(u, k - 1) + Square(At(u, k - 1) - At(u, k - 2));
    }
  }

  lemma SquareIsPositive(x: real)
    ensures Square(x) >= 0.0
    ensures x != 0.0 ==> Square(x) > 0.0
  {
    SignOfProduct(x, x);
    assert Square(x) == Times(x, x);
  }

  lemma {:induction false} RoughnessIsPositive(u: seq<real>, k: nat)
    ensures Roughness(u, k) >= 0.0
    ensures Roughness(u, k) == 0.0 ==> forall i :: 0 <= i < k ==> At(u, i) == 0.0
  {
    hide At, Square;
    if k > 0 {
      RoughnessIsPositive(u, k - 1);
      SquareIsPositive(At(u, 0));
      SquareIsPositive(At(u, k - 1) - At(u, k - 2));
    }
  }

  /** A line's form is never positive, and zero only for the zero line. */
  lemma LineIsDefinite(u: seq<real>)
    ensures QuadTo(u, |u|) <= 0.0
    ensures QuadTo(u, |u|) == 0.0 ==> forall i :: 0 <= i < |u| ==> u[i] == 0.0
  {
    if u != [] {
      var n := |u|;
      SummedByParts(u, n);
      RoughnessIsPositive(u, n);
      assert At(u, n) == 0.0;
      SquareIsPositive(At(u, n - 1));
      assert QuadTo(u, n) == -Roughness(u, n) - Square(At(u, n - 1));
      hide QuadTo, Roughness, Square;
      assert forall i :: 0 <= i < n ==> At(u, i) == u[i];
    }
  }

  // ----- The quadratic forms of the matrices

  /** The first `count` terms of u' m u. */
  function QuadForm(m: Matrix, u: seq<real>, count: nat): real
    requires count <= |u|
  {
    if count == 0 then 0.0 else QuadForm(m, u, count - 1) + u[count - 1] * Apply(m, u, count - 1)
  }

  lemma FactorIsPositive(h: real)
    requires h != 0.0
    ensures Factor(h) > 0.0
  {
    SignOfProduct(h, h);
    assert h * h == Times(h, h);
    Reciprocal(Times(h, h));
  }

  lemma Reciprocal(x: real)
    requires x > 0.0
    ensures 1.0 / x > 0.0
  {
  }

  lemma {:induction false} LineForm(m: Matrix, n: nat, f: real, u: seq<real>, count: nat)
    requires IsLaplacian1D(m, n, f) && |u| == n && count <= n
    ensures QuadForm(m, u, count) == f * QuadTo(u, count)
  {
    hide Apply, Second, IsLaplacian1D;
    if count > 0 {
      LineForm(m, n, f, u, count - 1);
      Stencil1D(m, n, f, u, count - 1);
      LineTerm(f, u[count - 1], Second(u, count - 1), QuadTo(u, count - 1));
    }
  }

  lemma LineTerm(f: real, a: real, s: real, q: real)
    ensures f * q + a * (f * s) == f * (q + a * s)
  {
  }

  lemma SignOfScaled(f: real, q: real)
    requires f > 0.0
    ensures q <= 0.0 ==> f * q <= 0.0
    ensures q < 0.0 ==> f * q < 0.0
  {
  }

  /** The one-dimensional matrix is negative definite. */
  lemma LineMatrixIsDefinite(m: Matrix, n: nat, h: real, u: seq<real>)
    requires h != 0.0 && IsLaplacian1D(m, n, Factor(h)) && |u| == n
    ensures QuadForm(m, u, n) <= 0.0
    ensures QuadForm(m, u, n) == 0.0 ==> forall i :: 0 <= i < n ==> u[i] == 0.0
  {
    hide Factor, QuadTo, QuadForm, IsLaplacian1D;
    LineForm(m, n, Factor(h), u, n);
    LineIsDefinite(u);
    FactorIsPositive(h);
    SignOfScaled(Factor(h), QuadTo(u, n));
  }

  /** The forms of the first j rows of the grid. */
  function RowsTo(u: seq<real>, nx: nat, j: nat): real {
    if j == 0 then 0.0 else RowsTo(u, nx, j - 1) + QuadTo(RowOf(u, nx, j - 1), nx)
  }

  /** The forms of the first `count` columns, each down to row j, or one further left of column i. */
  function ColsTo(u: seq<real>, nx: nat, ny: nat, i: nat, j: nat, count: nat): real {
    if count == 0 then 0.0
    else ColsTo(u, nx, ny, i, j, count - 1) + QuadTo(ColOf(u, nx, ny, count - 1), if count - 1 < i then j + 1 else j)
  }

  lemma {:induction false} ColsStart(u: seq<real>, nx: nat, ny: nat, count: nat)
    ensures ColsTo(u, nx, ny, 0, 0, count) == 0.0
  {
    if count > 0 {
      ColsStart(u, nx, ny, count - 1);
    }
  }

  lemma {:induction false} ColsTurn(u: seq<real>, nx: nat, ny: nat, j: nat, count: nat)
    requires count <= nx
    ensures ColsTo(u, nx, ny, nx, j, count) == ColsTo(u, nx, ny, 0, j + 1, count)
  {
    if count > 0 {
      ColsTurn(u, nx, ny, j, count - 1);
    }
  }

  lemma {:induction false} ColsAdvance(u: seq<real>, nx: nat, ny: nat, i: nat, j: nat, count: nat)
    ensures ColsTo(u, nx, ny, i + 1, j, count)
         == ColsTo(u, nx, ny, i, j, count)
            + if i < count then At(ColOf(u, nx, ny, i), j) * Second(ColOf(u, nx, ny, i), j) else 0.0
  {
    hide At, Second, ColOf;
    if count > 0 {
      ColsAdvance(u, nx, ny, i, j, count - 1);
    }
  }

  lemma GridTerm(fx: real, fy: real, a: real, s: real, t: real, q: real, p: real)
    ensures fx * q + fy * p + a * (fx * s + fy * t) == fx * (q + a * s) + fy * (p + a * t)
  {
  }

  /** One more point adds the same to the form as to the forms of its row and its column. */
  lemma FormTerm(fx: real, fy: real, a: real, s: real, t: real, applied: real, rows: real,
                 quad: real, quad': real, cols: real, cols': real, form: real, form': real)
    requires form == fx * (rows + quad) + fy * cols && form' == form + a * applied && applied == fx * s + fy * t
    requires quad' == quad + a * s && cols' == cols + a * t
    ensures form' == fx * (rows + quad') + fy * cols'
  {
    GridTerm(fx, fy, a, s, t, rows + quad, cols);
    assert form' == form + a * (fx * s + fy * t);
    assert fx * (rows + quad') == fx * ((rows + quad) + a * s);
    assert fy * cols' == fy * (cols + a * t);
  }

  /** The form of the grid up to the point numbered r: the rows finished, the row begun, and every column so far. */
  ghost predicate FormEquals(m: Matrix, nx: nat, ny: nat, fx: real, fy: real, u: seq<real>, i: nat, j: nat, r: nat) {
    && r <= |u|
    && QuadForm(m, u, r) == fx * (RowsTo(u, nx, j) + QuadTo(RowOf(u, nx, j), i)) + fy * ColsTo(u, nx, ny, i, j, nx)
  }

  ghost predicate FormAt(m: Matrix, nx: nat, ny: nat, fx: real, fy: real, u: seq<real>, i: nat, j: nat) {
    FormEquals(m, nx, ny, fx, fy, u, i, j, j * nx + i)
  }

  lemma FormStarts(m: Matrix, nx: nat, ny: nat, fx: real, fy: real, u: seq<real>)
    ensures FormAt(m, nx, ny, fx, fy, u, 0, 0)
  {
    ColsStart(u, nx, ny, nx);
  }

  lemma FormTurns(m: Matrix, nx: nat, ny: nat, fx: real, fy: real, u: seq<real>, j: nat)
    requires FormAt(m, nx, ny, fx, fy, u, nx, j)
    ensures FormAt(m, nx, ny, fx, fy, u, 0, j + 1)
  {
    hide QuadForm, ColsTo, RowOf;
    assert j * nx + nx == (j + 1) * nx + 0;
    ColsTurn(u, nx, ny, j, nx);
    NothingOfLine(RowOf(u, nx, j + 1));
    assert RowsTo(u, nx, j + 1) == RowsTo(u, nx, j) + QuadTo(RowOf(u, nx, j), nx);
    hide QuadTo, RowsTo;
    assert RowsTo(u, nx, j + 1) + QuadTo(RowOf(u, nx, j + 1), 0) == RowsTo(u, nx, j) + QuadTo(RowOf(u, nx, j), nx);
    assert QuadForm(m, u, (j + 1) * nx + 0) == QuadForm(m, u, j * nx + nx);
  }

  lemma FormStepsAt(m: Matrix, nx: nat, ny: nat, fx: real, fy: real, u: seq<real>, i: nat, j: nat, r: nat)
    requires i < nx && r < |u| && FormEquals(m, nx, ny, fx, fy, u, i, j, r)
    requires At(RowOf(u, nx, j), i) == At(u, r) && At(ColOf(u, nx, ny, i), j) == At(u, r)
    requires Apply(m, u, r) == fx * Second(RowOf(u, nx, j), i) + fy * Second(ColOf(u, nx, ny, i), j)
    ensures FormEquals(m, nx, ny, fx, fy, u, i + 1, j, r + 1)
  {
    hide QuadForm, QuadTo, RowsTo, ColsTo, RowOf, ColOf, At, Second, Apply;
    var a, s, t := At(u, r), Second(RowOf(u, nx, j), i), Second(ColOf(u, nx, ny, i), j);
    ColumnSteps(u, nx, ny, i, j, a, t);
    QuadSteps(RowOf(u, nx, j), i, a, s);
    FormOneMore(m, u, r);
    FormTerm(fx, fy, a, s, t, Apply(m, u, r), RowsTo(u, nx, j), QuadTo(RowOf(u, nx, j), i), QuadTo(RowOf(u, nx, j), i + 1),
             ColsTo(u, nx, ny, i, j, nx), ColsTo(u, nx, ny, i + 1, j, nx), QuadForm(m, u, r), QuadForm(m, u, r + 1));
  }

  lemma FormSteps(m: Matrix, nx: nat, ny: nat, fx: real, fy: real, u: seq<real>, i: nat, j: nat)
    requires nx > 0 && IsLaplacian2D(m, nx, ny, fx, fy) && |u| == nx * ny && i < nx && j < ny
    requires FormAt(m, nx, ny, fx, fy, u, i, j)
    ensures FormAt(m, nx, ny, fx, fy, u, i + 1, j)
  {
    hide FormEquals, At, RowOf, ColOf, Apply, Second, IsLaplacian2D;
    GridPoint(nx, ny, i, j);
    Stencil2D(m, nx, ny, fx, fy, u, i, j);
    GridNeighbours(u, nx, ny, i, j);
    FormStepsAt(m, nx, ny, fx, fy, u, i, j, j * nx + i);
    assert j * nx + (i + 1) == j * nx + i + 1;
  }

  lemma {:induction false} GridForm(m: Matrix, nx: nat, ny: nat, fx: real, fy: real, u: seq<real>, i: nat, j: nat)
    requires nx > 0 && IsLaplacian2D(m, nx, ny, fx, fy) && |u| == nx * ny && i <= nx && j <= ny && (i > 0 ==> j < ny)
    ensures FormAt(m, nx, ny, fx, fy, u, i, j)
    decreases j, i
  {
    hide IsLaplacian2D, FormAt;
    if i > 0 {
      GridForm(m, nx, ny, fx, fy, u, i - 1, j);
      FormSteps(m, nx, ny, fx, fy, u, i - 1, j);
    } else if j > 0 {
      GridForm(m, nx, ny, fx, fy, u, nx, j - 1);
      FormTurns(m, nx, ny, fx, fy, u, j - 1);
    } else {
      FormStarts(m, nx, ny, fx, fy, u);
    }
  }

  lemma FormOneMore(m: Matrix, u: seq<real>, r: nat)
    requires r < |u|
    ensures QuadForm(m, u, r + 1) == QuadForm(m, u, r) + At(u, r) * Apply(m, u, r)
  {
    hide Apply;
  }

  lemma QuadSteps(row: seq<real>, i: nat, a: real, s: real)
    requires At(row, i) == a && Second(row, i) == s
    ensures QuadTo(row, i + 1) == QuadTo(row, i) + a * s
  {
    hide At, Second;
  }

  lemma ColumnSteps(u: seq<real>, nx: nat, ny: nat, i: nat, j: nat, a: real, t: real)
    requires i < nx && At(ColOf(u, nx, ny, i), j) == a && Second(ColOf(u, nx, ny, i), j) == t
    ensures ColsTo(u, nx, ny, i + 1, j, nx) == ColsTo(u, nx, ny, i, j, nx) + a * t
  {
    hide At, Second, ColOf, ColsTo;
    ColsAdvance(u, nx, ny, i, j, nx);
  }

  lemma {:induction false} RowsAreDefinite(u: seq<real>, nx: nat, ny: nat, j: nat)
    requires |u| == nx * ny && j <= ny
    ensures RowsTo(u, nx, j) <= 0.0
    ensures RowsTo(u, nx, j) == 0.0 ==> forall k, i :: 0 <= k < j && 0 <= i < nx ==> At(RowOf(u, nx, k), i) == 0.0
  {
    hide QuadTo;
    if j > 0 {
      RowsAreDefinite(u, nx, ny, j - 1);
      LineIsDefinite(RowOf(u, nx, j - 1));
    }
  }

  lemma {:induction false} ColsAreNegative(u: seq<real>, nx: nat, ny: nat, count: nat)
    ensures ColsTo(u, nx, ny, 0, ny, count) <= 0.0
  {
    hide QuadTo;
    if count > 0 {
      ColsAreNegative(u, nx, ny, count - 1);
      LineIsDefinite(ColOf(u, nx, ny, count - 1));
    }
  }

  /** The grid matrix is negative definite: its form is never positive, and zero only for the zero grid. */
  lemma GridMatrixIsDefinite(m: Matrix, nx: nat, ny: nat, hx: real, hy: real, u: seq<real>)
    requires nx > 0 && hx != 0.0 && hy != 0.0
    requires IsLaplacian2D(m, nx, ny, Factor(hx), Factor(hy)) && |u| == nx * ny
    ensures QuadForm(m, u, |u|) <= 0.0
    ensures QuadForm(m, u, |u|) == 0.0 ==> forall r :: 0 <= r < |u| ==> u[r] == 0.0
  {
    hide Factor, QuadTo, QuadForm, IsLaplacian2D, RowsTo, ColsTo, At;
    GridForm(m, nx, ny, Factor(hx), Factor(hy), u, 0, ny);
    NothingOfLine(RowOf(u, nx, ny));
    assert ny * nx + 0 == |u|;
    RowsAreDefinite(u, nx, ny, ny);
    ColsAreNegative(u, nx, ny, nx);
    FactorIsPositive(hx);
    FactorIsPositive(hy);
    SignOfScaled(Factor(hx), RowsTo(u, nx, ny));
    SignOfScaled(Factor(hy), ColsTo(u, nx, ny, 0, ny, nx));
    if QuadForm(m, u, |u|) == 0.0 {
      forall r | 0 <= r < |u|
        ensures u[r] == 0.0
      {
        PointOf(nx, ny, r);
        PointValue(u, nx, ny, r);
      }
    }
  }

  lemma NothingOfLine(u: seq<real>)
    ensures QuadTo(u, 0) == 0.0
  {
  }

  lemma PointValue(u: seq<real>, nx: nat, ny: nat, r: nat)
    requires nx > 0 && r < |u| == nx * ny
    ensures u[r] == At(RowOf(u, nx, r / nx), r % nx)
  {
    PointOf(nx, ny, r);
    assert (r / nx) * nx + r % nx == r;
    assert RowOf(u, nx, r / nx)[r % nx] == At(u, (r / nx) * nx + r % nx);
  }
}
