/** Sparse matrices and the builders of the discrete Laplacian. */
module SparseMatrices {

  /** Stored coefficients by row and column; every other coefficient is 0. */
  type Matrix = map<(int, int), real>

  function Coeff(m: Matrix, r: int, c: int): real {
    if (r, c) in m then m[(r, c)] else 0.0
  }

  function Factor(h: real): real
    requires h != 0.0
  {
    1.0 / (h * h)
  }

  /** The coordinates the one-dimensional builder stores, and what it stores there. */
  predicate Stored1D(n: nat, r: int, c: int) {
    0 <= r < n && 0 <= c < n && -1 <= r - c <= 1
  }

  function Value1D(f: real, r: int, c: int): real {
    if r == c then -2.0 * f else f
  }

  ghost predicate IsLaplacian1D(m: Matrix, n: nat, f: real) {
    forall r: int, c: int ::
      ((r, c) in m <==> Stored1D(n, r, c)) && ((r, c) in m ==> m[(r, c)] == Value1D(f, r, c))
  }

  /** The same for the grid with nx columns, whose point (i, j) has number j * nx + i. */
  predicate Neighbours(nx: nat, ny: nat, i: int, j: int, c: int) {
    || c == j * nx + i
    || (i > 0 && c == j * nx + i - 1)
    || (i < nx - 1 && c == j * nx + i + 1)
    || (j > 0 && c == j * nx + i - nx)
    || (j < ny - 1 && c == j * nx + i + nx)
  }

  function Value2D(nx: nat, fx: real, fy: real, i: int, j: int, c: int): real {
    var r := j * nx + i;
    if c == r then -2.0 * (fx + fy)
    else if (i > 0 && c == r - 1) || (i < nx - 1 && c == r + 1) then fx
    else fy
  }

  /** The matrix holds the rows of exactly the first `count` points. */
  ghost predicate HoldsRows2D(m: Matrix, nx: nat, ny: nat, fx: real, fy: real, count: int)
    requires nx > 0
  {
    forall r: int, c: int ::
      && ((r, c) in m <==> 0 <= r < count && Neighbours(nx, ny, r % nx, r / nx, c))
      && ((r, c) in m ==> m[(r, c)] == Value2D(nx, fx, fy, r % nx, r / nx, c))
  }

  ghost predicate IsLaplacian2D(m: Matrix, nx: nat, ny: nat, fx: real, fy: real)
    requires nx > 0
  {
    HoldsRows2D(m, nx, ny, fx, fy, nx * ny)
  }

  /** The number of a grid point, and the numbers of its neighbours. */
  lemma GridPoint(nx: nat, ny: nat, i: nat, j: nat)
    requires i < nx && j < ny
    ensures var r := j * nx + i;
            && 0 <= r < nx * ny
            && r / nx == j && r % nx == i
            && (j > 0 ==> r - nx >= 0)
            && (j < ny - 1 ==> r + nx < nx * ny)
  {
    var r := j * nx + i;
    assert (j + 1) * nx <= ny * nx;
    if j > 0 {
      assert (j - 1) * nx >= 0;
    }
    if j < ny - 1 {
      assert (j + 2) * nx <= ny * nx;
    }
    QuotientIs(r, nx, j, i);
  }

  lemma QuotientIs(r: nat, d: nat, q: nat, m: nat)
    requires m < d && r == q * d + m
    ensures r / d == q && r % d == m
  {
    var p, k := r / d, r % d;
    assert r == d * p + k && 0 <= k < d;
    Steps(q, p, d);
    Steps(p, q, d);
  }

  lemma Steps(a: nat, b: nat, d: nat)
    ensures a < b ==> a * d + d <= d * b
    ensures a * d == d * a
  {
    if a < b {
      assert (a + 1) * d <= b * d;
    }
  }

  class SparseMatrixWrapper {
    var coeffs: Matrix
    const rows: int
    const cols: int

    constructor (rows: int, cols: int)
      ensures this.rows == rows && this.cols == cols && coeffs == map[]
    {
      this.rows, this.cols := rows, cols;
      coeffs := map[];
    }

    /** Eigen's insert: the place must be inside the matrix and still empty. */
    method SetCoefficient(row: int, col: int, value: real)
      requires 0 <= row < rows && 0 <= col < cols && (row, col) !in coeffs
      modifies this
      ensures coeffs == old(coeffs)[(row, col) := value]
    {
      coeffs := coeffs[(row, col) := value];
    }
  }

  method CreateLaplacian1D(n: nat, h: real) returns (result: SparseMatrixWrapper)
    requires h != 0.0
    ensures fresh(result) && result.rows == n && result.cols == n
    ensures IsLaplacian1D(result.coeffs, n, Factor(h))
  {
    result := new SparseMatrixWrapper(n, n);
    var factor := 1.0 / (h * h);
    for i := 0 to n
      invariant fresh(result) && result.rows == n && result.cols == n
      invariant forall r: int, c: int :: (r, c) in result.coeffs <==> r < i && Stored1D(n, r, c)
      invariant forall r: int, c: int :: (r, c) in result.coeffs ==> result.coeffs[(r, c)] == Value1D(factor, r, c)
    {
      result.SetCoefficient(i, i, -2.0 * factor);
      if i > 0 {
        result.SetCoefficient(i, i - 1, factor);
      }
      if i < n - 1 {
        result.SetCoefficient(i, i + 1, factor);
      }
    }
  }

  /** The inserts for one grid point. */
  method InsertPoint(result: SparseMatrixWrapper, nx: nat, ny: nat, i: nat, j: nat, fx: real, fy: real)
    requires i < nx && j < ny && result.rows == result.cols == nx * ny
    requires forall r: int, c: int :: r == j * nx + i ==> (r, c) !in result.coeffs
    modifies result
    ensures forall r: int, c: int :: r != j * nx + i ==> ((r, c) in result.coeffs <==> (r, c) in old(result.coeffs))
    ensures forall r: int, c: int :: r != j * nx + i && (r, c) in result.coeffs ==>
              result.coeffs[(r, c)] == old(result.coeffs)[(r, c)]
    ensures forall c: int :: (j * nx + i, c) in result.coeffs <==> Neighbours(nx, ny, i, j, c)
    ensures forall c: int :: (j * nx + i, c) in result.coeffs ==>
              result.coeffs[(j * nx + i, c)] == Value2D(nx, fx, fy, i, j, c)
  {
    hide Neighbours, Value2D;
    GridPoint(nx, ny, i, j);
    ghost var before := result.coeffs;
    var idx := j * nx + i;
    result.SetCoefficient(idx, idx, -2.0 * (fx + fy));
    if i > 0 {
      result.SetCoefficient(idx, idx - 1, fx);
    }
    if i < nx - 1 {
      result.SetCoefficient(idx, idx + 1, fx);
    }
    if j > 0 {
      result.SetCoefficient(idx, idx - nx, fy);
    }
    if j < ny - 1 {
      result.SetCoefficient(idx, idx + nx, fy);
    }
    PointInserted(before, result.coeffs, nx, ny, i, j, fx, fy);
  }

  function With(m: Matrix, isThere: bool, r: int, c: int, value: real): Matrix {
    if isThere then m[(r, c) := value] else m
  }

  /** The five inserts for one grid point fill its row and touch no other. */
  lemma PointInserted(before: Matrix, after: Matrix, nx: nat, ny: nat, i: nat, j: nat, fx: real, fy: real)
    requires i < nx && j < ny && forall r: int, c: int :: r == j * nx + i ==> (r, c) !in before
    requires var r := j * nx + i;
             after == With(With(With(With(before[(r, r) := -2.0 * (fx + fy)], i > 0, r, r - 1, fx),
                                     i < nx - 1, r, r + 1, fx), j > 0, r, r - nx, fy), j < ny - 1, r, r + nx, fy)
    ensures forall r: int, c: int :: r != j * nx + i ==> ((r, c) in after <==> (r, c) in before)
    ensures forall r: int, c: int :: r != j * nx + i && (r, c) in after ==> after[(r, c)] == before[(r, c)]
    ensures forall c: int :: (j * nx + i, c) in after <==> Neighbours(nx, ny, i, j, c)
    ensures forall c: int :: (j * nx + i, c) in after ==> after[(j * nx + i, c)] == Value2D(nx, fx, fy, i, j, c)
  {
  }

  method CreateLaplacian2D(nx: nat, ny: nat, hx: real, hy: real) returns (result: SparseMatrixWrapper)
    requires hx != 0.0 && hy != 0.0
    ensures fresh(result) && result.rows == nx * ny && result.cols == nx * ny
    ensures nx > 0 ==> IsLaplacian2D(result.coeffs, nx, ny, Factor(hx), Factor(hy))
    ensures nx == 0 ==> result.coeffs == map[]
  {
    hide Neighbours, Value2D;
    var n := nx * ny;
    result := new SparseMatrixWrapper(n, n);
    var fx, fy := 1.0 / (hx * hx), 1.0 / (hy * hy);
    for j := 0 to ny
      invariant fresh(result) && result.rows == result.cols == n
      invariant if nx > 0 then HoldsRows2D(result.coeffs, nx, ny, fx, fy, j * nx) else result.coeffs == map[]
    {
      for i := 0 to nx
        invariant fresh(result) && result.rows == result.cols == n
        invariant if nx > 0 then HoldsRows2D(result.coeffs, nx, ny, fx, fy, j * nx + i) else result.coeffs == map[]
      {
        GridPoint(nx, ny, i, j);
        ghost var before := result.coeffs;
        InsertPoint(result, nx, ny, i, j, fx, fy);
        RowAdded(before, result.coeffs, nx, ny, fx, fy, i, j);
      }
      assert j * nx + nx == (j + 1) * nx;
    }
    assert ny * nx == nx * ny;
  }

  lemma RowAdded(before: Matrix, after: Matrix, nx: nat, ny: nat, fx: real, fy: real, i: nat, j: nat)
    requires i < nx && j < ny && HoldsRows2D(before, nx, ny, fx, fy, j * nx + i)
    requires forall r: int, c: int :: r != j * nx + i ==> ((r, c) in after <==> (r, c) in before)
    requires forall r: int, c: int :: r != j * nx + i && (r, c) in after ==> after[(r, c)] == before[(r, c)]
    requires forall c: int :: (j * nx + i, c) in after <==> Neighbours(nx, ny, i, j, c)
    requires forall c: int :: (j * nx + i, c) in after ==> after[(j * nx + i, c)] == Value2D(nx, fx, fy, i, j, c)
    ensures HoldsRows2D(after, nx, ny, fx, fy, j * nx + i + 1)
  {
    hide Neighbours, Value2D;
    GridPoint(nx, ny, i, j);
  }
}
