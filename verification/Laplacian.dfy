/** The symmetric closure of an adjacency matrix, and its combinatorial Laplacian D - A. */
module Laplacian {
  import opened PairSums
  import opened RealSums
  import opened Walks

  function At(a: Matrix, i: nat, j: nat): real {
    if i < |a| && j < |a[i]| then a[i][j] else 0.0
  }

  /** The undirected weight: the larger of the two directions. */
  function Sym(a: Matrix): (nat, nat) -> real {
    (i: nat, j: nat) => if At(a, i, j) >= At(a, j, i) then At(a, i, j) else At(a, j, i)
  }

  ghost predicate Symmetric(a: Matrix) {
    forall i: nat, j: nat :: At(a, i, j) == At(a, j, i)
  }

  /** The undirected weights as a matrix. */
  function SymMatrix(a: Matrix, n: nat): (r: Matrix)
    ensures Square(r, n) && forall i: nat, j: nat | i < n && j < n :: r[i][j] == Sym(a)(i, j)
  {
    seq(n, i requires 0 <= i < n => seq(n, j requires 0 <= j < n => Sym(a)(i, j)))
  }

  /** The undirected matrix is symmetric, and taking it once more changes nothing. */
  lemma SymIsSymmetric(a: Matrix, n: nat)
    ensures Symmetric(SymMatrix(a, n)) && SymMatrix(SymMatrix(a, n), n) == SymMatrix(a, n)
  {
    var r := SymMatrix(a, n);
    forall i: nat, j: nat ensures At(r, i, j) == At(r, j, i) {
      assert Sym(a)(i, j) == Sym(a)(j, i);
    }
    var again := SymMatrix(r, n);
    forall i: nat, j: nat | i < n && j < n ensures again[i][j] == r[i][j] {
      assert At(r, i, j) == At(r, j, i);
    }
    assert forall i | 0 <= i < n :: again[i] == r[i];
  }

  function Degree(a: Matrix, n: nat, i: nat): real {
    Sum(n, Row(Sym(a), i))
  }

  function LaplacianEntry(a: Matrix, n: nat): (nat, nat) -> real {
    (i: nat, j: nat) => (if i == j then Degree(a, n, i) else 0.0) - Sym(a)(i, j)
  }

  /** Rows of the Laplacian sum to zero. */
  lemma RowsSumToZero(a: Matrix, n: nat, i: nat)
    requires i < n
    ensures Sum(n, Row(LaplacianEntry(a, n), i)) == 0.0
  {
    var diagonal: nat -> real := (j: nat) => if i == j then Degree(a, n, i) else 0.0;
    SumSingle(n, diagonal, i);
    SumScaled(n, -1.0, Row(Sym(a), i));
    SumPlus(n, diagonal, Scaled(-1.0, Row(Sym(a), i)));
    forall j: nat | j < n
      ensures Row(LaplacianEntry(a, n), i)(j) == Plus(diagonal, Scaled(-1.0, Row(Sym(a), i)))(j)
    {
      assert LaplacianEntry(a, n)(i, j) == diagonal(j) - Sym(a)(i, j);
    }
    SumEqual(n, Row(LaplacianEntry(a, n), i), Plus(diagonal, Scaled(-1.0, Row(Sym(a), i))));
    assert Sum(n, diagonal) == Degree(a, n, i) == Sum(n, Row(Sym(a), i));
  }

  // ---- the quadratic form -----------------------------------------------------------------------------

  /** x' L x. */
  ghost function Quadratic(a: Matrix, n: nat, x: nat -> real): (nat, nat) -> real {
    (i: nat, j: nat) => x(i) * LaplacianEntry(a, n)(i, j) * x(j)
  }

  /** The tension of the edge between i and j. */
  ghost function Tension(a: Matrix, x: nat -> real, i: nat): nat -> real {
    (j: nat) => Sym(a)(i, j) * ((x(i) - x(j)) * (x(i) - x(j)))
  }

  ghost function Tensions(a: Matrix, x: nat -> real): nat -> real {
    (i: nat) => Sum(i, Tension(a, x, i))
  }

  /** a_ij (x_i^2 - x_i x_j). */
  ghost function HalfTension(a: Matrix, x: nat -> real): (nat, nat) -> real {
    (i: nat, j: nat) => Sym(a)(i, j) * (x(i) * x(i) - x(i) * x(j))
  }

  ghost function DiagonalTerm(i: nat, c: real): nat -> real {
    (j: nat) => if i == j then c else 0.0
  }

  ghost function CrossTerm(a: Matrix, x: nat -> real, i: nat): nat -> real {
    (j: nat) => -(x(i) * (Sym(a)(i, j) * x(j)))
  }

  lemma RowTerm(a: Matrix, n: nat, x: nat -> real, i: nat, j: nat, c: real, total: real)
    requires c == x(i) * x(i) && total == c * Degree(a, n, i)
    ensures Row(Quadratic(a, n, x), i)(j) == DiagonalTerm(i, total)(j) + CrossTerm(a, x, i)(j)
    ensures Row(HalfTension(a, x), i)(j) == Scaled(c, Row(Sym(a), i))(j) + CrossTerm(a, x, i)(j)
  {
    hide Degree, Sym;
    var w, d := Sym(a)(i, j), Degree(a, n, i);
    assert LaplacianEntry(a, n)(i, j) == (if i == j then d else 0.0) - w;
    QuadraticEntry(x(i), x(j), w, d, i == j);
  }

  lemma DiagonalTotal(a: Matrix, n: nat, c: real, i: nat)
    requires i < n
    ensures Sum(n, DiagonalTerm(i, c * Degree(a, n, i))) == Sum(n, Scaled(c, Row(Sym(a), i)))
  {
    SumSingle(n, DiagonalTerm(i, c * Degree(a, n, i)), i);
    SumScaled(n, c, Row(Sym(a), i));
  }

  lemma QuadraticRow(a: Matrix, n: nat, x: nat -> real, i: nat)
    requires i < n
    ensures Sum(n, Row(Quadratic(a, n, x), i)) == Sum(n, Row(HalfTension(a, x), i))
  {
    hide *;
    var c := x(i) * x(i);
    var total := c * Degree(a, n, i);
    var diagonal, scaled := DiagonalTerm(i, total), Scaled(c, Row(Sym(a), i));
    var cross := CrossTerm(a, x, i);
    DiagonalTotal(a, n, c, i);
    SumPlus(n, diagonal, cross);
    SumPlus(n, scaled, cross);
    forall j: nat | j < n
      ensures Row(Quadratic(a, n, x), i)(j) == Plus(diagonal, cross)(j)
      ensures Row(HalfTension(a, x), i)(j) == Plus(scaled, cross)(j)
    {
      RowTerm(a, n, x, i, j, c, total);
      PlusAt(diagonal, cross, j);
      PlusAt(scaled, cross, j);
    }
    SumEqual(n, Row(Quadratic(a, n, x), i), Plus(diagonal, cross));
    SumEqual(n, Row(HalfTension(a, x), i), Plus(scaled, cross));
  }

  lemma PlusAt(f: nat -> real, g: nat -> real, j: nat)
    ensures Plus(f, g)(j) == f(j) + g(j)
  {
  }

  lemma QuadraticEntry(xi: real, xj: real, w: real, d: real, same: bool)
    requires same ==> xi == xj
    ensures xi * ((if same then d else 0.0) - w) * xj == (if same then xi * xi * d else 0.0) + -(xi * (w * xj))
    ensures w * (xi * xi - xi * xj) == xi * xi * w + -(xi * (w * xj))
  {
  }

  lemma TensionFolds(xi: real, xj: real, w: real)
    ensures w * (xi * xi - xi * xj) + w * (xj * xj - xj * xi) == w * ((xi - xj) * (xi - xj))
  {
  }

  /** The quadratic form of the Laplacian is the total tension over unordered pairs. */
  lemma QuadraticIsTension(a: Matrix, n: nat, x: nat -> real)
    ensures Total(Quadratic(a, n, x), n, n) == Sum(n, Tensions(a, x))
  {
    var f := HalfTension(a, x);
    forall i: nat | i < n ensures RowSums(Quadratic(a, n, x), n)(i) == RowSums(f, n)(i) {
      QuadraticRow(a, n, x, i);
    }
    SumEqual(n, RowSums(Quadratic(a, n, x), n), RowSums(f, n));
    FoldTotal(f, n);
    forall i: nat | i < n ensures Folded(f)(i) == Tensions(a, x)(i) {
      forall j: nat | j < i ensures Both(f, i)(j) == Tension(a, x, i)(j) {
        TensionFolds(x(i), x(j), Sym(a)(i, j));
      }
      SumEqual(i, Both(f, i), Tension(a, x, i));
    }
    SumEqual(n, Folded(f), Tensions(a, x));
  }

  /** With non-negative weights the Laplacian is positive semidefinite. */
  lemma PositiveSemidefinite(a: Matrix, n: nat, x: nat -> real)
    requires forall i: nat, j: nat :: At(a, i, j) >= 0.0
    ensures Total(Quadratic(a, n, x), n, n) >= 0.0
  {
    QuadraticIsTension(a, n, x);
    hide Total, Quadratic, Sum;
    forall i: nat | i < n ensures Tensions(a, x)(i) >= 0.0 {
      forall j: nat | j < i ensures Tension(a, x, i)(j) >= 0.0 {
        assert Sym(a)(i, j) >= 0.0;
        hide Sym;
        WeightedSquare(Sym(a)(i, j), x(i) - x(j));
      }
      SumNonNegative(i, Tension(a, x, i));
    }
    SumNonNegative(n, Tensions(a, x));
  }

  lemma WeightedSquare(w: real, d: real)
    requires w >= 0.0
    ensures w * (d * d) >= 0.0
  {
    assert d * d >= 0.0;
  }
}
