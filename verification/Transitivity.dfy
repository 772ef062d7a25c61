/** `_compute_clustering_coefficient`: trace(A^3) against the connected triplets of the 0/1 adjacency. */
module Transitivity {
  import opened PairSums
  import opened RealSums
  import opened Walks
  import opened Laplacian

  /** The binarised adjacency. */
  function Bin(a: Matrix): (nat, nat) -> real {
    (i: nat, j: nat) => if At(a, i, j) > 0.0 then 1.0 else 0.0
  }

  function Neighbours(a: Matrix, n: nat, i: nat): real {
    Sum(n, Row(Bin(a), i))
  }

  /** The two-step entries (A^2)_ik, and (A^3)_ii. */
  function TwoStep(a: Matrix, i: nat, k: nat): nat -> real {
    (j: nat) => Bin(a)(i, j) * Bin(a)(j, k)
  }

  function ThreeStep(a: Matrix, n: nat, i: nat): nat -> real {
    (k: nat) => Sum(n, TwoStep(a, i, k)) * Bin(a)(k, i)
  }

  function CubeDiagonal(a: Matrix, n: nat): nat -> real {
    (i: nat) => Sum(n, ThreeStep(a, n, i))
  }

  function Trace(a: Matrix, n: nat): real {
    Sum(n, CubeDiagonal(a, n))
  }

  function Triplets(a: Matrix, n: nat): nat -> real {
    (i: nat) => Neighbours(a, n, i) * (Neighbours(a, n, i) - 1.0) / 2.0
  }

  /** The coefficient as the source computes it, before rounding. */
  function Coefficient(a: Matrix, n: nat): real {
    var triangles, triplets := Trace(a, n) / 2.0, Sum(n, Triplets(a, n));
    if n < 3 || triplets == 0.0 then 0.0 else 3.0 * (triangles / 3.0) / triplets
  }

  // ---- pairs of neighbours of i -----------------------------------------------------------------------

  /** Both j and k are neighbours of i, and adjacent to each other. */
  function ClosedPair(a: Matrix, i: nat): (nat, nat) -> real {
    (j: nat, k: nat) => Bin(a)(i, j) * Bin(a)(j, k) * Bin(a)(k, i)
  }

  /** Two different neighbours of i that are not adjacent. */
  function OpenPair(a: Matrix, i: nat): (nat, nat) -> real {
    (j: nat, k: nat) => if j == k then 0.0 else Bin(a)(i, j) * Bin(a)(i, k) * (1.0 - Bin(a)(j, k))
  }

  /** Any two different neighbours of i. */
  function DistinctPair(a: Matrix, i: nat): (nat, nat) -> real {
    (j: nat, k: nat) => if j == k then 0.0 else Bin(a)(i, j) * Bin(a)(i, k)
  }

  /** A neighbour j of i that has a self-loop. */
  function LoopedPair(a: Matrix, i: nat): (nat, nat) -> real {
    (j: nat, k: nat) => if j == k then Bin(a)(i, j) * Bin(a)(j, j) else 0.0
  }

  /** The diagonal entry of A^3 sums the closed pairs. */
  lemma CubeIsClosedPairs(a: Matrix, n: nat, i: nat)
    ensures CubeDiagonal(a, n)(i) == Total(ClosedPair(a, i), n, n)
  {
    var f := ClosedPair(a, i);
    var rows := RowSums(f, n);
    forall k: nat | k < n ensures ThreeStep(a, n, i)(k) == Sum(n, Column(f, k)) {
      var b := Bin(a)(k, i);
      SumScaled(n, b, TwoStep(a, i, k));
      SumEqual(n, Column(f, k), Scaled(b, TwoStep(a, i, k)));
    }
    SumSwap(n, n, f, rows, ThreeStep(a, n, i));
  }

  /** Ordered pairs of different neighbours: d (d - 1). */
  lemma DistinctPairs(a: Matrix, n: nat, i: nat)
    ensures Total(DistinctPair(a, i), n, n) == Neighbours(a, n, i) * (Neighbours(a, n, i) - 1.0)
  {
    var b, d := Row(Bin(a), i), Neighbours(a, n, i);
    var rows, target := RowSums(DistinctPair(a, i), n), Scaled(d - 1.0, b);
    forall j: nat | j < n ensures rows(j) == target(j) {
      var without := Row(DistinctPair(a, i), j);
      SumScaled(n, b(j), b);
      SumChange(n, Scaled(b(j), b), without, j);
      assert b(j) == 0.0 || b(j) == 1.0;
    }
    SumEqual(n, rows, target);
    SumScaled(n, d - 1.0, b);
  }

  lemma LoopedPairs(a: Matrix, n: nat, i: nat)
    ensures Total(LoopedPair(a, i), n, n) == Sum(n, LoopedNeighbours(a, i))
  {
    var f := LoopedPair(a, i);
    forall j: nat | j < n ensures RowSums(f, n)(j) == LoopedNeighbours(a, i)(j) {
      SumSingle(n, Row(f, j), j);
    }
    SumEqual(n, RowSums(f, n), LoopedNeighbours(a, i));
  }

  function LoopedNeighbours(a: Matrix, i: nat): nat -> real {
    (j: nat) => Bin(a)(i, j) * Bin(a)(j, j)
  }

  /** Open wedges centred at each vertex, and neighbours with a self-loop of each vertex. */
  function OpenWedges(a: Matrix, n: nat): nat -> real {
    (i: nat) => Total(OpenPair(a, i), n, n)
  }

  function LoopDegrees(a: Matrix, n: nat): nat -> real {
    (i: nat) => Sum(n, LoopedNeighbours(a, i))
  }

  /** Around one vertex, closed plus open pairs are the distinct pairs plus the looped neighbours. */
  lemma PairsBalance(a: Matrix, n: nat, i: nat)
    requires Symmetric(a)
    ensures CubeDiagonal(a, n)(i) + OpenWedges(a, n)(i) == 2.0 * Triplets(a, n)(i) + LoopDegrees(a, n)(i)
  {
    var closed, open, distinct, looped := ClosedPair(a, i), OpenPair(a, i), DistinctPair(a, i), LoopedPair(a, i);
    forall j: nat, k: nat | j < n && k < n ensures PairPlus(closed, open)(j, k) == PairPlus(distinct, looped)(j, k) {
      PairBalance(a, i, j, k);
    }
    TotalEqual(PairPlus(closed, open), PairPlus(distinct, looped), n, n);
    TotalPlus(closed, open, n);
    TotalPlus(distinct, looped, n);
    CubeIsClosedPairs(a, n, i);
    DistinctPairs(a, n, i);
    LoopedPairs(a, n, i);
  }

  lemma PairBalance(a: Matrix, i: nat, j: nat, k: nat)
    requires Symmetric(a)
    ensures ClosedPair(a, i)(j, k) + OpenPair(a, i)(j, k) == DistinctPair(a, i)(j, k) + LoopedPair(a, i)(j, k)
  {
    assert At(a, k, i) == At(a, i, k);
    var x, y, z := Bin(a)(i, j), Bin(a)(i, k), Bin(a)(j, k);
    assert x == 0.0 || x == 1.0;
    assert y == 0.0 || y == 1.0;
    assert z == 0.0 || z == 1.0;
  }

  /** trace(A^3) and the open wedges together are twice the triplets and the loop degrees together. */
  lemma TraceBalance(a: Matrix, n: nat)
    requires Symmetric(a)
    ensures Trace(a, n) + Sum(n, OpenWedges(a, n)) == 2.0 * Sum(n, Triplets(a, n)) + Sum(n, LoopDegrees(a, n))
  {
    var cube, open, triplets, loops := CubeDiagonal(a, n), OpenWedges(a, n), Triplets(a, n), LoopDegrees(a, n);
    forall i: nat | i < n ensures Plus(cube, open)(i) == Plus(Scaled(2.0, triplets), loops)(i) {
      PairsBalance(a, n, i);
    }
    SumEqual(n, Plus(cube, open), Plus(Scaled(2.0, triplets), loops));
    SumPlus(n, cube, open);
    SumPlus(n, Scaled(2.0, triplets), loops);
    SumScaled(n, 2.0, triplets);
  }

  lemma TraceNonNegative(a: Matrix, n: nat)
    ensures Trace(a, n) >= 0.0
  {
    forall i: nat | i < n ensures CubeDiagonal(a, n)(i) >= 0.0 {
      CubeIsClosedPairs(a, n, i);
      forall j: nat, k: nat | j < n && k < n ensures ClosedPair(a, i)(j, k) >= 0.0 {
        var x, y, z := Bin(a)(i, j), Bin(a)(j, k), Bin(a)(k, i);
        assert (x == 0.0 || x == 1.0) && (y == 0.0 || y == 1.0) && (z == 0.0 || z == 1.0);
      }
      TotalNonNegative(ClosedPair(a, i), n);
    }
    SumNonNegative(n, CubeDiagonal(a, n));
  }

  /** The triplets are non-negative even where a degree is zero: degrees are whole numbers. */
  lemma TripletsNonNegative(a: Matrix, n: nat)
    ensures Sum(n, Triplets(a, n)) >= 0.0
  {
    forall i: nat | i < n ensures Triplets(a, n)(i) >= 0.0 {
      DistinctPairs(a, n, i);
      TotalNonNegative(DistinctPair(a, i), n);
    }
    SumNonNegative(n, Triplets(a, n));
  }

  /**
   * Exactly when the coefficient is a fraction: when the neighbours with a self-loop, counted over all
   * vertices, do not outnumber the open wedges.
   */
  lemma CoefficientInRangeIff(a: Matrix, n: nat)
    requires Symmetric(a)
    ensures Coefficient(a, n) >= 0.0
    ensures Coefficient(a, n) <= 1.0 <==>
              n < 3 || Sum(n, Triplets(a, n)) == 0.0 || Sum(n, LoopDegrees(a, n)) <= Sum(n, OpenWedges(a, n))
  {
    TraceBalance(a, n);
    TraceNonNegative(a, n);
    TripletsNonNegative(a, n);
    var t, d := Trace(a, n), Sum(n, Triplets(a, n));
    if n >= 3 && d != 0.0 {
      RatioFacts(t, d);
    }
  }

  lemma RatioFacts(t: real, d: real)
    requires t >= 0.0 && d > 0.0
    ensures 0.0 <= 3.0 * (t / 2.0 / 3.0) / d
    ensures 3.0 * (t / 2.0 / 3.0) / d <= 1.0 <==> t <= 2.0 * d
  {
    assert 3.0 * (t / 2.0 / 3.0) == t / 2.0;
  }

  /** Without self-loops the coefficient always lies in [0, 1]. */
  lemma LoopFreeInRange(a: Matrix, n: nat)
    requires Symmetric(a) && forall i: nat | i < n :: At(a, i, i) <= 0.0
    ensures 0.0 <= Coefficient(a, n) <= 1.0
  {
    CoefficientInRangeIff(a, n);
    LoopFreeTotals(a, n);
  }

  lemma LoopFreeTotals(a: Matrix, n: nat)
    requires forall i: nat | i < n :: At(a, i, i) <= 0.0
    ensures Sum(n, LoopDegrees(a, n)) == 0.0 <= Sum(n, OpenWedges(a, n))
  {
    forall i: nat | i < n ensures LoopDegrees(a, n)(i) == 0.0 && OpenWedges(a, n)(i) >= 0.0 {
      forall j: nat | j < n ensures LoopedNeighbours(a, i)(j) == 0.0 {
        assert Bin(a)(j, j) == 0.0;
      }
      SumZero(n, LoopedNeighbours(a, i));
      forall j: nat, k: nat | j < n && k < n ensures OpenPair(a, i)(j, k) >= 0.0 {
        var x, y, z := Bin(a)(i, j), Bin(a)(i, k), Bin(a)(j, k);
        assert (x == 0.0 || x == 1.0) && (y == 0.0 || y == 1.0) && (z == 0.0 || z == 1.0);
      }
      TotalNonNegative(OpenPair(a, i), n);
    }
    SumZero(n, LoopDegrees(a, n));
    SumNonNegative(n, OpenWedges(a, n));
  }

  /** So it does for the undirected matrix of every directed one without self-loops. */
  lemma UndirectedInRange(directed: Matrix, n: nat)
    requires forall i: nat | i < n :: At(directed, i, i) <= 0.0
    ensures 0.0 <= Coefficient(SymMatrix(directed, n), n) <= 1.0
  {
    SymIsSymmetric(directed, n);
    hide Coefficient, Symmetric;
    LoopFreeInRange(SymMatrix(directed, n), n);
  }

  /** A triangle with a self-loop at corner 0. */
  const LOOPED_TRIANGLE: Matrix := [[1.0, 1.0, 1.0], [1.0, 0.0, 1.0], [1.0, 1.0, 0.0]]

  lemma LoopedCorner(i: nat)
    requires i < 3
    ensures OpenWedges(LOOPED_TRIANGLE, 3)(i) == 0.0 && LoopDegrees(LOOPED_TRIANGLE, 3)(i) == 1.0
  {
    var a := LOOPED_TRIANGLE;
    var f := OpenPair(a, i);
    forall j: nat | j < 3 ensures RowSums(f, 3)(j) == 0.0 {
      forall k: nat | k < 3 ensures Row(f, j)(k) == 0.0 {
        assert j == k || Bin(a)(j, k) == 1.0;
      }
      SumZero(3, Row(f, j));
    }
    SumZero(3, RowSums(f, 3));
    assert Bin(a)(0, 0) == Bin(a)(i, 0) == 1.0 && Bin(a)(1, 1) == Bin(a)(2, 2) == 0.0;
    forall j: nat | j < 3 && j != 0 ensures LoopedNeighbours(a, i)(j) == 0.0 {
      assert Bin(a)(j, j) == 0.0;
    }
    SumSingle(3, LoopedNeighbours(a, i), 0);
  }

  lemma CornerNeighbours(i: nat)
    requires i < 3
    ensures Triplets(LOOPED_TRIANGLE, 3)(i) >= 1.0
  {
    var b := Row(Bin(LOOPED_TRIANGLE), i);
    assert Sum(3, b) == Sum(2, b) + b(2);
    assert Sum(2, b) == Sum(1, b) + b(1);
    assert Sum(1, b) == Sum(0, b) + b(0);
  }

  /** With that self-loop the coefficient exceeds 1. */
  lemma SelfLoopExceedsOne()
    ensures Symmetric(LOOPED_TRIANGLE) && Coefficient(LOOPED_TRIANGLE, 3) > 1.0
  {
    var a := LOOPED_TRIANGLE;
    assert forall i: nat, j: nat | i < 3 && j < 3 :: At(a, i, j) == At(a, j, i);
    forall i: nat | i < 3
      ensures OpenWedges(a, 3)(i) == 0.0 && LoopDegrees(a, 3)(i) == 1.0 && Triplets(a, 3)(i) >= 1.0
    {
      LoopedCorner(i);
      CornerNeighbours(i);
    }
    CoefficientInRangeIff(a, 3);
    hide *;
    SumZero(3, OpenWedges(a, 3));
    SumConstant(3, LoopDegrees(a, 3), 1.0);
    SumNonNegative(3, Triplets(a, 3));
    TermAtMostSum(3, Triplets(a, 3), 0);
  }

  // ---- triangles, each counted once ------------------------------------------------------------------------

  /** One for three mutually adjacent vertices. */
  function Adjacent3(a: Matrix): (nat, nat, nat) -> real {
    (i: nat, j: nat, k: nat) => if At(a, i, j) > 0.0 && At(a, j, k) > 0.0 && At(a, k, i) > 0.0 then 1.0 else 0.0
  }

  /** One for a vertex i adjacent to both j and k. */
  function Wedge(a: Matrix, i: nat): (nat, nat) -> real {
    (j: nat, k: nat) => if At(a, i, j) > 0.0 && At(a, i, k) > 0.0 then 1.0 else 0.0
  }

  function Slice(f: (nat, nat, nat) -> real, i: nat): (nat, nat) -> real {
    (j: nat, k: nat) => f(i, j, k)
  }

  /** f over j < k < m. */
  function UnorderedPairs(f: (nat, nat) -> real, m: nat): real {
    Sum(m, Below(f))
  }

  function Below(f: (nat, nat) -> real): nat -> real {
    (k: nat) => Sum(k, Column(f, k))
  }

  /** The triangles i > k > j, each set of three once. */
  function Triangles(a: Matrix, n: nat): real {
    Sum(n, TrianglesBelow(a))
  }

  function TrianglesBelow(a: Matrix): nat -> real {
    (i: nat) => UnorderedPairs(Slice(Adjacent3(a), i), i)
  }

  /** The pairs of different neighbours of each vertex, each pair once. */
  function ConnectedTriples(a: Matrix, n: nat): real {
    Sum(n, WedgesAt(a, n))
  }

  function WedgesAt(a: Matrix, n: nat): nat -> real {
    (i: nat) => UnorderedPairs(Wedge(a, i), n)
  }

  /** A symmetric function that vanishes on the diagonal, over all ordered pairs: twice over the unordered ones. */
  lemma PairsTwice(f: (nat, nat) -> real, m: nat)
    requires forall j: nat, k: nat | j < m && k < m :: f(j, k) == f(k, j) && f(j, j) == 0.0
    ensures Total(f, m, m) == 2.0 * UnorderedPairs(f, m)
  {
    FoldTotal(f, m);
    forall k: nat | k < m ensures Folded(f)(k) == Scaled(2.0, Below(f))(k) {
      SumScaled(k, 2.0, Column(f, k));
      SumEqual(k, Both(f, k), Scaled(2.0, Column(f, k)));
    }
    SumEqual(m, Folded(f), Scaled(2.0, Below(f)));
    SumScaled(m, 2.0, Below(f));
  }

  /** The same whatever the order of its three arguments, and zero when two of them are equal. */
  ghost predicate Unordered(g: (nat, nat, nat) -> real, n: nat) {
    forall i: nat, j: nat, k: nat | i < n && j < n && k < n ::
      g(i, j, k) == g(j, k, i) && g(i, j, k) == g(i, k, j) && g(i, i, k) == 0.0
  }

  function SliceTotals(g: (nat, nat, nat) -> real, n: nat): nat -> real {
    (i: nat) => Total(Slice(g, i), n, n)
  }

  function SlicesBelow(g: (nat, nat, nat) -> real): nat -> real {
    (i: nat) => UnorderedPairs(Slice(g, i), i)
  }

  lemma TotalGrows(f: (nat, nat) -> real, m: nat)
    ensures Total(f, m + 1, m + 1) == Total(f, m, m) + Sum(m, Both(f, m)) + f(m, m)
  {
    FoldTotal(f, m);
    FoldTotal(f, m + 1);
  }

  lemma SliceGrows(g: (nat, nat, nat) -> real, i: nat, n: nat)
    requires Unordered(g, n + 1) && i <= n
    ensures Total(Slice(g, i), n + 1, n + 1) == Total(Slice(g, i), n, n) + 2.0 * Sum(n, Row(Slice(g, n), i))
  {
    var f := Slice(g, i);
    TotalGrows(f, n);
    assert f(n, n) == g(n, n, i) == 0.0;
    forall j: nat | j < n ensures Both(f, n)(j) == Scaled(2.0, Row(Slice(g, n), i))(j) {
      assert g(i, n, j) == g(n, j, i) == g(n, i, j) && g(i, j, n) == g(i, n, j);
    }
    SumEqual(n, Both(f, n), Scaled(2.0, Row(Slice(g, n), i)));
    SumScaled(n, 2.0, Row(Slice(g, n), i));
  }

  /** Over all ordered triples: six times over the unordered ones. */
  lemma {:induction false} TriplesSixTimes(g: (nat, nat, nat) -> real, n: nat)
    requires Unordered(g, n)
    ensures Sum(n, SliceTotals(g, n)) == 6.0 * Sum(n, SlicesBelow(g))
  {
    if n > 0 {
      var m := n - 1;
      var top := Slice(g, m);
      TriplesSixTimes(g, m);
      var grown, before, rows := SliceTotals(g, n), SliceTotals(g, m), RowSums(top, m);
      forall i: nat | i < m ensures grown(i) == Plus(before, Scaled(2.0, rows))(i) {
        SliceGrows(g, i, m);
      }
      SumEqual(m, grown, Plus(before, Scaled(2.0, rows)));
      SumPlus(m, before, Scaled(2.0, rows));
      SumScaled(m, 2.0, rows);
      TopSlice(g, m);
      assert Sum(n, grown) == Sum(m, grown) + Total(top, n, n);
      assert Sum(n, SlicesBelow(g)) == Sum(m, SlicesBelow(g)) + UnorderedPairs(top, m);
    }
  }

  lemma TopSlice(g: (nat, nat, nat) -> real, m: nat)
    requires Unordered(g, m + 1)
    ensures Total(Slice(g, m), m + 1, m + 1) == Total(Slice(g, m), m, m) == 2.0 * UnorderedPairs(Slice(g, m), m)
  {
    var top := Slice(g, m);
    SliceGrows(g, m, m);
    forall k: nat | k < m ensures Row(top, m)(k) == 0.0 {
    }
    SumZero(m, Row(top, m));
    forall j: nat, k: nat | j < m && k < m ensures top(j, k) == top(k, j) && top(j, j) == 0.0 {
      assert g(m, j, j) == g(j, j, m);
    }
    PairsTwice(top, m);
  }

  ghost predicate LoopFree(a: Matrix, n: nat) {
    forall i: nat | i < n :: At(a, i, i) <= 0.0
  }

  lemma AdjacentUnordered(a: Matrix, n: nat)
    requires Symmetric(a) && LoopFree(a, n)
    ensures Unordered(Adjacent3(a), n)
  {
    var g := Adjacent3(a);
    forall i: nat, j: nat, k: nat | i < n && j < n && k < n
      ensures g(i, j, k) == g(j, k, i) && g(i, j, k) == g(i, k, j) && g(i, i, k) == 0.0
    {
      assert At(a, i, j) == At(a, j, i) && At(a, j, k) == At(a, k, j) && At(a, k, i) == At(a, i, k);
      assert At(a, i, i) <= 0.0;
    }
  }

  lemma ClosedIsAdjacent(a: Matrix, n: nat, i: nat)
    ensures CubeDiagonal(a, n)(i) == SliceTotals(Adjacent3(a), n)(i)
  {
    CubeIsClosedPairs(a, n, i);
    var f, g := ClosedPair(a, i), Slice(Adjacent3(a), i);
    forall j: nat, k: nat | j < n && k < n ensures f(j, k) == g(j, k) {
      var x, y, z := Bin(a)(i, j), Bin(a)(j, k), Bin(a)(k, i);
      assert (x == 0.0 || x == 1.0) && (y == 0.0 || y == 1.0) && (z == 0.0 || z == 1.0);
    }
    TotalEqual(f, g, n, n);
  }

  /** trace(A^3) counts every triangle of a loop-free graph six times. */
  lemma TraceIsSixTriangles(a: Matrix, n: nat)
    requires Symmetric(a) && LoopFree(a, n)
    ensures Trace(a, n) == 6.0 * Triangles(a, n)
  {
    var g := Adjacent3(a);
    AdjacentUnordered(a, n);
    TriplesSixTimes(g, n);
    forall i: nat | i < n ensures CubeDiagonal(a, n)(i) == SliceTotals(g, n)(i) {
      ClosedIsAdjacent(a, n, i);
    }
    SumEqual(n, CubeDiagonal(a, n), SliceTotals(g, n));
    SumEqual(n, SlicesBelow(g), TrianglesBelow(a));
  }

  /** d (d - 1) / 2 counts the pairs of different neighbours. */
  lemma TripletsAreWedges(a: Matrix, n: nat)
    ensures Sum(n, Triplets(a, n)) == ConnectedTriples(a, n)
  {
    forall i: nat | i < n ensures Triplets(a, n)(i) == WedgesAt(a, n)(i) {
      var f := DistinctPair(a, i);
      DistinctPairs(a, n, i);
      PairsTwice(f, n);
      forall k: nat | k < n ensures Below(f)(k) == Below(Wedge(a, i))(k) {
        SumEqual(k, Column(f, k), Column(Wedge(a, i), k));
      }
      SumEqual(n, Below(f), Below(Wedge(a, i)));
    }
    SumEqual(n, Triplets(a, n), WedgesAt(a, n));
  }

  /** The coefficient of a loop-free graph: three times its triangles over its connected triples, each counted once. */
  lemma CoefficientIsRatio(a: Matrix, n: nat)
    requires Symmetric(a) && LoopFree(a, n)
    ensures n >= 3 ==> Coefficient(a, n) * ConnectedTriples(a, n) == 3.0 * Triangles(a, n)
    ensures n < 3 || ConnectedTriples(a, n) == 0.0 ==> Coefficient(a, n) == 0.0
  {
    TraceIsSixTriangles(a, n);
    TripletsAreWedges(a, n);
    TraceBalance(a, n);
    TraceNonNegative(a, n);
    LoopFreeTotals(a, n);
    var t, d := Trace(a, n), Sum(n, Triplets(a, n));
    if n >= 3 && d != 0.0 {
      Cancels(3.0 * (t / 2.0 / 3.0), d);
    }
  }

  lemma Cancels(x: real, y: real)
    requires y != 0.0
    ensures x / y * y == x
  {
  }
}
