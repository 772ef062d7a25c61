/** `_compute_pagerank`: power iteration on the column-stochastic transition matrix, and why it converges. */
module PageRank {
  import opened Reals
  import opened RealSums
  import opened Walks

  // ---- the transition matrix --------------------------------------------------------------------------

  function Weight(a: Matrix, j: nat): nat -> real {
    (i: nat) => if j < |a| && i < |a[j]| then a[j][i] else 0.0
  }

  function OutDegree(a: Matrix, n: nat, j: nat): real {
    Sum(n, Weight(a, j))
  }

  /** The probability of moving from j to i; a vertex without outgoing weight moves anywhere. */
  function Transition(a: Matrix, n: nat, i: nat, j: nat): real
    requires n > 0
  {
    if OutDegree(a, n, j) > 0.0 then Weight(a, j)(i) / OutDegree(a, n, j) else 1.0 / n as real
  }

  function Into(a: Matrix, n: nat, i: nat, p: seq<real>): nat -> real
    requires n > 0
  {
    (j: nat) => if j < |p| then Transition(a, n, i, j) * p[j] else 0.0
  }

  function Damped(alpha: real, n: nat, x: real): real
    requires n > 0
  {
    alpha * x + (1.0 - alpha) / n as real
  }

  /** One iteration: alpha times the transition applied to p, plus the teleport term. */
  ghost function Step(a: Matrix, n: nat, alpha: real, p: seq<real>): (r: seq<real>)
    requires n > 0
    ensures |r| == n
    ensures forall i | 0 <= i < n :: r[i] == Damped(alpha, n, Sum(n, Into(a, n, i, p)))
  {
    seq(n, i requires 0 <= i < n => Damped(alpha, n, Sum(n, Into(a, n, i, p))))
  }

  ghost function Uniform(n: nat): (r: seq<real>)
    requires n > 0
    ensures |r| == n && forall i | 0 <= i < n :: r[i] == 1.0 / n as real
  {
    seq(n, _ => 1.0 / n as real)
  }

  ghost function Iterate(a: Matrix, n: nat, alpha: real, k: nat): (r: seq<real>)
    requires n > 0
    ensures |r| == n
  {
    if k == 0 then Uniform(n) else Step(a, n, alpha, Iterate(a, n, alpha, k - 1))
  }

  function Entry(p: seq<real>): nat -> real {
    (i: nat) => if i < |p| then p[i] else 0.0
  }

  function Gap(p: seq<real>, q: seq<real>): nat -> real {
    (i: nat) => if i < |p| && i < |q| then Abs(p[i] - q[i]) else 0.0
  }

  /** The L1 distance. */
  function Distance(n: nat, p: seq<real>, q: seq<real>): real {
    Sum(n, Gap(p, q))
  }

  ghost predicate Distribution(n: nat, p: seq<real>) {
    |p| == n && (forall i | 0 <= i < n :: p[i] >= 0.0) && Sum(n, Entry(p)) == 1.0
  }

  ghost predicate NonNegative(a: Matrix, n: nat) {
    Square(a, n) && forall i, j | 0 <= i < n && 0 <= j < n :: a[i][j] >= 0.0
  }

  ghost function TransitionColumn(a: Matrix, n: nat, j: nat): nat -> real
    requires n > 0
  {
    (i: nat) => Transition(a, n, i, j)
  }

  lemma QuotientNonNegative(x: real, y: real)
    requires x >= 0.0 && y > 0.0
    ensures x / y >= 0.0
  {
  }

  /** Every column of the transition matrix is a probability distribution. */
  lemma Stochastic(a: Matrix, n: nat, j: nat)
    requires n > 0 && NonNegative(a, n) && j < n
    ensures forall i: nat | i < n :: Transition(a, n, i, j) >= 0.0
    ensures Sum(n, TransitionColumn(a, n, j)) == 1.0
  {
    var column, d := TransitionColumn(a, n, j), OutDegree(a, n, j);
    if d > 0.0 {
      forall i: nat | i < n ensures column(i) >= 0.0 && column(i) == Scaled(1.0 / d, Weight(a, j))(i) {
        QuotientNonNegative(a[j][i], d);
        QuotientScales(a[j][i], d);
      }
      SumEqual(n, column, Scaled(1.0 / d, Weight(a, j)));
      SumScaled(n, 1.0 / d, Weight(a, j));
    } else {
      QuotientNonNegative(1.0, n as real);
      SumConstant(n, column, 1.0 / n as real);
    }
  }

  // ---- an iteration keeps probability and contracts distances -----------------------------------------

  /** The term Transition(i, j) * x(j). */
  ghost function Product(a: Matrix, n: nat, x: nat -> real): (nat, nat) -> real
    requires n > 0
  {
    (i: nat, j: nat) => Transition(a, n, i, j) * x(j)
  }

  ghost function RowTotals(a: Matrix, n: nat, x: nat -> real): nat -> real
    requires n > 0
  {
    (i: nat) => Sum(n, Row(Product(a, n, x), i))
  }

  /** The transition keeps the total. */
  lemma TotalKept(a: Matrix, n: nat, x: nat -> real)
    requires n > 0 && NonNegative(a, n)
    ensures Sum(n, RowTotals(a, n, x)) == Sum(n, x)
  {
    var f := Product(a, n, x);
    forall j: nat | j < n ensures x(j) == Sum(n, Column(f, j)) {
      Stochastic(a, n, j);
      SumScaled(n, x(j), TransitionColumn(a, n, j));
      SumEqual(n, Column(f, j), Scaled(x(j), TransitionColumn(a, n, j)));
    }
    SumSwap(n, n, f, RowTotals(a, n, x), x);
  }

  lemma StepEntry(a: Matrix, n: nat, alpha: real, p: seq<real>, i: nat)
    requires n > 0 && NonNegative(a, n) && 0.0 <= alpha <= 1.0 && Distribution(n, p) && i < n
    ensures Step(a, n, alpha, p)[i] == Damped(alpha, n, RowTotals(a, n, Entry(p))(i)) >= 0.0
  {
    forall j: nat | j < n ensures Into(a, n, i, p)(j) >= 0.0 {
      Stochastic(a, n, j);
      ProductNonNegative(Transition(a, n, i, j), p[j]);
    }
    hide Transition;
    SumEqual(n, Into(a, n, i, p), Row(Product(a, n, Entry(p)), i));
    SumNonNegative(n, Into(a, n, i, p));
    ProductNonNegative(alpha, Sum(n, Into(a, n, i, p)));
    QuotientNonNegative(1.0 - alpha, n as real);
  }

  lemma StepDistribution(a: Matrix, n: nat, alpha: real, p: seq<real>)
    requires n > 0 && NonNegative(a, n) && 0.0 <= alpha <= 1.0 && Distribution(n, p)
    ensures Distribution(n, Step(a, n, alpha, p))
  {
    var r, rows := Step(a, n, alpha, p), RowTotals(a, n, Entry(p));
    forall i: nat | i < n ensures Entry(r)(i) == Damped(alpha, n, rows(i)) && r[i] >= 0.0 {
      StepEntry(a, n, alpha, p, i);
    }
    TotalKept(a, n, Entry(p));
    hide RowTotals, Step, NonNegative, Damped;
    DampedTotal(n, alpha, rows, Entry(r));
  }

  /** Damping a distribution gives one. */
  lemma DampedTotal(n: nat, alpha: real, f: nat -> real, g: nat -> real)
    requires n > 0 && Sum(n, f) == 1.0 && forall i: nat | i < n :: g(i) == Damped(alpha, n, f(i))
    ensures Sum(n, g) == 1.0
  {
    var c := (1.0 - alpha) / n as real;
    var constant: nat -> real := (i: nat) => c;
    hide Sum;
    SumEqual(n, g, Plus(Scaled(alpha, f), constant));
    SumPlus(n, Scaled(alpha, f), constant);
    SumScaled(n, alpha, f);
    SumConstant(n, constant, c);
    assert n as real * c == 1.0 - alpha;
  }

  lemma ProductNonNegative(x: real, y: real)
    requires x >= 0.0 && y >= 0.0
    ensures x * y >= 0.0
  {
  }

  lemma UniformDistribution(n: nat)
    requires n > 0
    ensures Distribution(n, Uniform(n))
  {
    QuotientNonNegative(1.0, n as real);
    SumConstant(n, Entry(Uniform(n)), 1.0 / n as real);
  }

  /** Every iterate is a probability distribution. */
  lemma {:induction false} IterateDistribution(a: Matrix, n: nat, alpha: real, k: nat)
    requires n > 0 && NonNegative(a, n) && 0.0 <= alpha <= 1.0
    ensures Distribution(n, Iterate(a, n, alpha, k))
  {
    if k == 0 {
      UniformDistribution(n);
    } else {
      IterateDistribution(a, n, alpha, k - 1);
      StepDistribution(a, n, alpha, Iterate(a, n, alpha, k - 1));
    }
  }

  ghost function Difference(p: seq<real>, q: seq<real>): nat -> real {
    (j: nat) => if j < |p| && j < |q| then p[j] - q[j] else 0.0
  }

  lemma ColumnGap(a: Matrix, n: nat, p: seq<real>, q: seq<real>, i: nat, j: nat)
    requires n > 0 && NonNegative(a, n) && |p| == |q| == n && i < n && j < n
    ensures Abs(Transition(a, n, i, j) * Difference(p, q)(j)) == Transition(a, n, i, j) * Gap(p, q)(j)
    ensures Into(a, n, i, p)(j) == Into(a, n, i, q)(j) + Transition(a, n, i, j) * Difference(p, q)(j)
  {
    Stochastic(a, n, j);
    hide Transition, NonNegative, Abs;
    AbsProduct(Transition(a, n, i, j), p[j] - q[j]);
    ProductDifference(Transition(a, n, i, j), p[j], q[j]);
  }

  lemma ProductDifference(c: real, x: real, y: real)
    ensures c * x == c * y + c * (x - y)
  {
  }

  /** The transition moves an entry by at most the weighted moves of the entries it is made from. */
  lemma RowGap(a: Matrix, n: nat, p: seq<real>, q: seq<real>, i: nat)
    requires n > 0 && NonNegative(a, n) && |p| == |q| == n && i < n
    ensures Abs(Sum(n, Into(a, n, i, p)) - Sum(n, Into(a, n, i, q))) <= RowTotals(a, n, Gap(p, q))(i)
  {
    var d := Row(Product(a, n, Difference(p, q)), i);
    forall j: nat | j < n
      ensures AbsOf(d)(j) == Row(Product(a, n, Gap(p, q)), i)(j)
      ensures Into(a, n, i, p)(j) == Plus(Into(a, n, i, q), d)(j)
    {
      hide Transition, NonNegative, Abs;
      ColumnGap(a, n, p, q, i, j);
      assert d(j) == Transition(a, n, i, j) * Difference(p, q)(j);
      assert Row(Product(a, n, Gap(p, q)), i)(j) == Transition(a, n, i, j) * Gap(p, q)(j);
    }
    hide *;
    SumEqual(n, Into(a, n, i, p), Plus(Into(a, n, i, q), d));
    SumPlus(n, Into(a, n, i, q), d);
    AbsSum(n, d);
    SumEqual(n, AbsOf(d), Row(Product(a, n, Gap(p, q)), i));
    assert RowTotals(a, n, Gap(p, q))(i) == Sum(n, Row(Product(a, n, Gap(p, q)), i)) by {
      RowTotalsAt(a, n, Gap(p, q), i);
    }
  }

  lemma RowTotalsAt(a: Matrix, n: nat, x: nat -> real, i: nat)
    requires n > 0
    ensures RowTotals(a, n, x)(i) == Sum(n, Row(Product(a, n, x), i))
  {
  }

  lemma DampedMove(alpha: real, n: nat, x: real, y: real, z: real)
    requires n > 0 && alpha >= 0.0 && Abs(x - y) <= z
    ensures Abs(Damped(alpha, n, x) - Damped(alpha, n, y)) <= alpha * z
  {
    assert Damped(alpha, n, x) - Damped(alpha, n, y) == alpha * (x - y);
    AbsProduct(alpha, x - y);
    ScaleKeepsOrder(alpha, Abs(x - y), z);
  }

  lemma EntryGap(a: Matrix, n: nat, alpha: real, p: seq<real>, q: seq<real>, i: nat)
    requires n > 0 && NonNegative(a, n) && 0.0 <= alpha && |p| == |q| == n && i < n
    ensures Gap(Step(a, n, alpha, p), Step(a, n, alpha, q))(i) <= Scaled(alpha, RowTotals(a, n, Gap(p, q)))(i)
  {
    RowGap(a, n, p, q, i);
    hide Sum, Into, RowTotals, NonNegative, Damped, Transition, Abs;
    var r, t := Step(a, n, alpha, p), Step(a, n, alpha, q);
    assert Gap(r, t)(i) == Abs(r[i] - t[i]);
    DampedMove(alpha, n, Sum(n, Into(a, n, i, p)), Sum(n, Into(a, n, i, q)), RowTotals(a, n, Gap(p, q))(i));
  }

  lemma AbsProduct(c: real, x: real)
    requires c >= 0.0
    ensures Abs(c * x) == c * Abs(x)
  {
    if x >= 0.0 {
      ProductNonNegative(c, x);
    } else {
      ProductNonNegative(c, -x);
      assert c * -x == -(c * x);
    }
  }

  lemma ScaleKeepsOrder(c: real, x: real, y: real)
    requires c >= 0.0 && x <= y
    ensures c * x <= c * y
  {
    ProductNonNegative(c, y - x);
  }

  /** One iteration brings any two vectors closer by the factor alpha. */
  lemma Contraction(a: Matrix, n: nat, alpha: real, p: seq<real>, q: seq<real>)
    requires n > 0 && NonNegative(a, n) && 0.0 <= alpha && |p| == |q| == n
    ensures Distance(n, Step(a, n, alpha, p), Step(a, n, alpha, q)) <= alpha * Distance(n, p, q)
  {
    hide NonNegative, Step, RowTotals, Sum, Gap, Scaled, Damped;
    var rows := RowTotals(a, n, Gap(p, q));
    var moved := Gap(Step(a, n, alpha, p), Step(a, n, alpha, q));
    forall i: nat | i < n ensures moved(i) <= Scaled(alpha, rows)(i) {
      EntryGap(a, n, alpha, p, q, i);
    }
    SumAtMost(n, moved, Scaled(alpha, rows));
    SumScaled(n, alpha, rows);
    TotalKept(a, n, Gap(p, q));
  }

  // ---- the loop always exits by the tolerance test ----------------------------------------------------

  function Pow(x: real, k: nat): real {
    if k == 0 then 1.0 else x * Pow(x, k - 1)
  }

  ghost function StepSize(a: Matrix, n: nat, alpha: real, k: nat): real
    requires n > 0
  {
    Distance(n, Iterate(a, n, alpha, k + 1), Iterate(a, n, alpha, k))
  }

  lemma {:induction false} PowNonNegative(x: real, k: nat)
    requires x >= 0.0
    ensures Pow(x, k) >= 0.0
  {
    if k > 0 {
      PowNonNegative(x, k - 1);
      ProductNonNegative(x, Pow(x, k - 1));
    }
  }

  /** The first move is at most 2 alpha: both ends have total one. */
  lemma FirstStep(a: Matrix, n: nat, alpha: real)
    requires n > 0 && NonNegative(a, n) && 0.0 <= alpha <= 1.0
    ensures StepSize(a, n, alpha, 0) <= 2.0 * alpha
  {
    var u := Uniform(n);
    var r, rows := Step(a, n, alpha, u), RowTotals(a, n, Entry(u));
    assert Iterate(a, n, alpha, 1) == Step(a, n, alpha, Iterate(a, n, alpha, 0)) == r;
    UniformDistribution(n);
    forall i: nat | i < n ensures Gap(r, u)(i) <= Scaled(alpha, Plus(rows, Entry(u)))(i) {
      FirstEntry(a, n, alpha, i);
    }
    SumAtMost(n, Gap(r, u), Scaled(alpha, Plus(rows, Entry(u))));
    SumScaled(n, alpha, Plus(rows, Entry(u)));
    SumPlus(n, rows, Entry(u));
    TotalKept(a, n, Entry(u));
  }

  lemma FirstEntry(a: Matrix, n: nat, alpha: real, i: nat)
    requires n > 0 && NonNegative(a, n) && 0.0 <= alpha <= 1.0 && i < n
    ensures var u := Uniform(n);
            Gap(Step(a, n, alpha, u), u)(i) <= Scaled(alpha, Plus(RowTotals(a, n, Entry(u)), Entry(u)))(i)
  {
    var u := Uniform(n);
    RowOfUniform(a, n, i);
    hide Sum, RowTotals, NonNegative, Into, Damped;
    MovedEntry(alpha, n, RowTotals(a, n, Entry(u))(i));
  }

  lemma RowOfUniform(a: Matrix, n: nat, i: nat)
    requires n > 0 && NonNegative(a, n) && i < n
    ensures 0.0 <= RowTotals(a, n, Entry(Uniform(n)))(i) == Sum(n, Into(a, n, i, Uniform(n)))
  {
    var u := Uniform(n);
    var f, g := Into(a, n, i, u), Row(Product(a, n, Entry(u)), i);
    QuotientNonNegative(1.0, n as real);
    forall j: nat | j < n ensures f(j) == g(j) && f(j) >= 0.0 {
      Stochastic(a, n, j);
      ProductNonNegative(Transition(a, n, i, j), u[j]);
    }
    SumEqual(n, f, g);
    SumNonNegative(n, f);
  }

  lemma MovedEntry(alpha: real, n: nat, x: real)
    requires n > 0 && alpha >= 0.0 && x >= 0.0
    ensures Abs(Damped(alpha, n, x) - 1.0 / n as real) <= alpha * (x + 1.0 / n as real)
  {
    var u := 1.0 / n as real;
    QuotientScales(1.0 - alpha, n as real);
    QuotientNonNegative(1.0, n as real);
    assert alpha * x + (1.0 - alpha) * u - u == alpha * (x - u);
    AbsProduct(alpha, x - u);
    ScaleKeepsOrder(alpha, Abs(x - u), x + u);
  }

  /** Successive moves shrink geometrically. */
  lemma {:induction false} StepShrinks(a: Matrix, n: nat, alpha: real, k: nat)
    requires n > 0 && NonNegative(a, n) && 0.0 <= alpha <= 1.0
    ensures StepSize(a, n, alpha, k) <= 2.0 * Pow(alpha, k + 1)
  {
    if k == 0 {
      FirstStep(a, n, alpha);
      assert Pow(alpha, 1) == alpha * Pow(alpha, 0);
    } else {
      StepShrinks(a, n, alpha, k - 1);
      Contraction(a, n, alpha, Iterate(a, n, alpha, k), Iterate(a, n, alpha, k - 1));
      ScaleKeepsOrder(alpha, StepSize(a, n, alpha, k - 1), 2.0 * Pow(alpha, k));
      assert Pow(alpha, k + 1) == alpha * Pow(alpha, k);
    }
  }

  const ALPHA: real := 0.85
  const MAX_ITER: nat := 100
  const TOL: real := 0.000001

  lemma {:induction false} PowSum(x: real, j: nat, k: nat)
    ensures Pow(x, j + k) == Pow(x, j) * Pow(x, k)
  {
    if j > 0 {
      PowSum(x, j - 1, k);
    }
  }

  /** Squaring with an upper bound kept short. */
  lemma PowDouble(x: real, k: nat, bound: real, next: real)
    requires x >= 0.0 && Pow(x, k) <= bound && bound * bound <= next
    ensures Pow(x, k + k) <= next
  {
    PowSum(x, k, k);
    PowNonNegative(x, k);
    ScaleKeepsOrder(Pow(x, k), Pow(x, k), bound);
    ScaleKeepsOrder(bound, Pow(x, k), bound);
  }

  /** 2 * 0.85^100 is below the tolerance. */
  lemma DefaultsSuffice()
    ensures 2.0 * Pow(ALPHA, MAX_ITER) < TOL
  {
    assert Pow(ALPHA, 1) == ALPHA * Pow(ALPHA, 0);
    assert Pow(ALPHA, 2) == ALPHA * Pow(ALPHA, 1);
    assert Pow(ALPHA, 3) == ALPHA * Pow(ALPHA, 2) <= 0.6142;
    PowDouble(ALPHA, 3, 0.6142, 0.3773);
    PowDouble(ALPHA, 6, 0.3773, 0.1424);
    PowDouble(ALPHA, 12, 0.1424, 0.02028);
    assert Pow(ALPHA, 25) == ALPHA * Pow(ALPHA, 24) <= 0.01724;
    PowDouble(ALPHA, 25, 0.01724, 0.000298);
    PowDouble(ALPHA, 50, 0.000298, 0.0000000889);
  }

  /** The loop leaves by the tolerance test in round k. */
  ghost predicate ExitsAt(a: Matrix, n: nat, alpha: real, tol: real, k: nat)
    requires n > 0
  {
    StepSize(a, n, alpha, k) < tol && forall j: nat | j < k :: StepSize(a, n, alpha, j) >= tol
  }

  /** What the loop computes, for any damping, round limit and tolerance. */
  ghost predicate PowerIterated(a: Matrix, n: nat, alpha: real, maxIter: nat, tol: real, p: seq<real>)
    requires n > 0
  {
    || (exists k: nat :: k < maxIter && ExitsAt(a, n, alpha, tol, k) && p == Iterate(a, n, alpha, k + 1))
    || ((forall j: nat | j < maxIter :: StepSize(a, n, alpha, j) >= tol) && p == Iterate(a, n, alpha, maxIter))
  }

  /** The transition matrix, filled column by column. */
  method BuildTransition(a: Matrix, n: nat) returns (m: array2<real>)
    requires Square(a, n) && n > 0
    ensures fresh(m) && m.Length0 == m.Length1 == n
    ensures forall i: nat, j: nat | i < n && j < n :: m[i, j] == Transition(a, n, i, j)
    ensures forall i: nat, j: nat | i < n && j < n ::
              if OutDegree(a, n, j) > 0.0 then OutDegree(a, n, j) * m[i, j] == a[j][i] else n as real * m[i, j] == 1.0
  {
    m := new real[n, n]((_, _) => 0.0);
    var j := 0;
    while j < n
      invariant j <= n
      invariant forall i: nat, k: nat | i < n && k < j :: m[i, k] == Transition(a, n, i, k)
    {
      var out := OutDegree(a, n, j);
      if out > 0.0 {
        forall i | 0 <= i < n {
          m[i, j] := a[j][i] / out;
        }
      } else {
        forall i | 0 <= i < n {
          m[i, j] := 1.0 / n as real;
        }
      }
      j := j + 1;
    }
  }

  /** alpha * (m . p) + teleport. */
  method Advance(ghost a: Matrix, n: nat, alpha: real, m: array2<real>, p: seq<real>) returns (next: seq<real>)
    requires n > 0 && |p| == n && m.Length0 == m.Length1 == n
    requires forall i: nat, j: nat | i < n && j < n :: m[i, j] == Transition(a, n, i, j)
    ensures next == Step(a, n, alpha, p)
  {
    hide Step, Transition;
    var teleport := (1.0 - alpha) / n as real;
    next := [];
    var i := 0;
    while i < n
      invariant |next| == i <= n
      invariant forall k | 0 <= k < i :: next[k] == Step(a, n, alpha, p)[k]
    {
      var total, j := 0.0, 0;
      while j < n
        invariant j <= n && total == Sum(j, Into(a, n, i, p))
      {
        assert Into(a, n, i, p)(j) == m[i, j] * p[j];
        assert Sum(j + 1, Into(a, n, i, p)) == Sum(j, Into(a, n, i, p)) + Into(a, n, i, p)(j);
        total := total + m[i, j] * p[j];
        j := j + 1;
      }
      next := next + [alpha * total + teleport];
      i := i + 1;
    }
  }

  method L1(n: nat, p: seq<real>, q: seq<real>) returns (d: real)
    requires |p| == |q| == n
    ensures d == Distance(n, p, q)
  {
    d := 0.0;
    var i := 0;
    while i < n
      invariant i <= n && d == Sum(i, Gap(p, q))
    {
      d := d + Abs(p[i] - q[i]);
      i := i + 1;
    }
  }

  lemma {:induction false} TriangleInequality(n: nat, p: seq<real>, q: seq<real>, r: seq<real>)
    requires |p| == |q| == |r| >= n
    ensures Distance(n, p, r) <= Distance(n, p, q) + Distance(n, q, r)
  {
    if n > 0 {
      TriangleInequality(n - 1, p, q, r);
    }
  }

  /** A result accepted by the tolerance test is close to every fixed point. */
  lemma NearFixedPoint(a: Matrix, n: nat, alpha: real, tol: real, k: nat, q: seq<real>)
    requires n > 0 && NonNegative(a, n) && 0.0 <= alpha < 1.0
    requires ExitsAt(a, n, alpha, tol, k) && |q| == n && Step(a, n, alpha, q) == q
    ensures Distance(n, Iterate(a, n, alpha, k + 1), q) <= alpha * tol / (1.0 - alpha)
  {
    var before, p := Iterate(a, n, alpha, k), Iterate(a, n, alpha, k + 1);
    Contraction(a, n, alpha, before, q);
    DistanceSymmetric(n, before, p);
    TriangleInequality(n, before, p, q);
    ScaleKeepsOrder(alpha, Distance(n, before, q), tol + Distance(n, p, q));
    FixedPointBound(alpha, tol, Distance(n, p, q));
  }

  lemma {:induction false} DistanceSymmetric(n: nat, p: seq<real>, q: seq<real>)
    ensures Distance(n, p, q) == Distance(n, q, p)
  {
    SumEqual(n, Gap(p, q), Gap(q, p));
  }

  lemma FixedPointBound(alpha: real, tol: real, d: real)
    requires 0.0 <= alpha < 1.0 && d <= alpha * (tol + d)
    ensures d <= alpha * tol / (1.0 - alpha)
  {
    assert d * (1.0 - alpha) <= alpha * tol;
    QuotientScales(alpha * tol, 1.0 - alpha);
    QuotientNonNegative(alpha * tol - d * (1.0 - alpha), 1.0 - alpha);
    assert (alpha * tol - d * (1.0 - alpha)) / (1.0 - alpha) == alpha * tol / (1.0 - alpha) - d;
  }

  /** With the defaults, some round within the hundred moves less than the tolerance. */
  lemma LeavesByTolerance(a: Matrix, n: nat, p: seq<real>) returns (k: nat)
    requires n > 0 && NonNegative(a, n) && PowerIterated(a, n, ALPHA, MAX_ITER, TOL, p)
    ensures k < MAX_ITER && ExitsAt(a, n, ALPHA, TOL, k) && p == Iterate(a, n, ALPHA, k + 1)
  {
    hide Step, Distance, Iterate;
    StepShrinks(a, n, ALPHA, MAX_ITER - 1);
    DefaultsSuffice();
    assert StepSize(a, n, ALPHA, MAX_ITER - 1) < TOL;
    k :| k < MAX_ITER && ExitsAt(a, n, ALPHA, TOL, k) && p == Iterate(a, n, ALPHA, k + 1);
  }

  /**
   * With the defaults the loop leaves by the tolerance test, on a probability distribution that is
   * within 0.85e-6 / 0.15 of every fixed point of the iteration.
   */
  lemma PageRankConverges(a: Matrix, n: nat, p: seq<real>)
    requires n > 0 && NonNegative(a, n) && PowerIterated(a, n, ALPHA, MAX_ITER, TOL, p)
    ensures Distribution(n, p)
    ensures exists k: nat :: k < MAX_ITER && ExitsAt(a, n, ALPHA, TOL, k) && p == Iterate(a, n, ALPHA, k + 1)
    ensures forall q: seq<real> | |q| == n && Step(a, n, ALPHA, q) == q ::
              Distance(n, p, q) <= ALPHA * TOL / (1.0 - ALPHA)
  {
    hide Step, Distance, Iterate, Distribution, ExitsAt, PowerIterated, NonNegative, StepSize;
    var k := LeavesByTolerance(a, n, p);
    IterateDistribution(a, n, ALPHA, k + 1);
    forall q: seq<real> | |q| == n && Step(a, n, ALPHA, q) == q
      ensures Distance(n, p, q) <= ALPHA * TOL / (1.0 - ALPHA)
    {
      NearFixedPoint(a, n, ALPHA, TOL, k, q);
    }
  }

  // ---- what the ranks mean on the weights themselves ----------------------------------------------------

  /** What reaches i along the edges: each vertex with outgoing weight divides its rank in proportion to its weights. */
  ghost function AlongEdges(a: Matrix, n: nat, i: nat, p: seq<real>): nat -> real {
    (j: nat) => if OutDegree(a, n, j) > 0.0 && j < |p| then Weight(a, j)(i) / OutDegree(a, n, j) * p[j] else 0.0
  }

  /** What every vertex gets of the rank of those without outgoing weight. */
  ghost function FromSinks(a: Matrix, n: nat, p: seq<real>): nat -> real
    requires n > 0
  {
    (j: nat) => if OutDegree(a, n, j) > 0.0 || j >= |p| then 0.0 else p[j] / n as real
  }

  ghost function PassedTo(a: Matrix, n: nat, alpha: real, i: nat, p: seq<real>): real
    requires n > 0
  {
    alpha * (Sum(n, AlongEdges(a, n, i, p)) + Sum(n, FromSinks(a, n, p))) + (1.0 - alpha) / n as real
  }

  /** The ranks that p passes on. */
  ghost function PassedOn(a: Matrix, n: nat, alpha: real, p: seq<real>): (r: seq<real>)
    requires n > 0
    ensures |r| == n && forall i | 0 <= i < n :: r[i] == PassedTo(a, n, alpha, i, p)
  {
    seq(n, i requires 0 <= i < n => PassedTo(a, n, alpha, i, p))
  }

  lemma StepIsPassedOn(a: Matrix, n: nat, alpha: real, p: seq<real>)
    requires n > 0 && |p| == n
    ensures Step(a, n, alpha, p) == PassedOn(a, n, alpha, p)
  {
    hide Sum, Into, PassedTo, Damped, Step, PassedOn;
    forall i: nat | i < n ensures Step(a, n, alpha, p)[i] == PassedOn(a, n, alpha, p)[i] {
      EntryIsPassedTo(a, n, alpha, p, i);
    }
  }

  lemma EntryIsPassedTo(a: Matrix, n: nat, alpha: real, p: seq<real>, i: nat)
    requires n > 0 && |p| == n
    ensures Damped(alpha, n, Sum(n, Into(a, n, i, p))) == PassedTo(a, n, alpha, i, p)
  {
    hide Sum, Into, AlongEdges, FromSinks;
    IntoSplits(a, n, i, p);
  }

  lemma IntoSplits(a: Matrix, n: nat, i: nat, p: seq<real>)
    requires n > 0 && |p| == n
    ensures Sum(n, Into(a, n, i, p)) == Sum(n, AlongEdges(a, n, i, p)) + Sum(n, FromSinks(a, n, p))
  {
    hide OutDegree, Weight, Sum;
    forall j: nat | j < n ensures Into(a, n, i, p)(j) == Plus(AlongEdges(a, n, i, p), FromSinks(a, n, p))(j) {
      OneOver(n as real, p[j]);
    }
    SumEqual(n, Into(a, n, i, p), Plus(AlongEdges(a, n, i, p), FromSinks(a, n, p)));
    SumPlus(n, AlongEdges(a, n, i, p), FromSinks(a, n, p));
  }

  lemma OneOver(x: real, y: real)
    requires x > 0.0
    ensures 1.0 / x * y == y / x
  {
  }

  /** The ranks are those they pass on, up to alpha tol in all and so in each entry. */
  ghost predicate Balanced(a: Matrix, n: nat, alpha: real, tol: real, p: seq<real>)
    requires n > 0
  {
    && Distribution(n, p)
    && Distance(n, p, PassedOn(a, n, alpha, p)) < alpha * tol
    && forall i | 0 <= i < n :: -(alpha * tol) < p[i] - PassedOn(a, n, alpha, p)[i] < alpha * tol
  }

  lemma EntryWithin(n: nat, p: seq<real>, q: seq<real>, bound: real)
    requires |p| == |q| == n && Distance(n, p, q) < bound
    ensures forall i | 0 <= i < n :: -bound < p[i] - q[i] < bound
  {
    forall i: nat | i < n ensures -bound < p[i] - q[i] < bound {
      TermAtMostSum(n, Gap(p, q), i);
    }
  }

  /** An accepted iterate moves less than alpha tol when it is passed on once more. */
  lemma AcceptedIsBalanced(a: Matrix, n: nat, alpha: real, tol: real, k: nat)
    requires n > 0 && NonNegative(a, n) && 0.0 < alpha <= 1.0 && ExitsAt(a, n, alpha, tol, k)
    ensures Balanced(a, n, alpha, tol, Iterate(a, n, alpha, k + 1))
  {
    var before, p := Iterate(a, n, alpha, k), Iterate(a, n, alpha, k + 1);
    assert p == Step(a, n, alpha, before) && Distance(n, p, before) < tol;
    IterateDistribution(a, n, alpha, k + 1);
    hide Step, Distance, Iterate, PassedOn, NonNegative, Distribution, ExitsAt;
    StepIsPassedOn(a, n, alpha, p);
    Contraction(a, n, alpha, before, p);
    DistanceSymmetric(n, before, p);
    ScaleStrictly(alpha, Distance(n, before, p), tol);
    EntryWithin(n, p, PassedOn(a, n, alpha, p), alpha * tol);
  }

  lemma ScaleStrictly(c: real, x: real, y: real)
    requires c > 0.0 && x < y
    ensures c * x < c * y
  {
  }

  /** With the defaults the returned ranks balance, and are close to all that balance exactly. */
  lemma DefaultsBalance(a: Matrix, n: nat, p: seq<real>)
    requires n > 0 && NonNegative(a, n) && PowerIterated(a, n, ALPHA, MAX_ITER, TOL, p)
    ensures Balanced(a, n, 0.85, 0.000001, p)
    ensures forall q: seq<real> | |q| == n && PassedOn(a, n, 0.85, q) == q ::
              Distance(n, p, q) <= 0.85 * 0.000001 / (1.0 - 0.85)
  {
    hide Step, Distance, Iterate, PassedOn, NonNegative, Distribution, ExitsAt, PowerIterated, Balanced;
    var k := LeavesByTolerance(a, n, p);
    AcceptedIsBalanced(a, n, ALPHA, TOL, k);
    forall q: seq<real> | |q| == n && PassedOn(a, n, ALPHA, q) == q
      ensures Distance(n, p, q) <= ALPHA * TOL / (1.0 - ALPHA)
    {
      StepIsPassedOn(a, n, ALPHA, q);
      NearFixedPoint(a, n, ALPHA, TOL, k, q);
    }
  }

  method ComputePageRank(a: Matrix, n: nat, alpha: real, maxIter: nat, tol: real) returns (p: seq<real>)
    requires Square(a, n)
    ensures n == 0 ==> p == []
    ensures n == 1 ==> p == [1.0]
    ensures n >= 2 ==> PowerIterated(a, n, alpha, maxIter, tol, p)
    ensures n >= 2 && NonNegative(a, n) && alpha == 0.85 && maxIter == 100 && tol == 0.000001 ==>
              Balanced(a, n, alpha, tol, p)
  {
    hide Step, Sum, Transition, Balanced, NonNegative;
    if n == 0 {
      return [];
    }
    if n == 1 {
      return [1.0];
    }
    var m := BuildTransition(a, n);
    p := seq(n, _ => 1.0 / n as real);
    var k := 0;
    while k < maxIter
      invariant k <= maxIter && p == Iterate(a, n, alpha, k)
      invariant m.Length0 == m.Length1 == n
      invariant forall i: nat, j: nat | i < n && j < n :: m[i, j] == Transition(a, n, i, j)
      invariant forall j: nat | j < k :: StepSize(a, n, alpha, j) >= tol
    {
      var next := Advance(a, n, alpha, m, p);
      assert next == Iterate(a, n, alpha, k + 1);
      var moved := L1(n, next, p);
      if moved < tol {
        assert ExitsAt(a, n, alpha, tol, k);
        p := next;
        break;
      }
      p := next;
      k := k + 1;
    }
    assert PowerIterated(a, n, alpha, maxIter, tol, p);
    if NonNegative(a, n) && alpha == 0.85 && maxIter == 100 && tol == 0.000001 {
      DefaultsBalance(a, n, p);
    }
  }
}
