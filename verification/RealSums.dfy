/** Finite sums of reals, and the few laws of summation the graph proofs rest on. */
module RealSums {

  /** f(0) + ... + f(n-1). */
  function Sum(n: nat, f: nat -> real): real {
    if n == 0 then 0.0 else Sum(n - 1, f) + f(n - 1)
  }

  /** f with the factor c in front. */
  function Scaled(c: real, f: nat -> real): nat -> real {
    (i: nat) => c * f(i)
  }

  /** The pointwise sum of f and g. */
  function Plus(f: nat -> real, g: nat -> real): nat -> real {
    (i: nat) => f(i) + g(i)
  }

  /** The i-th row and the j-th column of a two-argument summand. */
  function Row(f: (nat, nat) -> real, i: nat): nat -> real {
    (j: nat) => f(i, j)
  }

  function Column(f: (nat, nat) -> real, j: nat): nat -> real {
    (i: nat) => f(i, j)
  }

  lemma {:induction false} SumEqual(n: nat, f: nat -> real, g: nat -> real)
    requires forall i: nat | i < n :: f(i) == g(i)
    ensures Sum(n, f) == Sum(n, g)
  {
    if n > 0 {
      SumEqual(n - 1, f, g);
    }
  }

  lemma {:induction false} SumAtMost(n: nat, f: nat -> real, g: nat -> real)
    requires forall i: nat | i < n :: f(i) <= g(i)
    ensures Sum(n, f) <= Sum(n, g)
  {
    if n > 0 {
      SumAtMost(n - 1, f, g);
    }
  }

  lemma {:induction false} SumZero(n: nat, f: nat -> real)
    requires forall i: nat | i < n :: f(i) == 0.0
    ensures Sum(n, f) == 0.0
  {
    if n > 0 {
      SumZero(n - 1, f);
    }
  }

  lemma {:induction false} SumNonNegative(n: nat, f: nat -> real)
    requires forall i: nat | i < n :: f(i) >= 0.0
    ensures Sum(n, f) >= 0.0
  {
    if n > 0 {
      SumNonNegative(n - 1, f);
    }
  }

  lemma {:induction false} SumConstant(n: nat, f: nat -> real, c: real)
    requires forall i: nat | i < n :: f(i) == c
    ensures Sum(n, f) == n as real * c
  {
    if n > 0 {
      SumConstant(n - 1, f, c);
    }
  }

  lemma {:induction false} SumScaled(n: nat, c: real, f: nat -> real)
    ensures Sum(n, Scaled(c, f)) == c * Sum(n, f)
  {
    if n > 0 {
      SumScaled(n - 1, c, f);
    }
  }

  lemma {:induction false} SumPlus(n: nat, f: nat -> real, g: nat -> real)
    ensures Sum(n, Plus(f, g)) == Sum(n, f) + Sum(n, g)
  {
    if n > 0 {
      SumPlus(n - 1, f, g);
    }
  }

  /** Two summands that agree everywhere but at k. */
  lemma {:induction false} SumChange(n: nat, f: nat -> real, g: nat -> real, k: nat)
    requires k < n
    requires forall i: nat | i < n && i != k :: f(i) == g(i)
    ensures Sum(n, g) == Sum(n, f) + g(k) - f(k)
  {
    if k == n - 1 {
      SumEqual(n - 1, f, g);
    } else {
      SumChange(n - 1, f, g, k);
    }
  }

  /** A summand that vanishes everywhere but at k. */
  lemma SumSingle(n: nat, f: nat -> real, k: nat)
    requires k < n
    requires forall i: nat | i < n && i != k :: f(i) == 0.0
    ensures Sum(n, f) == f(k)
  {
    var zero: nat -> real := (i: nat) => 0.0;
    SumZero(n, zero);
    SumChange(n, zero, f, k);
  }

  /** A term is at most the sum of non-negative terms. */
  lemma {:induction false} TermAtMostSum(n: nat, f: nat -> real, k: nat)
    requires k < n
    requires forall i: nat | i < n :: f(i) >= 0.0
    ensures f(k) <= Sum(n, f)
  {
    if k == n - 1 {
      SumNonNegative(n - 1, f);
    } else {
      TermAtMostSum(n - 1, f, k);
    }
  }

  /** A positive sum of non-negative terms has a positive term. */
  lemma {:induction false} PositiveTerm(n: nat, f: nat -> real) returns (k: nat)
    requires Sum(n, f) > 0.0
    ensures k < n && f(k) > 0.0
  {
    if f(n - 1) > 0.0 {
      k := n - 1;
    } else {
      k := PositiveTerm(n - 1, f);
    }
  }

  /** Summation by rows and by columns agree; rows and columns are the row and column totals. */
  lemma {:induction false} SumSwap(n: nat, m: nat, f: (nat, nat) -> real, rows: nat -> real, columns: nat -> real)
    requires forall i: nat | i < n :: rows(i) == Sum(m, Row(f, i))
    requires forall j: nat | j < m :: columns(j) == Sum(n, Column(f, j))
    ensures Sum(n, rows) == Sum(m, columns)
  {
    if n == 0 {
      SumZero(m, columns);
    } else {
      var shorter: nat -> real := (j: nat) => Sum(n - 1, Column(f, j));
      SumSwap(n - 1, m, f, rows, shorter);
      SumPlus(m, shorter, Row(f, n - 1));
      SumEqual(m, columns, Plus(shorter, Row(f, n - 1)));
    }
  }

  /** |x|. */
  function Abs(x: real): (r: real)
    ensures r >= 0.0 && (r == x || r == -x)
  {
    if x < 0.0 then -x else x
  }

  function AbsOf(f: nat -> real): nat -> real {
    (i: nat) => Abs(f(i))
  }

  /** The triangle inequality. */
  lemma {:induction false} AbsSum(n: nat, f: nat -> real)
    ensures Abs(Sum(n, f)) <= Sum(n, AbsOf(f))
  {
    if n > 0 {
      AbsSum(n - 1, f);
    }
  }
}
