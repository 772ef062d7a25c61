/** Sums over all pairs of indices. */
module PairSums {
  import opened RealSums

  function RowSums(f: (nat, nat) -> real, m: nat): nat -> real {
    (i: nat) => Sum(m, Row(f, i))
  }

  /** f summed over all i < n and j < m. */
  function Total(f: (nat, nat) -> real, n: nat, m: nat): real {
    Sum(n, RowSums(f, m))
  }

  function Both(f: (nat, nat) -> real, i: nat): nat -> real {
    (j: nat) => f(i, j) + f(j, i)
  }

  /** The pairs below the diagonal together with their mirror images, and the diagonal. */
  function Folded(f: (nat, nat) -> real): nat -> real {
    (i: nat) => Sum(i, Both(f, i)) + f(i, i)
  }

  lemma {:induction false} FoldTotal(f: (nat, nat) -> real, n: nat)
    ensures Total(f, n, n) == Sum(n, Folded(f))
  {
    if n > 0 {
      var m := n - 1;
      FoldTotal(f, m);
      SumPlus(m, RowSums(f, m), Column(f, m));
      SumEqual(m, RowSums(f, n), Plus(RowSums(f, m), Column(f, m)));
      SumPlus(m, Row(f, m), Column(f, m));
      SumEqual(m, Both(f, m), Plus(Row(f, m), Column(f, m)));
    }
  }

  lemma TotalEqual(f: (nat, nat) -> real, g: (nat, nat) -> real, n: nat, m: nat)
    requires forall i: nat, j: nat | i < n && j < m :: f(i, j) == g(i, j)
    ensures Total(f, n, m) == Total(g, n, m)
  {
    forall i: nat | i < n ensures RowSums(f, m)(i) == RowSums(g, m)(i) {
      SumEqual(m, Row(f, i), Row(g, i));
    }
    SumEqual(n, RowSums(f, m), RowSums(g, m));
  }

  function PairPlus(f: (nat, nat) -> real, g: (nat, nat) -> real): (nat, nat) -> real {
    (j: nat, k: nat) => f(j, k) + g(j, k)
  }

  lemma TotalPlus(f: (nat, nat) -> real, g: (nat, nat) -> real, n: nat)
    ensures Total(PairPlus(f, g), n, n) == Total(f, n, n) + Total(g, n, n)
  {
    forall i: nat | i < n ensures RowSums(PairPlus(f, g), n)(i) == Plus(RowSums(f, n), RowSums(g, n))(i) {
      SumPlus(n, Row(f, i), Row(g, i));
      SumEqual(n, Row(PairPlus(f, g), i), Plus(Row(f, i), Row(g, i)));
    }
    SumEqual(n, RowSums(PairPlus(f, g), n), Plus(RowSums(f, n), RowSums(g, n)));
    SumPlus(n, RowSums(f, n), RowSums(g, n));
  }

  /** A function that vanishes everywhere but at one pair. */
  lemma TotalSingle(f: (nat, nat) -> real, n: nat, u: nat, v: nat)
    requires u < n && v < n
    requires forall i: nat, j: nat | i < n && j < n && !(i == u && j == v) :: f(i, j) == 0.0
    ensures Total(f, n, n) == f(u, v)
  {
    forall i: nat | i < n && i != u ensures RowSums(f, n)(i) == 0.0 {
      SumZero(n, Row(f, i));
    }
    SumSingle(n, RowSums(f, n), u);
    SumSingle(n, Row(f, u), v);
  }

  lemma TotalZero(f: (nat, nat) -> real, n: nat)
    requires forall i: nat, j: nat | i < n && j < n :: f(i, j) == 0.0
    ensures Total(f, n, n) == 0.0
  {
    forall i: nat | i < n ensures RowSums(f, n)(i) == 0.0 {
      SumZero(n, Row(f, i));
    }
    SumZero(n, RowSums(f, n));
  }

  lemma TotalAtMost(f: (nat, nat) -> real, g: (nat, nat) -> real, n: nat)
    requires forall j: nat, k: nat | j < n && k < n :: f(j, k) <= g(j, k)
    ensures Total(f, n, n) <= Total(g, n, n)
  {
    forall i: nat | i < n ensures RowSums(f, n)(i) <= RowSums(g, n)(i) {
      SumAtMost(n, Row(f, i), Row(g, i));
    }
    SumAtMost(n, RowSums(f, n), RowSums(g, n));
  }

  lemma TotalNonNegative(f: (nat, nat) -> real, n: nat)
    requires forall j: nat, k: nat | j < n && k < n :: f(j, k) >= 0.0
    ensures Total(f, n, n) >= 0.0
  {
    forall i: nat | i < n ensures RowSums(f, n)(i) >= 0.0 {
      SumNonNegative(n, Row(f, i));
    }
    SumNonNegative(n, RowSums(f, n));
  }
}
