/** `_compute_path_metrics`: all-sources search, Brandes accumulation and normalised betweenness. */
module Betweenness {
  import opened PairSums
  import opened Reals
  import opened RealSums
  import opened Sequences
  import opened Walks
  import opened Distances
  import opened Dependency
  import opened BreadthFirst

  // ---- the accumulation loop --------------------------------------------------------------------------

  /** The guard against division by zero in the source. */
  const TINY: real := 0.000000001

  /** The share of 1 + dw that goes to a predecessor with sv of the sw paths. */
  function Portion(sv: real, sw: real, dw: real): real
    requires sw > 0.0
  {
    sv / sw * (1.0 + dw)
  }

  ghost function Elements(xs: seq<nat>): set<nat> {
    set x | x in xs
  }

  /** What the popped vertices have passed back to v. */
  ghost function PassedSoFar(a: Matrix, n: nat, s: nat, dist: seq<int>, v: nat, popped: set<nat>): nat -> real {
    (w: nat) => if w in popped then PassedBack(a, n, s, dist, v)(w) else 0.0
  }

  /** The predecessors of w, in list order, each receive their share of 1 + delta[w]. */
  method PassBack(n: nat, w: nat, sigma: array<real>, pred: seq<nat>, delta: array<real>)
    requires sigma.Length == delta.Length == n && sigma != delta && w < n
    requires NoDuplicates(pred) && w !in pred && forall v | v in pred :: v < n
    modifies delta
    ensures forall v: nat | v < n :: delta[v] == old(delta[v])
              + if v in pred then Portion(sigma[v], Max(TINY, sigma[w]), old(delta[w])) else 0.0
  {
    var j := 0;
    while j < |pred|
      invariant j <= |pred|
      invariant forall v: nat | v < n :: delta[v] == old(delta[v])
                  + if v in pred[..j] then Portion(sigma[v], Max(TINY, sigma[w]), old(delta[w])) else 0.0
    {
      var v := pred[j];
      assert v in pred && v !in pred[..j];
      assert pred[..j + 1] == pred[..j] + [v];
      delta[v] := delta[v] + Portion(sigma[v], Max(TINY, sigma[w]), delta[w]);
      j := j + 1;
    }
    assert pred[..j] == pred;
  }

  /** After every successor of w has been popped, delta[w] is the dependency on w. */
  lemma DeltaSettled(a: Matrix, n: nat, s: nat, st: Search, w: nat, popped: set<nat>)
    requires AreDistances(a, n, s, st.dist) && w < n && st.dist[w] >= 0
    requires forall x: nat | Precedes(a, st.dist, w, x) :: x in popped
    ensures Sum(n, PassedSoFar(a, n, s, st.dist, w, popped)) == Delta(a, n, s, st.dist, w)
  {
    BrandesRecurrence(a, n, s, st.dist, w);
    SumEqual(n, PassedSoFar(a, n, s, st.dist, w, popped), PassedBack(a, n, s, st.dist, w));
  }

  /** Popping w moves its share into the account of each predecessor. */
  lemma ShareBooked(a: Matrix, n: nat, s: nat, st: Search, v: nat, w: nat, popped: set<nat>)
    requires AreDistances(a, n, s, st.dist) && v < n && w < n && st.dist[w] >= 0 && w !in popped
    ensures Sigma(a, n, s, st.dist, w) >= 1.0
    ensures Sum(n, PassedSoFar(a, n, s, st.dist, v, popped + {w})) == Sum(n, PassedSoFar(a, n, s, st.dist, v, popped))
              + if Precedes(a, st.dist, v, w)
                then Portion(Sigma(a, n, s, st.dist, v), Sigma(a, n, s, st.dist, w), Delta(a, n, s, st.dist, w)) else 0.0
  {
    SigmaPositive(a, n, s, st.dist, w);
    var f, g := PassedSoFar(a, n, s, st.dist, v, popped), PassedSoFar(a, n, s, st.dist, v, popped + {w});
    assert f(w) == 0.0 && g(w) == PassedBack(a, n, s, st.dist, v)(w);
    SumChange(n, f, g, w);
  }

  /** The effect of one pop on all accounts, in the terms of the loop. */
  lemma SharesBooked(a: Matrix, n: nat, s: nat, st: Search, w: nat, popped: set<nat>)
    requires Complete(a, n, s, st) && s < n && w < n == |st.dist| && st.dist[w] >= 0 && w !in popped
    requires forall x: nat | Precedes(a, st.dist, w, x) :: x in popped
    ensures |st.sigma| == |st.pred| == n
    ensures w !in st.pred[w] && NoDuplicates(st.pred[w]) && forall v | v in st.pred[w] :: v < n
    ensures Sum(n, PassedSoFar(a, n, s, st.dist, w, popped)) == Delta(a, n, s, st.dist, w)
    ensures forall v: nat | v < n ::
              Sum(n, PassedSoFar(a, n, s, st.dist, v, popped + {w})) == Sum(n, PassedSoFar(a, n, s, st.dist, v, popped))
              + if v in st.pred[w]
                then Portion(st.sigma[v], Max(TINY, st.sigma[w]), Delta(a, n, s, st.dist, w)) else 0.0
  {
    SearchFacts(a, n, s, st);
    DeltaSettled(a, n, s, st, w, popped);
    hide Complete, Delta, PassedBack, PassedSoFar, Sigma, Sum, Portion, Precedes;
    forall v: nat | v < n
      ensures Sum(n, PassedSoFar(a, n, s, st.dist, v, popped + {w})) == Sum(n, PassedSoFar(a, n, s, st.dist, v, popped))
              + if v in st.pred[w]
                then Portion(st.sigma[v], Max(TINY, st.sigma[w]), Delta(a, n, s, st.dist, w)) else 0.0
    {
      ShareBooked(a, n, s, st, v, w, popped);
    }
  }

  /** A vertex no path from s reaches lies on no shortest path. */
  lemma {:induction false} Unvisited(a: Matrix, n: nat, s: nat, dist: seq<int>, v: nat, t: nat)
    requires AreDistances(a, n, s, dist) && v < n && t < n && dist[v] < 0
    ensures Through(a, n, s, dist, v, t) == 0.0
    decreases if dist[t] >= 0 then dist[t] else 0
  {
    if dist[t] >= 1 {
      ThroughRecurrence(a, n, s, dist, v, t);
      var f := ThroughInflow(a, n, s, dist, v, t);
      forall u: nat | u < n ensures f(u) == 0.0 {
        if Precedes(a, dist, u, t) {
          Unvisited(a, n, s, dist, v, u);
        }
      }
      SumZero(n, f);
    }
  }

  lemma UnvisitedDelta(a: Matrix, n: nat, s: nat, dist: seq<int>, v: nat)
    requires AreDistances(a, n, s, dist) && v < n && dist[v] < 0
    ensures Delta(a, n, s, dist, v) == 0.0
  {
    var f := PairShare(a, n, s, dist, v);
    forall t: nat | t < n ensures f(t) == 0.0 {
      Unvisited(a, n, s, dist, v, t);
    }
    SumZero(n, f);
  }

  /** Where the stack is cut, everything a vertex precedes lies on the popped side. */
  lemma SuccessorsPopped(a: Matrix, n: nat, s: nat, st: Search, m: nat, x: nat)
    requires Complete(a, n, s, st) && 0 < m <= |st.order| && Precedes(a, st.dist, st.order[m - 1], x) && x < n
    ensures x in st.order[m..]
  {
    assert x in st.order && st.order[m - 1] in st.order;
    assert forall i | 0 <= i < m :: Level(st.dist, st.order[i]) <= Level(st.dist, st.order[m - 1]);
    var i :| 0 <= i < |st.order| && st.order[i] == x;
    assert st.order[m..][i - m] == x;
  }

  /** The accumulation loop: pop the stack, pass shares back, add to the betweenness totals. */
  method Accumulate(a: Matrix, n: nat, s: nat, sigma: array<real>, pred: array<seq<nat>>, order: seq<nat>,
                    betweenness: array<real>, ghost st: Search)
    returns (delta: array<real>)
    requires s < n && betweenness.Length == n && betweenness != sigma
    requires st == Search(st.dist, sigma[..], pred[..], order) && Complete(a, n, s, st)
    modifies betweenness
    ensures fresh(delta) && delta.Length == n
    ensures forall v: nat | v < n :: delta[v] == Delta(a, n, s, st.dist, v)
    ensures forall v: nat | v < n :: betweenness[v] == old(betweenness[v])
              + if v != s then Delta(a, n, s, st.dist, v) else 0.0
  {
    hide Complete, Delta, PassedBack, Sigma, Sum, PassedSoFar, Precedes, Portion;
    SearchFacts(a, n, s, st);
    delta := new real[n](_ => 0.0);
    var stack := order;
    ghost var popped: set<nat> := {};
    NothingPassed(a, n, s, st.dist);
    assert order[|order|..] == [];
    while stack != []
      invariant delta.Length == n && fresh(delta)
      invariant stack <= order && popped == Elements(order[|stack|..])
      invariant forall v: nat | v < n :: delta[v] == Sum(n, PassedSoFar(a, n, s, st.dist, v, popped))
      invariant forall v: nat | v < n :: betweenness[v] == old(betweenness[v])
                  + if v != s && v in popped then Delta(a, n, s, st.dist, v) else 0.0
      decreases |stack|
    {
      var w := stack[|stack| - 1];
      PopFacts(a, n, s, st, stack, w);
      stack := stack[..|stack| - 1];
      SharesBooked(a, n, s, st, w, popped);
      PassBack(n, w, sigma, pred[w], delta);
      if w != s {
        betweenness[w] := betweenness[w] + delta[w];
      }
      popped := popped + {w};
    }
    assert order[0..] == order;
    forall v: nat | v < n
      ensures delta[v] == Delta(a, n, s, st.dist, v) && (v !in popped ==> delta[v] == 0.0)
    {
      Finished(a, n, s, st, v, popped);
    }
  }

  lemma NothingPassed(a: Matrix, n: nat, s: nat, dist: seq<int>)
    ensures forall v: nat | v < n :: Sum(n, PassedSoFar(a, n, s, dist, v, {})) == 0.0
  {
    forall v: nat | v < n ensures Sum(n, PassedSoFar(a, n, s, dist, v, {})) == 0.0 {
      SumZero(n, PassedSoFar(a, n, s, dist, v, {}));
    }
  }

  lemma SearchFacts(a: Matrix, n: nat, s: nat, st: Search)
    requires Complete(a, n, s, st) && s < n
    ensures |st.dist| == |st.sigma| == |st.pred| == n
    ensures AreDistances(a, n, s, st.dist)
    ensures forall x: nat | x < n :: st.sigma[x] == Sigma(a, n, s, st.dist, x) && NoDuplicates(st.pred[x])
    ensures forall x: nat, u: nat | x < n :: u in st.pred[x] <==> Precedes(a, st.dist, u, x)
  {
    BfsExact(a, n, s, st);
    forall x: nat | x < n ensures st.sigma[x] == Sigma(a, n, s, st.dist, x) {
      SigmaExact(a, n, s, st, x);
    }
  }

  lemma PopFacts(a: Matrix, n: nat, s: nat, st: Search, stack: seq<nat>, w: nat)
    requires Complete(a, n, s, st) && stack != [] && stack <= st.order && w == stack[|stack| - 1]
    ensures |st.dist| == n && w < n && st.dist[w] >= 0 && w !in st.order[|stack|..]
    ensures forall x: nat | Precedes(a, st.dist, w, x) :: x in st.order[|stack|..]
    ensures Elements(st.order[|stack| - 1..]) == Elements(st.order[|stack|..]) + {w}
  {
    assert w == st.order[|stack| - 1] && w in st.order;
    assert st.order[|stack| - 1..] == [w] + st.order[|stack|..];
    forall x: nat | Precedes(a, st.dist, w, x) ensures x in st.order[|stack|..] {
      SuccessorsPopped(a, n, s, st, |stack|, x);
    }
  }

  lemma Finished(a: Matrix, n: nat, s: nat, st: Search, v: nat, popped: set<nat>)
    requires Complete(a, n, s, st) && s < n && v < n && popped == Elements(st.order)
    ensures Sum(n, PassedSoFar(a, n, s, st.dist, v, popped)) == Delta(a, n, s, st.dist, v)
    ensures v !in popped ==> Delta(a, n, s, st.dist, v) == 0.0
  {
    DistancesExact(a, n, s, st);
    if st.dist[v] >= 0 {
      DeltaSettled(a, n, s, st, v, popped);
    } else {
      UnvisitedDelta(a, n, s, st.dist, v);
      var f := PassedSoFar(a, n, s, st.dist, v, popped);
      assert forall w: nat :: PassedBack(a, n, s, st.dist, v)(w) == 0.0;
      SumZero(n, f);
    }
  }

  // ---- all sources ------------------------------------------------------------------------------------

  /** The dependency of each source other than v on v. */
  ghost function FromSource(a: Matrix, n: nat, distances: seq<seq<int>>, v: nat): nat -> real {
    (s: nat) => if s != v && s < |distances| then Delta(a, n, s, distances[s], v) else 0.0
  }

  lemma PairsPositive(n: nat)
    requires n > 2
    ensures (n as real - 1.0) * (n as real - 2.0) > 0.0
  {
  }

  /** One over the number of ordered pairs that exclude a vertex, when there are such pairs. */
  function Scale(n: nat): real {
    if n > 2 then 1.0 / ((n as real - 1.0) * (n as real - 2.0)) else 1.0
  }

  /** A pass for one more source adds its term to the running totals. */
  lemma SourceAdded(a: Matrix, n: nat, before: seq<seq<int>>, dist: seq<int>, v: nat)
    ensures Sum(|before| + 1, FromSource(a, n, before + [dist], v)) == Sum(|before|, FromSource(a, n, before, v))
              + if v != |before| then Delta(a, n, |before|, dist, v) else 0.0
  {
    var f, g := FromSource(a, n, before, v), FromSource(a, n, before + [dist], v);
    SumEqual(|before|, f, g);
  }

  // ---- betweenness as an average ------------------------------------------------------------------------

  /** s and t are different vertices, and neither is v. */
  predicate IsOtherPair(v: nat, s: nat, t: nat) {
    s != t && s != v && t != v
  }

  /** The fraction of the enumerated shortest walks from s to t that visit v; nothing for an unreachable t. */
  ghost function VisitingFraction(a: Matrix, n: nat, distances: seq<seq<int>>, v: nat): (nat, nat) -> real {
    (s: nat, t: nat) =>
      if IsOtherPair(v, s, t) && s < |distances| && t < |distances[s]| && distances[s][t] >= 0
         && |WalkList(a, n, s, t, distances[s][t])| > 0
      then Visiting(WalkList(a, n, s, t, distances[s][t]), v) as real / |WalkList(a, n, s, t, distances[s][t])| as real
      else 0.0
  }

  /** One for each such pair. */
  function OtherPairs(v: nat): (nat, nat) -> real {
    (s: nat, t: nat) => if IsOtherPair(v, s, t) then 1.0 else 0.0
  }

  /** Each vertex has the average of the fractions over the ordered pairs of other vertices, if there are any. */
  ghost predicate IsBetweenness(a: Matrix, n: nat, distances: seq<seq<int>>, b: seq<real>) {
    && |b| == n
    && (n <= 2 ==> forall v | 0 <= v < n :: b[v] == 0.0)
    && (forall v: nat | v < n ::
          b[v] * Total(OtherPairs(v), n, n) == Total(VisitingFraction(a, n, distances, v), n, n))
  }

  /** A share is the fraction of the enumerated shortest walks to t that visit v. */
  lemma ShareIsFraction(a: Matrix, n: nat, s: nat, dist: seq<int>, v: nat, t: nat)
    requires AreDistances(a, n, s, dist) && v < n && t < n && t != v && dist[t] >= 0
    ensures |WalkList(a, n, s, t, dist[t])| > 0
    ensures PairShare(a, n, s, dist, v)(t)
              == Visiting(WalkList(a, n, s, t, dist[t]), v) as real / |WalkList(a, n, s, t, dist[t])| as real
  {
    SigmaPositive(a, n, s, dist, t);
    CountIsListLength(a, n, s, t, dist[t]);
    CountThroughIsVisiting(a, n, s, v, t, dist[t]);
  }

  /** 1 for every vertex other than v and s. */
  ghost function OthersThan(v: nat, s: nat): nat -> real {
    (t: nat) => if t == v || t == s then 0.0 else 1.0
  }

  lemma OthersTotal(n: nat, v: nat, s: nat)
    requires v < n && s < n && v != s
    ensures Sum(n, OthersThan(v, s)) == n as real - 2.0
  {
    var one: nat -> real := (t: nat) => 1.0;
    var butV: nat -> real := (t: nat) => if t == v then 0.0 else 1.0;
    SumConstant(n, one, 1.0);
    SumChange(n, one, butV, v);
    SumChange(n, butV, OthersThan(v, s), s);
  }

  /** The dependency of s on another vertex is at most one for each remaining target. */
  lemma DeltaBounds(a: Matrix, n: nat, s: nat, dist: seq<int>, v: nat)
    requires AreDistances(a, n, s, dist) && v < n && v != s
    ensures 0.0 <= Delta(a, n, s, dist, v) <= n as real - 2.0
  {
    var f := PairShare(a, n, s, dist, v);
    forall t: nat | t < n ensures 0.0 <= f(t) <= OthersThan(v, s)(t) {
      SourceAlone(a, n, s, dist, t);
      if dist[t] >= 0 && t != v {
        SigmaPositive(a, n, s, dist, t);
        ThroughBounds(a, n, s, v, t, dist[t]);
        FractionBounds(Through(a, n, s, dist, v, t), Sigma(a, n, s, dist, t));
      }
    }
    SumNonNegative(n, f);
    SumAtMost(n, f, OthersThan(v, s));
    OthersTotal(n, v, s);
  }

  lemma FractionBounds(x: real, y: real)
    requires 0.0 <= x <= y && y >= 1.0
    ensures 0.0 <= x / y <= 1.0
  {
  }

  lemma SourceFractions(a: Matrix, n: nat, distances: seq<seq<int>>, v: nat, s: nat)
    requires |distances| == n && v < n && s < n && AreDistances(a, n, s, distances[s])
    ensures FromSource(a, n, distances, v)(s) == Sum(n, Row(VisitingFraction(a, n, distances, v), s))
  {
    var dist := distances[s];
    var f, g := PairShare(a, n, s, dist, v), Row(VisitingFraction(a, n, distances, v), s);
    if s == v {
      SumZero(n, g);
    } else {
      forall t: nat | t < n ensures f(t) == g(t) {
        SourceAlone(a, n, s, dist, t);
        if t != v && dist[t] >= 0 && t != s {
          ShareIsFraction(a, n, s, dist, v, t);
        }
      }
      SumEqual(n, f, g);
    }
  }

  lemma FractionsTotal(a: Matrix, n: nat, distances: seq<seq<int>>, v: nat)
    requires |distances| == n && v < n && forall s: nat | s < n :: AreDistances(a, n, s, distances[s])
    ensures Sum(n, FromSource(a, n, distances, v)) == Total(VisitingFraction(a, n, distances, v), n, n)
  {
    var f, g := FromSource(a, n, distances, v), RowSums(VisitingFraction(a, n, distances, v), n);
    forall s: nat | s < n ensures f(s) == g(s) {
      SourceFractions(a, n, distances, v, s);
    }
    SumEqual(n, f, g);
  }

  lemma MostTotal(n: nat, most: nat -> real, v: nat)
    requires v < n && forall s: nat | s < n :: most(s) == if s == v then 0.0 else n as real - 2.0
    ensures Sum(n, most) == (n as real - 1.0) * (n as real - 2.0)
  {
    var x := n as real;
    var same: nat -> real := (s: nat) => x - 2.0;
    hide Sum;
    SumConstant(n, same, x - 2.0);
    SumChange(n, same, most, v);
    assert x * (x - 2.0) - (x - 2.0) == (x - 1.0) * (x - 2.0);
  }

  /** There are (n - 1)(n - 2) ordered pairs of vertices other than v. */
  lemma OtherPairsTotal(n: nat, v: nat)
    requires v < n
    ensures Total(OtherPairs(v), n, n) == (n as real - 1.0) * (n as real - 2.0)
  {
    var rows := RowSums(OtherPairs(v), n);
    forall s: nat | s < n ensures rows(s) == if s == v then 0.0 else n as real - 2.0 {
      if s == v {
        SumZero(n, Row(OtherPairs(v), s));
      } else {
        OthersTotal(n, v, s);
        SumEqual(n, Row(OtherPairs(v), s), OthersThan(v, s));
      }
    }
    MostTotal(n, rows, v);
  }

  lemma OtherPairsPositive(n: nat, v: nat)
    requires n > 2 && v < n
    ensures Total(OtherPairs(v), n, n) > 0.0
  {
    OtherPairsTotal(n, v);
    PairsPositive(n);
  }

  lemma FractionInRange(a: Matrix, n: nat, distances: seq<seq<int>>, v: nat, s: nat, t: nat)
    ensures 0.0 <= VisitingFraction(a, n, distances, v)(s, t) <= OtherPairs(v)(s, t)
  {
    if IsOtherPair(v, s, t) && s < |distances| && t < |distances[s]| && distances[s][t] >= 0 {
      var walks := WalkList(a, n, s, t, distances[s][t]);
      VisitingAtMost(walks, v);
      if |walks| > 0 {
        FractionBounds(Visiting(walks, v) as real, |walks| as real);
      }
    }
  }

  lemma FractionsInRange(a: Matrix, n: nat, distances: seq<seq<int>>, v: nat)
    ensures 0.0 <= Total(VisitingFraction(a, n, distances, v), n, n) <= Total(OtherPairs(v), n, n)
  {
    var f, g := VisitingFraction(a, n, distances, v), OtherPairs(v);
    forall s: nat, t: nat | s < n && t < n ensures 0.0 <= f(s, t) <= g(s, t) {
      FractionInRange(a, n, distances, v, s, t);
    }
    hide VisitingFraction, OtherPairs;
    TotalNonNegative(f, n);
    TotalAtMost(f, g, n);
  }

  /** Dividing the sum of the dependencies by the number of pairs gives the average. */
  lemma ScaledIsBetweenness(a: Matrix, n: nat, distances: seq<seq<int>>, b: seq<real>)
    requires n > 1 && |distances| == n && |b| == n && forall s: nat | s < n :: AreDistances(a, n, s, distances[s])
    requires forall v: nat | v < n :: b[v] == Sum(n, FromSource(a, n, distances, v)) * Scale(n)
    ensures IsBetweenness(a, n, distances, b)
  {
    hide Sum, Total, FromSource, VisitingFraction, OtherPairs, AreDistances;
    forall v: nat | v < n
      ensures b[v] * Total(OtherPairs(v), n, n) == Total(VisitingFraction(a, n, distances, v), n, n)
      ensures n <= 2 ==> b[v] == 0.0
    {
      FractionsTotal(a, n, distances, v);
      OtherPairsTotal(n, v);
      FractionsInRange(a, n, distances, v);
      Unscaled(n, Total(VisitingFraction(a, n, distances, v), n, n));
    }
  }

  lemma Unscaled(n: nat, total: real)
    requires n > 1 && 0.0 <= total <= (n as real - 1.0) * (n as real - 2.0)
    ensures total * Scale(n) * ((n as real - 1.0) * (n as real - 2.0)) == total
    ensures n == 2 ==> total == 0.0
  {
    if n > 2 {
      PairsPositive(n);
      ProductCancels(total, (n as real - 1.0) * (n as real - 2.0));
    }
  }

  lemma ProductCancels(x: real, y: real)
    requires y > 0.0
    ensures x * (1.0 / y) * y == x
  {
    assert (1.0 / y) * y == 1.0;
    assert x * (1.0 / y) * y == x * ((1.0 / y) * y);
  }

  // ---- the loop over all sources --------------------------------------------------------------------------

  /** The pass for the next source: search, then accumulate. */
  method OneSource(a: Matrix, n: nat, distances: seq<seq<int>>, betweenness: array<real>) returns (row: seq<int>)
    requires Square(a, n) && |distances| < n && betweenness.Length == n
    modifies betweenness
    ensures AreDistances(a, n, |distances|, row)
    ensures forall v: nat | v < n && old(betweenness[v]) == Sum(|distances|, FromSource(a, n, distances, v)) ::
              betweenness[v] == Sum(|distances| + 1, FromSource(a, n, distances + [row], v))
  {
    var s := |distances|;
    var dist, sigma, pred, stack := Bfs(a, n, s);
    row := dist[..];
    ghost var st := Search(row, sigma[..], pred[..], stack);
    DistancesExact(a, n, s, st);
    hide Complete, Delta, FromSource, Sum, AreDistances;
    var delta := Accumulate(a, n, s, sigma, pred, stack, betweenness, st);
    forall v: nat | v < n && old(betweenness[v]) == Sum(s, FromSource(a, n, distances, v))
      ensures betweenness[v] == Sum(s + 1, FromSource(a, n, distances + [row], v))
    {
      SourceAdded(a, n, distances, row, v);
    }
  }

  /** Betweenness and all-pairs distances. */
  method PathMetrics(a: Matrix, n: nat) returns (betweenness: array<real>, distances: seq<seq<int>>)
    requires Square(a, n)
    ensures betweenness.Length == n
    ensures n <= 1 ==> forall v: nat | v < n :: betweenness[v] == 0.0
    ensures n > 1 ==> |distances| == n && forall s: nat | s < n :: AreDistances(a, n, s, distances[s])
    ensures n > 1 ==> forall v: nat | v < n :: betweenness[v] == Sum(n, FromSource(a, n, distances, v)) * Scale(n)
    ensures n > 1 ==> IsBetweenness(a, n, distances, betweenness[..])
  {
    hide Complete, Delta, FromSource, AreDistances, IsBetweenness;
    betweenness := new real[n](_ => 0.0);
    distances := [];
    if n <= 1 {
      return;
    }
    var s := 0;
    while s < n
      invariant s == |distances| <= n
      invariant forall i: nat | i < s :: AreDistances(a, n, i, distances[i])
      invariant forall v: nat | v < n :: betweenness[v] == Sum(s, FromSource(a, n, distances, v))
    {
      var dist := OneSource(a, n, distances, betweenness);
      distances := distances + [dist];
      s := s + 1;
    }
    hide Sum;
    if n > 2 {
      PairsPositive(n);
      var scale := 1.0 / ((n as real - 1.0) * (n as real - 2.0));
      assert scale == Scale(n);
      hide Scale;
      forall v | 0 <= v < n {
        betweenness[v] := betweenness[v] * scale;
      }
    } else {
      assert Scale(n) == 1.0;
    }
    hide Scale;
    ScaledIsBetweenness(a, n, distances, betweenness[..]);
  }

  // ---- what the numbers mean --------------------------------------------------------------------------

  /** Normalised betweenness lies in [0, 1]. */
  lemma BetweennessInRange(a: Matrix, n: nat, distances: seq<seq<int>>, b: seq<real>, v: nat)
    requires IsBetweenness(a, n, distances, b) && v < n
    ensures 0.0 <= b[v] <= 1.0
  {
    if n > 2 {
      hide Total, VisitingFraction, OtherPairs;
      OtherPairsPositive(n, v);
      FractionsInRange(a, n, distances, v);
      assert b[v] * Total(OtherPairs(v), n, n) == Total(VisitingFraction(a, n, distances, v), n, n);
      QuotientInRange(b[v], Total(OtherPairs(v), n, n));
    }
  }

  lemma QuotientInRange(x: real, y: real)
    requires y > 0.0 && 0.0 <= x * y <= y
    ensures 0.0 <= x <= 1.0
  {
  }

  /** Every two vertices are adjacent just when exactly one of them is the centre. */
  ghost predicate IsStar(a: Matrix, n: nat, centre: nat) {
    centre < n && forall u: nat, v: nat | u < n && v < n :: Edge(a, u, v) <==> u != v && (u == centre || v == centre)
  }

  /** Every walk between two other vertices passes through the centre, and there is one. */
  lemma StarWalks(a: Matrix, n: nat, centre: nat, s: nat, t: nat, k: nat)
    requires IsStar(a, n, centre) && s < n && t < n && IsOtherPair(centre, s, t)
    ensures Visiting(WalkList(a, n, s, t, k), centre) == |WalkList(a, n, s, t, k)|
    ensures |WalkList(a, n, s, t, 2)| > 0
  {
    var walks := WalkList(a, n, s, t, k);
    forall i | 0 <= i < |walks| ensures centre in walks[i] {
      ListedIsWalk(a, n, s, t, k, walks[i]);
      assert walks[i][1] == centre;
    }
    VisitingAll(walks, centre);
    WalkIsListed(a, n, s, t, 2, [s, centre, t]);
  }

  lemma StarFraction(a: Matrix, n: nat, distances: seq<seq<int>>, centre: nat, s: nat, t: nat)
    requires IsStar(a, n, centre) && |distances| == n && s < n && t < n && AreDistances(a, n, s, distances[s])
    ensures VisitingFraction(a, n, distances, centre)(s, t) == OtherPairs(centre)(s, t)
  {
    hide WalkList, Visiting, Count, IsStar;
    if IsOtherPair(centre, s, t) {
      var d := distances[s][t];
      StarWalks(a, n, centre, s, t, 2);
      CountIsListLength(a, n, s, t, 2);
      assert IsDistance(a, n, s, t, d);
      StarWalks(a, n, centre, s, t, d);
      CountIsListLength(a, n, s, t, d);
      var all := |WalkList(a, n, s, t, d)| as real;
      assert all > 0.0 && all / all == 1.0;
    }
  }

  /** The upper bound is reached: the centre of a star of three or more vertices has betweenness 1. */
  lemma StarCentreIsOne(a: Matrix, n: nat, distances: seq<seq<int>>, b: seq<real>, centre: nat)
    requires n >= 3 && IsStar(a, n, centre) && IsBetweenness(a, n, distances, b)
    requires |distances| == n && forall s: nat | s < n :: AreDistances(a, n, s, distances[s])
    ensures b[centre] == 1.0
  {
    var f, g := VisitingFraction(a, n, distances, centre), OtherPairs(centre);
    hide VisitingFraction, OtherPairs, Total, AreDistances;
    assert centre < n;
    hide IsStar;
    forall s: nat, t: nat | s < n && t < n ensures f(s, t) == g(s, t) {
      StarFraction(a, n, distances, centre, s, t);
    }
    TotalEqual(f, g, n, n);
    OtherPairsPositive(n, centre);
    assert b[centre] * Total(g, n, n) == Total(f, n, n);
    hide IsBetweenness;
    OnlyOne(b[centre], Total(g, n, n));
  }

  lemma OnlyOne(x: real, y: real)
    requires y > 0.0 && x * y == y
    ensures x == 1.0
  {
  }


  // ---- dependencies level by level --------------------------------------------------------------------

  ghost function AtLevel(a: Matrix, n: nat, s: nat, dist: seq<int>, level: nat, t: nat): nat -> real {
    (v: nat) => if v < |dist| && dist[v] == level then Through(a, n, s, dist, v, t) else 0.0
  }

  ghost function LevelPair(a: Matrix, n: nat, s: nat, dist: seq<int>, level: nat, t: nat): (nat, nat) -> real {
    (v: nat, u: nat) => if Precedes(a, dist, u, t) && v < |dist| && dist[v] == level
                        then Through(a, n, s, dist, v, u) else 0.0
  }

  /** Every shortest path to a vertex at or beyond a level crosses that level in exactly one vertex. */
  lemma {:induction false} CrossesOnce(a: Matrix, n: nat, s: nat, dist: seq<int>, level: nat, t: nat)
    requires AreDistances(a, n, s, dist) && t < n && dist[t] >= 0
    ensures Sum(n, AtLevel(a, n, s, dist, level, t)) == if dist[t] >= level then Sigma(a, n, s, dist, t) else 0.0
    decreases dist[t]
  {
    var f := AtLevel(a, n, s, dist, level, t);
    if dist[t] <= level {
      forall v: nat | v < n && v != t ensures f(v) == 0.0 {
        if dist[v] == level {
          NoDetour(a, n, s, dist, v, t);
        }
      }
      SumSingle(n, f, t);
    } else {
      var pair := LevelPair(a, n, s, dist, level, t);
      forall v: nat | v < n ensures f(v) == Sum(n, Row(pair, v)) {
        if dist[v] == level {
          ThroughRecurrence(a, n, s, dist, v, t);
          SumEqual(n, ThroughInflow(a, n, s, dist, v, t), Row(pair, v));
        } else {
          SumZero(n, Row(pair, v));
        }
      }
      var inflow := SigmaInflow(a, n, s, dist, t);
      forall u: nat | u < n ensures inflow(u) == Sum(n, Column(pair, u)) {
        if Precedes(a, dist, u, t) {
          CrossesOnce(a, n, s, dist, level, u);
          SumEqual(n, AtLevel(a, n, s, dist, level, u), Column(pair, u));
        } else {
          SumZero(n, Column(pair, u));
        }
      }
      SumSwap(n, n, pair, f, inflow);
      SigmaRecurrence(a, n, s, dist, t);
    }
  }

  ghost function DeltaAt(a: Matrix, n: nat, s: nat, dist: seq<int>, level: nat): nat -> real {
    (v: nat) => if v < |dist| && dist[v] == level then Delta(a, n, s, dist, v) else 0.0
  }

  ghost function Beyond(dist: seq<int>, level: nat): nat -> real {
    (t: nat) => if t < |dist| && dist[t] > level then 1.0 else 0.0
  }

  ghost function DeltaPair(a: Matrix, n: nat, s: nat, dist: seq<int>, level: nat): (nat, nat) -> real {
    (v: nat, t: nat) => if v < |dist| && dist[v] == level then PairShare(a, n, s, dist, v)(t) else 0.0
  }

  lemma ShareBeyond(a: Matrix, n: nat, s: nat, dist: seq<int>, level: nat, t: nat)
    requires AreDistances(a, n, s, dist) && t < n && dist[t] > level
    ensures Sum(n, Column(DeltaPair(a, n, s, dist, level), t)) == 1.0
  {
    SigmaPositive(a, n, s, dist, t);
    CrossesOnce(a, n, s, dist, level, t);
    hide Through, Sigma, Sum, AreDistances;
    var f, g, c := Column(DeltaPair(a, n, s, dist, level), t), AtLevel(a, n, s, dist, level, t), 1.0 / Sigma(a, n, s, dist, t);
    forall v: nat | v < n ensures f(v) == Scaled(c, g)(v) {
      QuotientScales(g(v), Sigma(a, n, s, dist, t));
      assert f(v) == if v < |dist| && dist[v] == level then PairShare(a, n, s, dist, v)(t) else 0.0;
    }
    SumEqual(n, f, Scaled(c, g));
    SumScaled(n, c, g);
  }

  lemma ShareColumnTotal(a: Matrix, n: nat, s: nat, dist: seq<int>, level: nat, t: nat)
    requires AreDistances(a, n, s, dist) && t < n
    ensures Beyond(dist, level)(t) == Sum(n, Column(DeltaPair(a, n, s, dist, level), t))
  {
    if dist[t] > level {
      ShareBeyond(a, n, s, dist, level, t);
    } else {
      var f := Column(DeltaPair(a, n, s, dist, level), t);
      forall v: nat | v < n ensures f(v) == 0.0 {
        assert f(v) == if v < |dist| && dist[v] == level then PairShare(a, n, s, dist, v)(t) else 0.0;
        if dist[v] == level && v != t {
          NoDetour(a, n, s, dist, v, t);
        }
      }
      SumZero(n, f);
    }
  }

  /** The dependencies at a level add up to the number of vertices beyond it. */
  lemma LevelTotal(a: Matrix, n: nat, s: nat, dist: seq<int>, level: nat)
    requires AreDistances(a, n, s, dist)
    ensures Sum(n, DeltaAt(a, n, s, dist, level)) == Sum(n, Beyond(dist, level))
  {
    var pair := DeltaPair(a, n, s, dist, level);
    var rows, columns := DeltaAt(a, n, s, dist, level), Beyond(dist, level);
    forall v: nat | v < n ensures rows(v) == Sum(n, Row(pair, v)) {
      if dist[v] == level {
        SumEqual(n, Row(pair, v), PairShare(a, n, s, dist, v));
      } else {
        SumZero(n, Row(pair, v));
      }
    }
    forall t: nat | t < n ensures columns(t) == Sum(n, Column(pair, t)) {
      ShareColumnTotal(a, n, s, dist, level, t);
    }
    SumSwap(n, n, pair, rows, columns);
  }

  /** The dependency of the source on itself counts the other reachable vertices. */
  lemma SourceDelta(a: Matrix, n: nat, s: nat, dist: seq<int>)
    requires AreDistances(a, n, s, dist)
    ensures Delta(a, n, s, dist, s) == Sum(n, Beyond(dist, 0))
  {
    LevelTotal(a, n, s, dist, 0);
    var f := DeltaAt(a, n, s, dist, 0);
    forall v: nat | v < n && v != s ensures f(v) == 0.0 {
      SourceAlone(a, n, s, dist, v);
    }
    SourceAlone(a, n, s, dist, s);
    SumSingle(n, f, s);
  }
}
