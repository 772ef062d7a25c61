/** Brandes' recurrence: the dependency of one source on each vertex, from path counts. */
module Dependency {
  import opened Reals
  import opened RealSums
  import opened Walks
  import opened Distances

  /** The fraction of the shortest paths from s to t that visit v, for t other than v. */
  ghost function PairShare(a: Matrix, n: nat, s: nat, dist: seq<int>, v: nat): nat -> real {
    (t: nat) => if t != v && t < |dist| && dist[t] >= 0 && Sigma(a, n, s, dist, t) != 0.0
                then Through(a, n, s, dist, v, t) / Sigma(a, n, s, dist, t) else 0.0
  }

  /** The dependency of s on v: those fractions over all targets. */
  ghost function Delta(a: Matrix, n: nat, s: nat, dist: seq<int>, v: nat): real {
    Sum(n, PairShare(a, n, s, dist, v))
  }

  /** What a successor w of v passes back to v, when its own dependency is known. */
  ghost function PassedBack(a: Matrix, n: nat, s: nat, dist: seq<int>, v: nat): nat -> real {
    (w: nat) => if Precedes(a, dist, v, w) && Sigma(a, n, s, dist, w) != 0.0
                then Sigma(a, n, s, dist, v) / Sigma(a, n, s, dist, w) * (1.0 + Delta(a, n, s, dist, w)) else 0.0
  }

  // ---- the paths through v, by the first step after v -------------------------------------------------

  /** sigma(v) / sigma(w), for a successor w of v. */
  ghost function Ratio(a: Matrix, n: nat, s: nat, dist: seq<int>, v: nat, w: nat): real {
    if Precedes(a, dist, v, w) && Sigma(a, n, s, dist, w) != 0.0
    then Sigma(a, n, s, dist, v) / Sigma(a, n, s, dist, w) else 0.0
  }

  ghost function ByFirstStep(a: Matrix, n: nat, s: nat, dist: seq<int>, v: nat, t: nat): nat -> real {
    (w: nat) => Ratio(a, n, s, dist, v, w) * Through(a, n, s, dist, w, t)
  }

  /** The same summand, restricted to a last step from u to t. */
  ghost function StepPair(a: Matrix, n: nat, s: nat, dist: seq<int>, v: nat, t: nat): (nat, nat) -> real {
    (u: nat, w: nat) => if Precedes(a, dist, u, t) then Ratio(a, n, s, dist, v, w) * Through(a, n, s, dist, w, u) else 0.0
  }

  ghost function LastSteps(a: Matrix, n: nat, s: nat, dist: seq<int>, v: nat, t: nat): nat -> real {
    (u: nat) => if Precedes(a, dist, u, t) then Sum(n, ByFirstStep(a, n, s, dist, v, u)) else 0.0
  }

  ghost function FirstSteps(a: Matrix, n: nat, s: nat, dist: seq<int>, v: nat, t: nat): nat -> real {
    (w: nat) => Ratio(a, n, s, dist, v, w) * Sum(n, ThroughInflow(a, n, s, dist, w, t))
  }

  lemma StepsSwap(a: Matrix, n: nat, s: nat, dist: seq<int>, v: nat, t: nat)
    ensures Sum(n, LastSteps(a, n, s, dist, v, t)) == Sum(n, FirstSteps(a, n, s, dist, v, t))
  {
    var f := StepPair(a, n, s, dist, v, t);
    var rows, columns := LastSteps(a, n, s, dist, v, t), FirstSteps(a, n, s, dist, v, t);
    forall u: nat | u < n ensures rows(u) == Sum(n, Row(f, u)) {
      if Precedes(a, dist, u, t) {
        SumEqual(n, Row(f, u), ByFirstStep(a, n, s, dist, v, u));
      } else {
        SumZero(n, Row(f, u));
      }
    }
    forall w: nat | w < n ensures columns(w) == Sum(n, Column(f, w)) {
      var g, r := ThroughInflow(a, n, s, dist, w, t), Ratio(a, n, s, dist, v, w);
      SumScaled(n, r, g);
      SumEqual(n, Column(f, w), Scaled(r, g));
    }
    SumSwap(n, n, f, rows, columns);
  }

  /** Nothing further on than v passes through v again. */
  lemma NoReturn(a: Matrix, n: nat, s: nat, dist: seq<int>, v: nat, t: nat)
    requires AreDistances(a, n, s, dist) && v < n && t < n && dist[t] <= dist[v]
    ensures Sum(n, ByFirstStep(a, n, s, dist, v, t)) == 0.0
  {
    var f := ByFirstStep(a, n, s, dist, v, t);
    forall w: nat | w < n ensures f(w) == 0.0 {
      if Precedes(a, dist, v, w) {
        NoDetour(a, n, s, dist, w, t);
      }
    }
    SumZero(n, f);
  }

  /** The path counts through v to t split by the vertex that follows v. */
  lemma {:induction false} SplitByFirstStep(a: Matrix, n: nat, s: nat, dist: seq<int>, v: nat, t: nat)
    requires AreDistances(a, n, s, dist) && v < n && t < n && t != v && dist[v] >= 0 && dist[t] >= 0
    ensures Through(a, n, s, dist, v, t) == Sum(n, ByFirstStep(a, n, s, dist, v, t))
    decreases dist[t]
  {
    if dist[t] <= dist[v] {
      NoDetour(a, n, s, dist, v, t);
      NoReturn(a, n, s, dist, v, t);
    } else {
      ThroughRecurrence(a, n, s, dist, v, t);
      var inflow, last := ThroughInflow(a, n, s, dist, v, t), LastSteps(a, n, s, dist, v, t);
      forall u: nat | u < n
        ensures inflow(u) == last(u) + if u == v && Precedes(a, dist, v, t) then Sigma(a, n, s, dist, v) else 0.0
      {
        if Precedes(a, dist, u, t) {
          if u == v {
            NoReturn(a, n, s, dist, v, v);
          } else {
            SplitByFirstStep(a, n, s, dist, v, u);
          }
        }
      }
      AddAt(n, last, inflow, v, if Precedes(a, dist, v, t) then Sigma(a, n, s, dist, v) else 0.0);
      StepsSwap(a, n, s, dist, v, t);
      FirstStepsTotal(a, n, s, dist, v, t);
    }
  }

  lemma AddAt(n: nat, f: nat -> real, g: nat -> real, k: nat, c: real)
    requires k < n
    requires forall i: nat | i < n :: g(i) == f(i) + if i == k then c else 0.0
    ensures Sum(n, g) == Sum(n, f) + c
  {
    SumChange(n, f, g, k);
  }

  lemma FirstStepsTotal(a: Matrix, n: nat, s: nat, dist: seq<int>, v: nat, t: nat)
    requires AreDistances(a, n, s, dist) && v < n && t < n && dist[t] > dist[v] >= 0
    ensures Sum(n, ByFirstStep(a, n, s, dist, v, t)) == Sum(n, FirstSteps(a, n, s, dist, v, t))
              + if Precedes(a, dist, v, t) then Sigma(a, n, s, dist, v) else 0.0
  {
    hide Sum, Sigma, Through, IsDistance;
    var f, g := FirstSteps(a, n, s, dist, v, t), ByFirstStep(a, n, s, dist, v, t);
    forall w: nat | w < n
      ensures g(w) == f(w) + if w == t then (if Precedes(a, dist, v, t) then Sigma(a, n, s, dist, v) else 0.0) else 0.0
    {
      if Precedes(a, dist, v, w) {
        SigmaPositive(a, n, s, dist, w);
        if w == t {
          AtTarget(a, n, s, dist, t);
        } else {
          ThroughRecurrence(a, n, s, dist, w, t);
        }
      }
    }
    AddAt(n, f, g, t, if Precedes(a, dist, v, t) then Sigma(a, n, s, dist, v) else 0.0);
  }

  /** Every shortest path to t ends in t, and none of its predecessors has passed t. */
  lemma AtTarget(a: Matrix, n: nat, s: nat, dist: seq<int>, t: nat)
    requires AreDistances(a, n, s, dist) && t < n && dist[t] >= 0
    ensures Through(a, n, s, dist, t, t) == Sigma(a, n, s, dist, t)
    ensures Sum(n, ThroughInflow(a, n, s, dist, t, t)) == 0.0
  {
    var f := ThroughInflow(a, n, s, dist, t, t);
    forall u: nat | u < n ensures f(u) == 0.0 {
      if Precedes(a, dist, u, t) {
        NoDetour(a, n, s, dist, t, u);
      }
    }
    SumZero(n, f);
  }

  // ---- Brandes' recurrence ----------------------------------------------------------------------------

  ghost function SharePair(a: Matrix, n: nat, s: nat, dist: seq<int>, v: nat): (nat, nat) -> real {
    (t: nat, w: nat) => if t < |dist| && dist[t] >= 0 && Sigma(a, n, s, dist, t) != 0.0
                        then Ratio(a, n, s, dist, v, w) * Through(a, n, s, dist, w, t) / Sigma(a, n, s, dist, t) else 0.0
  }

  /** All targets, including w itself, whose share is one. */
  ghost function FullShare(a: Matrix, n: nat, s: nat, dist: seq<int>, w: nat): nat -> real {
    (t: nat) => if t < |dist| && dist[t] >= 0 && Sigma(a, n, s, dist, t) != 0.0
                then Through(a, n, s, dist, w, t) / Sigma(a, n, s, dist, t) else 0.0
  }

  lemma FullShareTotal(a: Matrix, n: nat, s: nat, dist: seq<int>, w: nat)
    requires AreDistances(a, n, s, dist) && w < n && dist[w] >= 0
    ensures Sum(n, FullShare(a, n, s, dist, w)) == 1.0 + Delta(a, n, s, dist, w)
  {
    SigmaPositive(a, n, s, dist, w);
    AddAt(n, PairShare(a, n, s, dist, w), FullShare(a, n, s, dist, w), w, 1.0);
  }

  lemma ProductQuotient(r: real, x: real, y: real)
    requires y != 0.0
    ensures r * x / y == r * (x / y)
  {
  }

  lemma ShareRow(a: Matrix, n: nat, s: nat, dist: seq<int>, v: nat, t: nat)
    requires AreDistances(a, n, s, dist) && v < n && t < n && dist[v] >= 0
    ensures PairShare(a, n, s, dist, v)(t) == Sum(n, Row(SharePair(a, n, s, dist, v), t))
  {
    hide Through, Sigma, Sum;
    var f := Row(SharePair(a, n, s, dist, v), t);
    if dist[t] >= 0 {
      SigmaPositive(a, n, s, dist, t);
      var c := 1.0 / Sigma(a, n, s, dist, t);
      var g := ByFirstStep(a, n, s, dist, v, t);
      forall w: nat | w < n ensures f(w) == Scaled(c, g)(w) {
        QuotientScales(g(w), Sigma(a, n, s, dist, t));
      }
      SumEqual(n, f, Scaled(c, g));
      SumScaled(n, c, g);
      if t == v {
        NoReturn(a, n, s, dist, v, v);
      } else {
        SplitByFirstStep(a, n, s, dist, v, t);
      }
    } else {
      SumZero(n, f);
    }
  }

  lemma ShareColumn(a: Matrix, n: nat, s: nat, dist: seq<int>, v: nat, w: nat)
    requires AreDistances(a, n, s, dist) && v < n && w < n
    ensures PassedBack(a, n, s, dist, v)(w) == Sum(n, Column(SharePair(a, n, s, dist, v), w))
  {
    var f := Column(SharePair(a, n, s, dist, v), w);
    hide Sum, Sigma, Through;
    var r, g := Ratio(a, n, s, dist, v, w), FullShare(a, n, s, dist, w);
    SumScaled(n, r, g);
    forall t: nat | t < n ensures f(t) == Scaled(r, g)(t) {
      if Sigma(a, n, s, dist, t) != 0.0 {
        ProductQuotient(r, Through(a, n, s, dist, w, t), Sigma(a, n, s, dist, t));
      }
    }
    SumEqual(n, f, Scaled(r, g));
    if Precedes(a, dist, v, w) {
      FullShareTotal(a, n, s, dist, w);
    }
  }

  /** The recurrence the accumulation loop relies on. */
  lemma BrandesRecurrence(a: Matrix, n: nat, s: nat, dist: seq<int>, v: nat)
    requires AreDistances(a, n, s, dist) && v < n && dist[v] >= 0
    ensures Delta(a, n, s, dist, v) == Sum(n, PassedBack(a, n, s, dist, v))
  {
    var f := SharePair(a, n, s, dist, v);
    var rows, columns := PairShare(a, n, s, dist, v), PassedBack(a, n, s, dist, v);
    forall t: nat | t < n ensures rows(t) == Sum(n, Row(f, t)) {
      ShareRow(a, n, s, dist, v, t);
    }
    forall w: nat | w < n ensures columns(w) == Sum(n, Column(f, w)) {
      ShareColumn(a, n, s, dist, v, w);
    }
    SumSwap(n, n, f, rows, columns);
  }
}
