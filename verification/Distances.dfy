/** Shortest-path distances, stated on walk counts, and the predecessor relation they induce. */
module Distances {
  import opened RealSums
  import opened Walks

  /** d is the least length of a walk from s to v, or -1 when there is no walk of any length. */
  ghost predicate IsDistance(a: Matrix, n: nat, s: nat, v: nat, d: int) {
    if d >= 0 then
      Count(a, n, s, v, d) > 0.0 && forall k: nat | k < d :: Count(a, n, s, v, k) == 0.0
    else
      d == -1 && forall k: nat :: Count(a, n, s, v, k) == 0.0
  }

  ghost predicate AreDistances(a: Matrix, n: nat, s: nat, dist: seq<int>) {
    s < n && |dist| == n && forall v: nat | v < n :: IsDistance(a, n, s, v, dist[v])
  }

  /** u is an in-neighbour of w one step closer to the source. */
  predicate Precedes(a: Matrix, dist: seq<int>, u: nat, w: nat) {
    u < |dist| && w < |dist| && Edge(a, u, w) && dist[u] >= 0 && dist[w] == dist[u] + 1
  }

  /** The number of shortest paths from s to v, and how many of those to t visit v. */
  ghost function Sigma(a: Matrix, n: nat, s: nat, dist: seq<int>, v: nat): real {
    if v < |dist| && dist[v] >= 0 then Count(a, n, s, v, dist[v]) else 0.0
  }

  ghost function Through(a: Matrix, n: nat, s: nat, dist: seq<int>, v: nat, t: nat): real {
    if t < |dist| && dist[t] >= 0 then CountThrough(a, n, s, v, t, dist[t]) else 0.0
  }

  /** An edge lengthens the distance by at most one. */
  lemma EdgeBound(a: Matrix, n: nat, s: nat, dist: seq<int>, u: nat, w: nat)
    requires AreDistances(a, n, s, dist) && u < n && w < n && Edge(a, u, w) && dist[u] >= 0
    ensures 0 <= dist[w] <= dist[u] + 1
  {
    EdgeExtends(a, n, s, u, w, dist[u]);
    assert IsDistance(a, n, s, w, dist[w]);
  }

  /** Only the source is at distance zero. */
  lemma SourceAlone(a: Matrix, n: nat, s: nat, dist: seq<int>, v: nat)
    requires AreDistances(a, n, s, dist) && v < n
    ensures dist[v] == 0 <==> v == s
  {
    assert IsDistance(a, n, s, v, dist[v]);
    assert Count(a, n, s, s, 0) == 1.0;
  }

  lemma SigmaPositive(a: Matrix, n: nat, s: nat, dist: seq<int>, v: nat)
    requires AreDistances(a, n, s, dist) && v < n && dist[v] >= 0
    ensures Sigma(a, n, s, dist, v) >= 1.0
  {
    assert IsDistance(a, n, s, v, dist[v]);
    CountIsListLength(a, n, s, v, dist[v]);
  }

  /** The neighbours a shortest path to t can come from. */
  ghost function SigmaInflow(a: Matrix, n: nat, s: nat, dist: seq<int>, t: nat): nat -> real {
    (u: nat) => if Precedes(a, dist, u, t) then Sigma(a, n, s, dist, u) else 0.0
  }

  ghost function ThroughInflow(a: Matrix, n: nat, s: nat, dist: seq<int>, v: nat, t: nat): nat -> real {
    (u: nat) => if Precedes(a, dist, u, t) then Through(a, n, s, dist, v, u) else 0.0
  }

  /** A walk one shorter than the distance of t, to a neighbour of t, is itself a shortest path. */
  lemma NeighbourCounts(a: Matrix, n: nat, s: nat, dist: seq<int>, u: nat, t: nat)
    requires AreDistances(a, n, s, dist) && u < n && t < n && dist[t] >= 1 && Edge(a, u, t)
    ensures if Precedes(a, dist, u, t) then dist[u] == dist[t] - 1 else Count(a, n, s, u, dist[t] - 1) == 0.0
  {
    CountNonNegative(a, n, s, u, dist[t] - 1);
    assert IsDistance(a, n, s, u, dist[u]);
    if dist[u] >= 0 {
      EdgeBound(a, n, s, dist, u, t);
    }
  }

  lemma SigmaRecurrence(a: Matrix, n: nat, s: nat, dist: seq<int>, t: nat)
    requires AreDistances(a, n, s, dist) && t < n && dist[t] >= 1
    ensures Sigma(a, n, s, dist, t) == Sum(n, SigmaInflow(a, n, s, dist, t))
  {
    var k := dist[t] - 1;
    var f, g := Inflow(a, n, s, t, k), SigmaInflow(a, n, s, dist, t);
    forall u: nat | u < n ensures f(u) == g(u) {
      if Edge(a, u, t) {
        NeighbourCounts(a, n, s, dist, u, t);
      }
    }
    SumEqual(n, f, g);
  }

  lemma ThroughRecurrence(a: Matrix, n: nat, s: nat, dist: seq<int>, v: nat, t: nat)
    requires AreDistances(a, n, s, dist) && t < n && v != t && dist[t] >= 1
    ensures Through(a, n, s, dist, v, t) == Sum(n, ThroughInflow(a, n, s, dist, v, t))
  {
    var k := dist[t] - 1;
    var f, g := InflowThrough(a, n, s, v, t, k), ThroughInflow(a, n, s, dist, v, t);
    forall u: nat | u < n ensures f(u) == g(u) {
      if Edge(a, u, t) {
        NeighbourCounts(a, n, s, dist, u, t);
        ThroughBounds(a, n, s, v, u, k);
      }
    }
    SumEqual(n, f, g);
  }

  /** A shortest path does not visit another vertex that is as far as its end. */
  lemma {:induction false} NoDetour(a: Matrix, n: nat, s: nat, dist: seq<int>, v: nat, t: nat)
    requires AreDistances(a, n, s, dist) && v < n && t < n && v != t && dist[t] <= dist[v]
    ensures Through(a, n, s, dist, v, t) == 0.0
    decreases if dist[t] >= 0 then dist[t] else 0
  {
    if dist[t] >= 1 {
      ThroughRecurrence(a, n, s, dist, v, t);
      var f := ThroughInflow(a, n, s, dist, v, t);
      forall u: nat | u < n ensures f(u) == 0.0 {
        if Precedes(a, dist, u, t) {
          NoDetour(a, n, s, dist, v, u);
        }
      }
      SumZero(n, f);
    }
  }
}
