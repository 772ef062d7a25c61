/** Walks in a weighted graph: an enumeration of all walks of a given length, and how many there are. */
module Walks {
  import opened RealSums
  import opened Sequences

  type Matrix = seq<seq<real>>

  predicate Square(a: Matrix, n: nat) {
    |a| == n && forall i | 0 <= i < n :: |a[i]| == n
  }

  /** The graph has an edge from u to v where the weight is positive. */
  predicate Edge(a: Matrix, u: nat, v: nat) {
    u < |a| && v < |a[u]| && a[u][v] > 0.0
  }

  /** p is a walk of k edges from s to t through vertices below n. */
  predicate IsWalk(a: Matrix, n: nat, s: nat, t: nat, k: nat, p: seq<nat>) {
    && |p| == k + 1 && p[0] == s && p[k] == t
    && (forall i | 0 <= i <= k :: p[i] < n)
    && (forall i | 0 <= i < k :: Edge(a, p[i], p[i + 1]))
  }

  /** All walks of k edges from s to t, by their last step. */
  ghost function WalkList(a: Matrix, n: nat, s: nat, t: nat, k: nat): seq<seq<nat>>
    decreases k, n + 1
  {
    if k == 0 then (if s == t && s < n then [[s]] else [])
    else if t < n then Gather(a, n, s, t, k, n)
    else []
  }

  /** The walks whose last but one vertex is below m. */
  ghost function Gather(a: Matrix, n: nat, s: nat, t: nat, k: nat, m: nat): seq<seq<nat>>
    requires k > 0 && m <= n
    decreases k, m
  {
    if m == 0 then []
    else Gather(a, n, s, t, k, m - 1)
         + (if Edge(a, m - 1, t) then Extended(WalkList(a, n, s, m - 1, k - 1), t) else [])
  }

  ghost function Extended(ps: seq<seq<nat>>, t: nat): (r: seq<seq<nat>>)
    ensures |r| == |ps| && forall i | 0 <= i < |ps| :: r[i] == ps[i] + [t]
  {
    seq(|ps|, i requires 0 <= i < |ps| => ps[i] + [t])
  }

  /** The enumeration lists walks only. */
  lemma {:induction false} ListedIsWalk(a: Matrix, n: nat, s: nat, t: nat, k: nat, p: seq<nat>)
    requires p in WalkList(a, n, s, t, k)
    ensures IsWalk(a, n, s, t, k, p)
    decreases k, n + 1
  {
    if k > 0 {
      GatheredIsWalk(a, n, s, t, k, n, p);
    }
  }

  lemma {:induction false} GatheredIsWalk(a: Matrix, n: nat, s: nat, t: nat, k: nat, m: nat, p: seq<nat>)
    requires k > 0 && m <= n && t < n && p in Gather(a, n, s, t, k, m)
    ensures IsWalk(a, n, s, t, k, p) && p[k - 1] < m
    decreases k, m
  {
    if p in Gather(a, n, s, t, k, m - 1) {
      GatheredIsWalk(a, n, s, t, k, m - 1, p);
    } else {
      var shorter := WalkList(a, n, s, m - 1, k - 1);
      assert p in Extended(shorter, t);
      var i :| 0 <= i < |shorter| && p == shorter[i] + [t];
      ListedIsWalk(a, n, s, m - 1, k - 1, shorter[i]);
    }
  }

  /** The enumeration lists every walk. */
  lemma {:induction false} WalkIsListed(a: Matrix, n: nat, s: nat, t: nat, k: nat, p: seq<nat>)
    requires IsWalk(a, n, s, t, k, p)
    ensures p in WalkList(a, n, s, t, k)
    decreases k
  {
    if k == 0 {
      assert p == [s];
    } else {
      WalkIsListed(a, n, s, p[k - 1], k - 1, p[..k]);
      WalkIsGathered(a, n, s, t, k, n, p);
    }
  }

  lemma {:induction false} WalkIsGathered(a: Matrix, n: nat, s: nat, t: nat, k: nat, m: nat, p: seq<nat>)
    requires k > 0 && m <= n && |p| == k + 1 && p[k] == t && p[k - 1] < m
    requires Edge(a, p[k - 1], t) && p[..k] in WalkList(a, n, s, p[k - 1], k - 1)
    ensures p in Gather(a, n, s, t, k, m)
  {
    if p[k - 1] == m - 1 {
      var shorter := WalkList(a, n, s, m - 1, k - 1);
      var i :| 0 <= i < |shorter| && shorter[i] == p[..k];
      assert Extended(shorter, t)[i] == p[..k] + [t] == p;
    } else {
      WalkIsGathered(a, n, s, t, k, m - 1, p);
    }
  }

  /** The enumeration lists no walk twice. */
  lemma {:induction false} ListedOnce(a: Matrix, n: nat, s: nat, t: nat, k: nat)
    ensures NoDuplicates(WalkList(a, n, s, t, k))
    decreases k, n + 1
  {
    if k > 0 && t < n {
      GatheredOnce(a, n, s, t, k, n);
    }
  }

  lemma {:induction false} GatheredOnce(a: Matrix, n: nat, s: nat, t: nat, k: nat, m: nat)
    requires k > 0 && m <= n && t < n
    ensures NoDuplicates(Gather(a, n, s, t, k, m))
    decreases k, m
  {
    if m > 0 {
      GatheredOnce(a, n, s, t, k, m - 1);
      var before := Gather(a, n, s, t, k, m - 1);
      var shorter := WalkList(a, n, s, m - 1, k - 1);
      var added := Extended(shorter, t);
      ListedOnce(a, n, s, m - 1, k - 1);
      ExtendedOnce(shorter, t);
      forall i, j | 0 <= i < |before| && 0 <= j < |added| ensures before[i] != added[j] {
        GatheredIsWalk(a, n, s, t, k, m - 1, before[i]);
        ListedIsWalk(a, n, s, m - 1, k - 1, shorter[j]);
        assert added[j][k - 1] == m - 1;
      }
      assert Gather(a, n, s, t, k, m) == if Edge(a, m - 1, t) then before + added else before;
      hide Gather, WalkList, Extended;
      if Edge(a, m - 1, t) {
        BothOnce(before, added);
      }
    }
  }

  lemma ExtendedOnce(walks: seq<seq<nat>>, t: nat)
    requires NoDuplicates(walks)
    ensures NoDuplicates(Extended(walks, t))
  {
    var added := Extended(walks, t);
    forall i, j | 0 <= i < j < |added| ensures added[i] != added[j] {
      assert added[i][..|added[i]| - 1] == walks[i] && added[j][..|added[j]| - 1] == walks[j];
    }
  }

  /** The number of walks of k edges from s to t. */
  ghost function Count(a: Matrix, n: nat, s: nat, t: nat, k: nat): real
    decreases k, 0
  {
    if k == 0 then (if s == t && s < n then 1.0 else 0.0)
    else if t < n then Sum(n, Inflow(a, n, s, t, k - 1))
    else 0.0
  }

  /** What each in-neighbour of t contributes to the walks one edge longer. */
  ghost function Inflow(a: Matrix, n: nat, s: nat, t: nat, k: nat): nat -> real
    decreases k, 1
  {
    (u: nat) => if Edge(a, u, t) then Count(a, n, s, u, k) else 0.0
  }

  lemma {:induction false} CountNonNegative(a: Matrix, n: nat, s: nat, t: nat, k: nat)
    ensures Count(a, n, s, t, k) >= 0.0
    decreases k
  {
    if k > 0 && t < n {
      var f := Inflow(a, n, s, t, k - 1);
      forall u: nat | u < n ensures f(u) >= 0.0 {
        CountNonNegative(a, n, s, u, k - 1);
      }
      SumNonNegative(n, f);
    }
  }

  /** Count is the length of the enumeration. */
  lemma {:induction false} CountIsListLength(a: Matrix, n: nat, s: nat, t: nat, k: nat)
    ensures Count(a, n, s, t, k) == |WalkList(a, n, s, t, k)| as real
    decreases k, n + 1
  {
    if k > 0 && t < n {
      PartialCount(a, n, s, t, k, n);
    }
  }

  lemma {:induction false} PartialCount(a: Matrix, n: nat, s: nat, t: nat, k: nat, m: nat)
    requires k > 0 && m <= n
    ensures Sum(m, Inflow(a, n, s, t, k - 1)) == |Gather(a, n, s, t, k, m)| as real
    decreases k, m
  {
    if m > 0 {
      PartialCount(a, n, s, t, k, m - 1);
      CountIsListLength(a, n, s, m - 1, k - 1);
    }
  }

  /** An edge extends walks: reaching u in k steps reaches v in k + 1. */
  lemma EdgeExtends(a: Matrix, n: nat, s: nat, u: nat, v: nat, k: nat)
    requires Edge(a, u, v) && u < n && v < n && Count(a, n, s, u, k) > 0.0
    ensures Count(a, n, s, v, k + 1) > 0.0
  {
    forall x: nat | x < n ensures Inflow(a, n, s, v, k)(x) >= 0.0 {
      CountNonNegative(a, n, s, x, k);
    }
    TermAtMostSum(n, Inflow(a, n, s, v, k), u);
  }

  /** The last edge of some walk. */
  lemma LastEdge(a: Matrix, n: nat, s: nat, t: nat, k: nat) returns (u: nat)
    requires k > 0 && Count(a, n, s, t, k) > 0.0
    ensures u < n && t < n && Edge(a, u, t) && Count(a, n, s, u, k - 1) > 0.0
  {
    u := PositiveTerm(n, Inflow(a, n, s, t, k - 1));
  }

  // ---- walks through a given vertex -------------------------------------------------------------------

  /** How many of the sequences visit v. */
  ghost function Visiting(ps: seq<seq<nat>>, v: nat): nat {
    if ps == [] then 0 else Visiting(ps[..|ps| - 1], v) + (if v in ps[|ps| - 1] then 1 else 0)
  }

  /** The number of walks of k edges from s to t that visit v. */
  ghost function CountThrough(a: Matrix, n: nat, s: nat, v: nat, t: nat, k: nat): real
    decreases k, 0
  {
    if v == t then Count(a, n, s, t, k)
    else if k == 0 || t >= n then 0.0
    else Sum(n, InflowThrough(a, n, s, v, t, k - 1))
  }

  ghost function InflowThrough(a: Matrix, n: nat, s: nat, v: nat, t: nat, k: nat): nat -> real
    decreases k, 1
  {
    (u: nat) => if Edge(a, u, t) then CountThrough(a, n, s, v, u, k) else 0.0
  }

  lemma {:induction false} VisitingSplit(ps: seq<seq<nat>>, qs: seq<seq<nat>>, v: nat)
    ensures Visiting(ps + qs, v) == Visiting(ps, v) + Visiting(qs, v)
  {
    if qs == [] {
      assert ps + qs == ps;
    } else {
      var last := |qs| - 1;
      assert (ps + qs)[..|ps + qs| - 1] == ps + qs[..last];
      VisitingSplit(ps, qs[..last], v);
    }
  }

  lemma {:induction false} VisitingExtended(ps: seq<seq<nat>>, t: nat, v: nat)
    requires v != t
    ensures Visiting(Extended(ps, t), v) == Visiting(ps, v)
  {
    if ps != [] {
      var last := |ps| - 1;
      assert Extended(ps, t)[..last] == Extended(ps[..last], t);
      assert v in ps[last] + [t] <==> v in ps[last];
      VisitingExtended(ps[..last], t, v);
    }
  }

  lemma {:induction false} VisitingAtMost(ps: seq<seq<nat>>, v: nat)
    ensures Visiting(ps, v) <= |ps|
  {
    if ps != [] {
      VisitingAtMost(ps[..|ps| - 1], v);
    }
  }

  lemma {:induction false} VisitingAll(ps: seq<seq<nat>>, v: nat)
    requires forall i | 0 <= i < |ps| :: v in ps[i]
    ensures Visiting(ps, v) == |ps|
  {
    if ps != [] {
      VisitingAll(ps[..|ps| - 1], v);
    }
  }

  /** CountThrough counts the enumerated walks that visit v. */
  lemma {:induction false} CountThroughIsVisiting(a: Matrix, n: nat, s: nat, v: nat, t: nat, k: nat)
    ensures CountThrough(a, n, s, v, t, k) == Visiting(WalkList(a, n, s, t, k), v) as real
    decreases k, n + 1
  {
    var all := WalkList(a, n, s, t, k);
    if v == t {
      CountIsListLength(a, n, s, t, k);
      forall i | 0 <= i < |all| ensures v in all[i] {
        ListedIsWalk(a, n, s, t, k, all[i]);
      }
      VisitingAll(all, v);
    } else if k > 0 && t < n {
      PartialThrough(a, n, s, v, t, k, n);
    } else if k == 0 && s == t && s < n {
      assert all[..0] == [] && v !in all[0];
    }
  }

  lemma {:induction false} PartialThrough(a: Matrix, n: nat, s: nat, v: nat, t: nat, k: nat, m: nat)
    requires k > 0 && m <= n && v != t
    ensures Sum(m, InflowThrough(a, n, s, v, t, k - 1)) == Visiting(Gather(a, n, s, t, k, m), v) as real
    decreases k, m
  {
    if m > 0 {
      var f := InflowThrough(a, n, s, v, t, k - 1);
      assert f(m - 1) == if Edge(a, m - 1, t) then CountThrough(a, n, s, v, m - 1, k - 1) else 0.0;
      assert Sum(m, f) == Sum(m - 1, f) + f(m - 1);
      hide *;
      PartialThrough(a, n, s, v, t, k, m - 1);
      CountThroughIsVisiting(a, n, s, v, m - 1, k - 1);
      VisitingGather(a, n, s, v, t, k, m);
    }
  }

  lemma VisitingGather(a: Matrix, n: nat, s: nat, v: nat, t: nat, k: nat, m: nat)
    requires k > 0 && 0 < m <= n && v != t
    ensures Visiting(Gather(a, n, s, t, k, m), v) as real == Visiting(Gather(a, n, s, t, k, m - 1), v) as real
              + if Edge(a, m - 1, t) then Visiting(WalkList(a, n, s, m - 1, k - 1), v) as real else 0.0
  {
    var before, shorter := Gather(a, n, s, t, k, m - 1), WalkList(a, n, s, m - 1, k - 1);
    hide Visiting, WalkList;
    if Edge(a, m - 1, t) {
      VisitingSplit(before, Extended(shorter, t), v);
      VisitingExtended(shorter, t, v);
    } else {
      assert before + [] == before;
    }
  }

  lemma {:induction false} ThroughBounds(a: Matrix, n: nat, s: nat, v: nat, t: nat, k: nat)
    ensures 0.0 <= CountThrough(a, n, s, v, t, k) <= Count(a, n, s, t, k)
    decreases k
  {
    CountNonNegative(a, n, s, t, k);
    if v != t && k > 0 && t < n {
      var f, g := InflowThrough(a, n, s, v, t, k - 1), Inflow(a, n, s, t, k - 1);
      forall u: nat | u < n ensures 0.0 <= f(u) <= g(u) {
        ThroughBounds(a, n, s, v, u, k - 1);
      }
      SumNonNegative(n, f);
      SumAtMost(n, f, g);
    }
  }
}
