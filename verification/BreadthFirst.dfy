/** The breadth-first search from one source: distances, shortest-path counts and predecessor lists. */
module BreadthFirst {
  import opened RealSums
  import opened Sequences
  import opened Walks
  import opened Distances

  /** A snapshot of the search; `order` is the stack followed by the queue. */
  datatype Search = Search(dist: seq<int>, sigma: seq<real>, pred: seq<seq<nat>>, order: seq<nat>)

  /** One look at the pair (v, w): w may be discovered, and v may become a predecessor of w. */
  function Discover(st: Search, v: nat, w: nat): Search
    requires v < |st.dist| && w < |st.dist|
  {
    if st.dist[w] < 0 then st.(dist := st.dist[w := st.dist[v] + 1], order := st.order + [w]) else st
  }

  function Credit(st: Search, v: nat, w: nat): Search
    requires v < |st.dist| && w < |st.dist| && |st.sigma| == |st.pred| == |st.dist|
  {
    if st.dist[w] == st.dist[v] + 1 then
      st.(sigma := st.sigma[w := st.sigma[w] + st.sigma[v]], pred := st.pred[w := st.pred[w] + [v]])
    else st
  }

  function Look(a: Matrix, st: Search, v: nat, w: nat): Search
    requires v < |st.dist| && w < |st.dist| && |st.sigma| == |st.pred| == |st.dist|
  {
    if Edge(a, v, w) then Credit(Discover(st, v, w), v, w) else st
  }

  ghost function Credits(st: Search, w: nat): nat -> real
    requires w < |st.pred|
  {
    (u: nat) => if u in st.pred[w] && u < |st.sigma| then st.sigma[u] else 0.0
  }

  function Level(dist: seq<int>, x: nat): int {
    if x < |dist| then dist[x] else -1
  }

  ghost predicate NonDecreasing(dist: seq<int>, order: seq<nat>) {
    forall i, j | 0 <= i < j < |order| :: Level(dist, order[i]) <= Level(dist, order[j])
  }

  /** The discovered vertices, each once, in non-decreasing distance from the source. */
  ghost predicate Ordered(n: nat, s: nat, st: Search) {
    && |st.dist| == |st.sigma| == |st.pred| == n
    && NoDuplicates(st.order)
    && st.order != [] && st.order[0] == s
    && (forall x | x in st.order :: x < n)
    && (forall x: nat | x < n :: st.dist[x] >= -1 && (st.dist[x] >= 0 <==> x in st.order))
    && (forall x: nat | x < n :: st.dist[x] == 0 <==> x == s)
    && NonDecreasing(st.dist, st.order)
  }

  /** (u, x) has been looked at: u is on the stack, and x is below wi when u is the current vertex v. */
  predicate Seen(stack: seq<nat>, v: nat, wi: nat, u: nat, x: nat) {
    u in stack && (u == v ==> x < wi)
  }

  lemma SeenGrows(stack: seq<nat>, v: nat, w: nat, next: nat)
    requires v in stack && next == w + 1
    ensures forall u: nat, x: nat :: Seen(stack, v, next, u, x) <==> Seen(stack, v, w, u, x) || (u == v && x == w)
  {
  }

  /** What the edges looked at so far have established. */
  ghost predicate Explored(a: Matrix, n: nat, s: nat, st: Search, stack: seq<nat>, v: nat, wi: nat) {
    && Ordered(n, s, st)
    && stack <= st.order
    && (forall u: nat, x: nat | x < n && Seen(stack, v, wi, u, x) && Edge(a, u, x) ::
          0 <= st.dist[x] <= Level(st.dist, u) + 1)
    && (forall u: nat, x: nat | x < n :: u in st.pred[x] <==>
          Seen(stack, v, wi, u, x) && Precedes(a, st.dist, u, x))
    && (forall x: nat | x < n :: NoDuplicates(st.pred[x]))
    && (forall x: nat | x < n && st.dist[x] > 0 :: st.pred[x] != [])
    && (forall x: nat | x < n :: st.sigma[x] == (if x == s then 1.0 else 0.0) + Sum(n, Credits(st, x)))
  }

  /** v is the vertex being scanned: the last on the stack, no discovered vertex is further than one step on. */
  ghost predicate Scanning(n: nat, st: Search, stack: seq<nat>, v: nat) {
    && stack != [] && stack[|stack| - 1] == v
    && v < n == |st.dist| && (forall x | x in st.order :: x < n)
    && (forall x | x in st.order :: Level(st.dist, x) <= st.dist[v] + 1)
    && (forall x | x in stack :: x < n && Level(st.dist, x) <= st.dist[v])
  }

  /** Discovering w, the first time an edge reaches it. */
  lemma DiscoverKeepsOrder(n: nat, s: nat, st: Search, stack: seq<nat>, v: nat, w: nat)
    requires Ordered(n, s, st) && Scanning(n, st, stack, v) && stack <= st.order && w < n && st.dist[w] < 0
    ensures var d := Discover(st, v, w);
            Ordered(n, s, d) && Scanning(n, d, stack, v) && stack <= d.order && d.dist[w] == st.dist[v] + 1 >= 1
  {
    hide NonDecreasing, NoDuplicates;
    assert v in stack && v in st.order && w !in st.order;
    var d := Discover(st, v, w);
    AppendOnce(st.order, w);
    AppendLast(n, st, stack, v, w);
    assert forall x | x in d.order :: x in st.order || x == w;
    assert w in d.order && forall x | x in st.order :: x in d.order by {
      assert d.order[|st.order|] == w;
      assert forall i | 0 <= i < |st.order| :: d.order[i] == st.order[i];
    }
  }

  lemma AppendLast(n: nat, st: Search, stack: seq<nat>, v: nat, w: nat)
    requires Scanning(n, st, stack, v) && w < n && w !in st.order && v in st.order && NonDecreasing(st.dist, st.order)
    requires |st.sigma| == |st.pred| == n && st.dist[w] < 0
    ensures NonDecreasing(Discover(st, v, w).dist, Discover(st, v, w).order)
  {
    var d := Discover(st, v, w);
    forall i, j | 0 <= i < j < |d.order| ensures Level(d.dist, d.order[i]) <= Level(d.dist, d.order[j]) {
      assert d.order[i] == st.order[i] && st.order[i] in st.order;
      if j < |st.order| {
        assert d.order[j] == st.order[j] && st.order[j] in st.order;
      }
    }
  }

  /** One look keeps everything established and settles the pair (v, w). */
  lemma LookKeeps(a: Matrix, n: nat, s: nat, st: Search, stack: seq<nat>, v: nat, w: nat)
    requires Explored(a, n, s, st, stack, v, w) && Scanning(n, st, stack, v) && w < n
    ensures |st.sigma| == |st.pred| == |st.dist|
    ensures Explored(a, n, s, Look(a, st, v, w), stack, v, w + 1) && Scanning(n, Look(a, st, v, w), stack, v)
  {
    assert v in stack;
    SeenGrows(stack, v, w, w + 1);
    if Edge(a, v, w) {
      if st.dist[w] < 0 {
        DiscoverKeepsOrder(n, s, st, stack, v, w);
        DiscoverKeepsRest(a, n, s, st, stack, v, w);
      }
      CreditKeeps(a, n, s, Discover(st, v, w), stack, v, w);
    }
  }

  /** Explored, but for the edge (v, w) whose target has just been discovered or is known already. */
  ghost predicate Pending(a: Matrix, n: nat, s: nat, st: Search, stack: seq<nat>, v: nat, w: nat)
    requires w < n
  {
    && Ordered(n, s, st)
    && stack <= st.order
    && Edge(a, v, w) && st.dist[w] >= 0
    && (forall u: nat, x: nat | x < n && Seen(stack, v, w, u, x) && Edge(a, u, x) ::
          0 <= st.dist[x] <= Level(st.dist, u) + 1)
    && (forall u: nat, x: nat | x < n :: u in st.pred[x] <==>
          Seen(stack, v, w, u, x) && Precedes(a, st.dist, u, x))
    && (forall x: nat | x < n :: NoDuplicates(st.pred[x]))
    && (forall x: nat | x < n && st.dist[x] > 0 && x != w :: st.pred[x] != [])
    && (st.pred[w] == [] && st.dist[w] > 0 ==> st.dist[w] == Level(st.dist, v) + 1)
    && (forall x: nat | x < n :: st.sigma[x] == (if x == s then 1.0 else 0.0) + Sum(n, Credits(st, x)))
  }

  lemma DiscoverKeepsRest(a: Matrix, n: nat, s: nat, st: Search, stack: seq<nat>, v: nat, w: nat)
    requires Explored(a, n, s, st, stack, v, w) && Scanning(n, st, stack, v) && w < n && Edge(a, v, w)
    requires Ordered(n, s, Discover(st, v, w)) && stack <= Discover(st, v, w).order
    ensures Pending(a, n, s, Discover(st, v, w), stack, v, w)
  {
    var d := Discover(st, v, w);
    if st.dist[w] < 0 {
      assert w !in st.order && w !in stack && v in stack;
      forall u: nat, x: nat | x < n
        ensures u in d.pred[x] <==> Seen(stack, v, w, u, x) && Precedes(a, d.dist, u, x)
      {
        if Seen(stack, v, w, u, x) {
          assert u != w && u in st.order;
        }
      }
      forall x: nat | x < n ensures d.sigma[x] == (if x == s then 1.0 else 0.0) + Sum(n, Credits(d, x)) {
        SumEqual(n, Credits(st, x), Credits(d, x));
      }
    }
  }

  lemma CreditKeeps(a: Matrix, n: nat, s: nat, st: Search, stack: seq<nat>, v: nat, w: nat)
    requires w < n && Pending(a, n, s, st, stack, v, w) && Scanning(n, st, stack, v)
    ensures Explored(a, n, s, Credit(st, v, w), stack, v, w + 1) && Scanning(n, Credit(st, v, w), stack, v)
  {
    assert v in stack && v in st.order && w in st.order;
    SeenGrows(stack, v, w, w + 1);
    hide NonDecreasing, NoDuplicates, Level;
    if st.dist[w] == st.dist[v] + 1 {
      CreditKeepsPredecessors(a, n, s, st, stack, v, w);
      CreditKeepsSigma(a, n, s, st, stack, v, w);
      hide Credits, Precedes, Seen;
    }
  }

  lemma CreditKeepsPredecessors(a: Matrix, n: nat, s: nat, st: Search, stack: seq<nat>, v: nat, w: nat)
    requires w < n && Pending(a, n, s, st, stack, v, w) && Scanning(n, st, stack, v)
    requires v in stack && st.dist[w] == st.dist[v] + 1
    ensures v !in st.pred[w]
    ensures var c := Credit(st, v, w);
            && (forall u: nat, x: nat | x < n :: u in c.pred[x] <==> Seen(stack, v, w + 1, u, x) && Precedes(a, st.dist, u, x))
            && (forall x: nat | x < n :: NoDuplicates(c.pred[x]) && (c.dist[x] > 0 ==> c.pred[x] != []))
  {
    var c := Credit(st, v, w);
    assert !Seen(stack, v, w, v, w);
    AppendOnce(st.pred[w], v);
    SeenGrows(stack, v, w, w + 1);
    hide NonDecreasing, NoDuplicates;
    assert forall u :: u in c.pred[w] <==> u in st.pred[w] || u == v;
  }

  lemma CreditKeepsSigma(a: Matrix, n: nat, s: nat, st: Search, stack: seq<nat>, v: nat, w: nat)
    requires w < n && Pending(a, n, s, st, stack, v, w) && Scanning(n, st, stack, v)
    requires st.dist[w] == st.dist[v] + 1 && v !in st.pred[w]
    ensures var c := Credit(st, v, w);
            forall x: nat | x < n :: c.sigma[x] == (if x == s then 1.0 else 0.0) + Sum(n, Credits(c, x))
  {
    var c := Credit(st, v, w);
    assert w !in stack;
    forall x: nat | x < n ensures c.sigma[x] == (if x == s then 1.0 else 0.0) + Sum(n, Credits(c, x)) {
      assert w !in st.pred[x];
      if x == w {
        SumChange(n, Credits(st, x), Credits(c, x), v);
      } else {
        SumEqual(n, Credits(st, x), Credits(c, x));
      }
    }
  }

  /** Moving the head of the queue onto the stack: its edges are the next to be looked at. */
  lemma PopScans(a: Matrix, n: nat, s: nat, st: Search, stack: seq<nat>, queue: seq<nat>, v0: nat)
    requires Explored(a, n, s, st, stack, v0, n) && queue != [] && st.order == stack + queue
    requires forall y | y in st.order :: Level(st.dist, y) <= Level(st.dist, queue[0]) + 1
    ensures stack + [queue[0]] <= st.order && queue[0] !in stack
    ensures Scanning(n, st, stack + [queue[0]], queue[0])
  {
    var popped := stack + [queue[0]];
    assert st.order == popped + queue[1..];
    assert st.order[|stack|] == queue[0] && queue[0] in st.order;
    forall x | x in stack ensures x < n && x != queue[0] && Level(st.dist, x) <= Level(st.dist, queue[0]) {
      var i :| 0 <= i < |stack| && stack[i] == x;
      assert st.order[i] == x && x in st.order;
    }
  }

  lemma PopKeeps(a: Matrix, n: nat, s: nat, st: Search, stack: seq<nat>, v0: nat, v: nat)
    requires Explored(a, n, s, st, stack, v0, n) && v !in stack && stack + [v] <= st.order
    ensures Explored(a, n, s, st, stack + [v], v, 0)
  {
    var popped := stack + [v];
    assert forall u :: u in popped <==> u in stack || u == v;
    assert forall u: nat, x: nat | x < n :: Seen(popped, v, 0, u, x) <==> Seen(stack, v0, n, u, x);
  }

  /** Whole-graph result of the search: every edge out of a discovered vertex has been looked at. */
  ghost predicate Complete(a: Matrix, n: nat, s: nat, st: Search) {
    exists v0 :: Explored(a, n, s, st, st.order, v0, n)
  }

  /** Before the first vertex is taken from the queue. */
  function Start(n: nat, s: nat): Search
    requires s < n
  {
    Search(seq(n, _ => -1)[s := 0], seq(n, _ => 0.0)[s := 1.0], seq(n, _ => []), [s])
  }

  lemma StartExplored(a: Matrix, n: nat, s: nat)
    requires s < n
    ensures Explored(a, n, s, Start(n, s), [], s, n)
    ensures forall y | y in Start(n, s).order :: Level(Start(n, s).dist, y) <= Level(Start(n, s).dist, s) + 1
  {
    var st := Start(n, s);
    forall x: nat | x < n ensures Sum(n, Credits(st, x)) == 0.0 {
      SumZero(n, Credits(st, x));
    }
  }

  /** The inner loop: look at every vertex w from v, the vertex just put on the stack. */
  method Scan(a: Matrix, n: nat, s: nat, v: nat, dist: array<int>, sigma: array<real>, pred: array<seq<nat>>,
              stack: seq<nat>, queue: seq<nat>, ghost st: Search)
    returns (longer: seq<nat>, ghost done: Search)
    requires Square(a, n) && st == Search(dist[..], sigma[..], pred[..], stack + queue)
    requires Explored(a, n, s, st, stack, v, 0) && Scanning(n, st, stack, v)
    modifies dist, sigma, pred
    ensures done == Search(dist[..], sigma[..], pred[..], stack + longer)
    ensures Explored(a, n, s, done, stack, v, n) && Scanning(n, done, stack, v)
  {
    hide Explored, Ordered;
    longer := queue;
    done := st;
    var w := 0;
    while w < n
      invariant w <= n
      invariant done == Search(dist[..], sigma[..], pred[..], stack + longer)
      invariant Explored(a, n, s, done, stack, v, w) && Scanning(n, done, stack, v)
    {
      LookKeeps(a, n, s, done, stack, v, w);
      done := Look(a, done, v, w);
      if a[v][w] > 0.0 {
        if dist[w] < 0 {
          dist[w] := dist[v] + 1;
          longer := longer + [w];
          assert stack + longer == stack + longer[..|longer| - 1] + [w];
        }
        if dist[w] == dist[v] + 1 {
          sigma[w] := sigma[w] + sigma[v];
          pred[w] := pred[w] + [v];
        }
      }
      w := w + 1;
    }
  }

  /**
   * The search of `_compute_path_metrics`: a queue and a stack, with the distance, path-count and
   * predecessor arrays updated in place.
   */
  method Bfs(a: Matrix, n: nat, s: nat)
    returns (dist: array<int>, sigma: array<real>, pred: array<seq<nat>>, stack: seq<nat>)
    requires Square(a, n) && s < n
    ensures fresh(dist) && fresh(sigma) && fresh(pred)
    ensures Complete(a, n, s, Search(dist[..], sigma[..], pred[..], stack))
  {
    hide Explored, Ordered;
    dist := new int[n](_ => -1);
    sigma := new real[n](_ => 0.0);
    pred := new seq<nat>[n](_ => []);
    dist[s] := 0;
    sigma[s] := 1.0;
    var queue: seq<nat> := [s];
    stack := [];
    ghost var v0: nat := s;
    ghost var st := Start(n, s);
    StartExplored(a, n, s);
    assert stack + queue == [s];
    while queue != []
      invariant st == Search(dist[..], sigma[..], pred[..], stack + queue)
      invariant fresh(dist) && fresh(sigma) && fresh(pred)
      invariant Explored(a, n, s, st, stack, v0, n)
      invariant queue != [] ==> forall y | y in st.order :: Level(st.dist, y) <= Level(st.dist, queue[0]) + 1
      decreases n - |stack|
    {
      var v := queue[0];
      PopScans(a, n, s, st, stack, queue, v0);
      PopKeeps(a, n, s, st, stack, v0, v);
      queue := queue[1..];
      stack := stack + [v];
      assert st.order == stack + queue;
      queue, st := Scan(a, n, s, v, dist, sigma, pred, stack, queue, st);
      v0 := v;
      AdvanceLevel(a, n, s, st, stack, queue, v);
      DistinctBelow(stack, n);
    }
    assert stack + queue == stack;
  }

  /** The next vertex to scan is at least as far as the one just scanned. */
  lemma AdvanceLevel(a: Matrix, n: nat, s: nat, st: Search, stack: seq<nat>, queue: seq<nat>, v: nat)
    requires Explored(a, n, s, st, stack, v, n) && st.order == stack + queue && Scanning(n, st, stack, v)
    ensures queue != [] ==> forall y | y in st.order :: Level(st.dist, y) <= Level(st.dist, queue[0]) + 1
    ensures NoDuplicates(stack) && forall x | x in stack :: x < n
  {
    assert forall i | 0 <= i < |stack| :: st.order[i] == stack[i];
    if queue != [] {
      assert st.order[|stack| - 1] == v && st.order[|stack|] == queue[0];
      assert v in stack && v in st.order;
    }
  }

  // ---- what a complete search has computed ------------------------------------------------------------

  /** No walk leaves the explored part, and none is shorter than the recorded distance. */
  lemma {:induction false} WalksExplored(a: Matrix, n: nat, s: nat, st: Search, x: nat, k: nat)
    requires Complete(a, n, s, st) && x < n && Count(a, n, s, x, k) > 0.0
    ensures 0 <= st.dist[x] <= k
    decreases k
  {
    if k > 0 {
      var u := LastEdge(a, n, s, x, k);
      WalksExplored(a, n, s, st, u, k - 1);
      assert forall v0 :: Seen(st.order, v0, n, u, x);
    }
  }

  /** The recorded distance is the length of some walk. */
  lemma {:induction false} DistanceAttained(a: Matrix, n: nat, s: nat, st: Search, x: nat)
    requires Complete(a, n, s, st) && s < n && x < n && st.dist[x] >= 0
    ensures Count(a, n, s, x, st.dist[x]) > 0.0
    decreases st.dist[x]
  {
    if st.dist[x] > 0 {
      var u := st.pred[x][0];
      assert u in st.pred[x] && Precedes(a, st.dist, u, x);
      DistanceAttained(a, n, s, st, u);
      EdgeExtends(a, n, s, u, x, st.dist[u]);
    }
  }

  lemma DistancesExact(a: Matrix, n: nat, s: nat, st: Search)
    requires Complete(a, n, s, st) && s < n
    ensures AreDistances(a, n, s, st.dist)
  {
    forall x: nat | x < n ensures IsDistance(a, n, s, x, st.dist[x]) {
      forall k: nat | st.dist[x] < 0 || k < st.dist[x] ensures Count(a, n, s, x, k) == 0.0 {
        CountNonNegative(a, n, s, x, k);
        if Count(a, n, s, x, k) > 0.0 {
          WalksExplored(a, n, s, st, x, k);
        }
      }
      if st.dist[x] >= 0 {
        DistanceAttained(a, n, s, st, x);
      }
    }
  }

  /** The predecessor lists hold exactly the neighbours one step closer. */
  lemma PredecessorsExact(a: Matrix, n: nat, s: nat, st: Search, u: nat, x: nat)
    requires Complete(a, n, s, st) && x < n
    ensures u in st.pred[x] <==> Precedes(a, st.dist, u, x)
  {
    assert u < n && st.dist[u] >= 0 ==> forall v0 :: Seen(st.order, v0, n, u, x);
  }

  lemma {:induction false} SigmaExact(a: Matrix, n: nat, s: nat, st: Search, x: nat)
    requires Complete(a, n, s, st) && s < n && AreDistances(a, n, s, st.dist) && x < n
    ensures st.sigma[x] == Sigma(a, n, s, st.dist, x)
    decreases st.dist[x] + 1
  {
    var f, g := Credits(st, x), SigmaInflow(a, n, s, st.dist, x);
    forall u: nat | u < n ensures f(u) == g(u) {
      PredecessorsExact(a, n, s, st, u, x);
      if Precedes(a, st.dist, u, x) {
        SigmaExact(a, n, s, st, u);
      }
    }
    SumEqual(n, f, g);
    if st.dist[x] >= 1 {
      SigmaRecurrence(a, n, s, st.dist, x);
    } else {
      SumZero(n, g);
    }
  }

  /** Some walk leads from s to x. */
  ghost predicate Reached(a: Matrix, n: nat, s: nat, x: nat) {
    x < n && exists k: nat :: Count(a, n, s, x, k) > 0.0
  }

  /**
   * The search is exact: least walk lengths (-1 exactly for the unreachable), the number of shortest
   * walks, the neighbours one step closer, and a stack of the reachable vertices by distance.
   */
  lemma BfsExact(a: Matrix, n: nat, s: nat, st: Search)
    requires Complete(a, n, s, st) && s < n
    ensures AreDistances(a, n, s, st.dist)
    ensures forall x: nat | x < n && st.dist[x] >= 0 ::
              st.sigma[x] == |WalkList(a, n, s, x, st.dist[x])| as real
    ensures forall x: nat, u: nat | x < n :: u in st.pred[x] <==> Precedes(a, st.dist, u, x)
    ensures forall x: nat | x < n :: NoDuplicates(st.pred[x])
    ensures NoDuplicates(st.order) && NonDecreasing(st.dist, st.order)
    ensures forall x: nat :: x in st.order <==> Reached(a, n, s, x)
  {
    DistancesExact(a, n, s, st);
    forall x: nat | x < n && st.dist[x] >= 0
      ensures st.sigma[x] == |WalkList(a, n, s, x, st.dist[x])| as real
    {
      SigmaExact(a, n, s, st, x);
      CountIsListLength(a, n, s, x, st.dist[x]);
    }
    forall x: nat, u: nat | x < n ensures u in st.pred[x] <==> Precedes(a, st.dist, u, x) {
      PredecessorsExact(a, n, s, st, u, x);
    }
    forall x: nat ensures x in st.order <==> Reached(a, n, s, x) {
      if x < n {
        assert IsDistance(a, n, s, x, st.dist[x]);
        if st.dist[x] >= 0 {
          var k: nat := st.dist[x];
          assert Count(a, n, s, x, k) > 0.0;
        }
      }
    }
  }
}
