/** The adjacency matrix of a graph given as node and edge records: names, references, weights, and both matrices. */
module Adjacency {
  import opened Options
  import opened PairSums
  import opened RealSums
  import opened Walks
  import opened Laplacian

  /** An absent field is None; an empty text is passed over like an absent one. */
  datatype NodeRecord = NodeRecord(id: Option<string>, canonicalName: Option<string>, caption: Option<string>)

  datatype EdgeRecord = EdgeRecord(source: Option<string>, subject: Option<string>, subjectId: Option<string>,
                                   target: Option<string>, object_: Option<string>, objectId: Option<string>,
                                   confidence: Option<real>, weight: Option<real>, similarity: Option<real>)

  /** str(x or y or z): when all are empty the last one is taken, and an absent one reads "None". */
  function Chosen(x: Option<string>, y: Option<string>, z: Option<string>): string {
    if x.Some? && x.value != "" then x.value
    else if y.Some? && y.value != "" then y.value
    else if z.Some? then z.value
    else "None"
  }

  function IdOf(n: NodeRecord): string {
    Chosen(n.id, n.canonicalName, n.caption)
  }

  function CaptionOf(n: NodeRecord): string {
    Chosen(n.caption, n.canonicalName, n.id)
  }

  /** confidence or weight or similarity or 1: a zero is passed over like an absent weight. */
  function WeightOf(e: EdgeRecord): real {
    if e.confidence.Some? && e.confidence.value != 0.0 then e.confidence.value
    else if e.weight.Some? && e.weight.value != 0.0 then e.weight.value
    else if e.similarity.Some? && e.similarity.value != 0.0 then e.similarity.value
    else 1.0
  }

  /** The last node with a name, by id or by caption. */
  ghost predicate IsLast(nodes: seq<NodeRecord>, nameOf: NodeRecord -> string, name: string, i: nat) {
    && i < |nodes| && nameOf(nodes[i]) == name
    && forall k | i < k < |nodes| :: nameOf(nodes[k]) != name
  }

  ghost predicate IsNamed(nodes: seq<NodeRecord>, nameOf: NodeRecord -> string, name: string) {
    exists i | 0 <= i < |nodes| :: nameOf(nodes[i]) == name
  }

  /** What a reference resolves to: ids come before captions, and a later node before an earlier one of the same name. */
  ghost predicate Resolves(nodes: seq<NodeRecord>, name: string, i: nat) {
    || IsLast(nodes, IdOf, name, i)
    || (!IsNamed(nodes, IdOf, name) && IsLast(nodes, CaptionOf, name, i))
  }

  /** A reference resolves to at most one node, and to some node if any bears the name. */
  lemma ResolvesToOne(nodes: seq<NodeRecord>, name: string, i: nat, j: nat)
    requires Resolves(nodes, name, i) && Resolves(nodes, name, j)
    ensures i == j
  {
  }

  function SourceOf(e: EdgeRecord): string {
    Chosen(e.source, e.subject, e.subjectId)
  }

  function TargetOf(e: EdgeRecord): string {
    Chosen(e.target, e.object_, e.objectId)
  }

  /** The total weight of the listed edges from node i to node j. */
  ghost function ListedWeight(nodes: seq<NodeRecord>, edges: seq<EdgeRecord>, i: nat, j: nat): real {
    if edges == [] then 0.0
    else
      var e := edges[|edges| - 1];
      ListedWeight(nodes, edges[..|edges| - 1], i, j)
      + if Resolves(nodes, SourceOf(e), i) && Resolves(nodes, TargetOf(e), j) then WeightOf(e) else 0.0
  }

  /** Every name in use leads to the last node that bears it. */
  ghost predicate Indexes(index: map<string, nat>, nodes: seq<NodeRecord>, nameOf: NodeRecord -> string) {
    && (forall name :: name in index <==> IsNamed(nodes, nameOf, name))
    && forall name | name in index :: IsLast(nodes, nameOf, name, index[name])
  }

  /** {name: i for i, name in enumerate(names)} */
  method IndexNames(nodes: seq<NodeRecord>, nameOf: NodeRecord -> string) returns (index: map<string, nat>)
    ensures Indexes(index, nodes, nameOf)
  {
    index := map[];
    for k := 0 to |nodes|
      invariant Indexes(index, nodes[..k], nameOf)
    {
      NamesNext(nodes, nameOf, k);
      index := index[nameOf(nodes[k]) := k];
    }
    assert nodes[..|nodes|] == nodes;
  }

  lemma NameNext(nodes: seq<NodeRecord>, nameOf: NodeRecord -> string, k: nat, name: string)
    requires k < |nodes|
    ensures IsNamed(nodes[..k + 1], nameOf, name) <==> IsNamed(nodes[..k], nameOf, name) || name == nameOf(nodes[k])
  {
    var before, after := nodes[..k], nodes[..k + 1];
    if IsNamed(before, nameOf, name) {
      var i :| 0 <= i < k && nameOf(before[i]) == name;
      assert after[i] == before[i];
    }
    if IsNamed(after, nameOf, name) {
      var i :| 0 <= i < k + 1 && nameOf(after[i]) == name;
      assert i < k ==> before[i] == after[i];
    }
    assert after[k] == nodes[k];
  }

  lemma LastNext(nodes: seq<NodeRecord>, nameOf: NodeRecord -> string, k: nat, name: string, i: nat)
    requires k < |nodes| && name != nameOf(nodes[k]) && IsLast(nodes[..k], nameOf, name, i)
    ensures IsLast(nodes[..k + 1], nameOf, name, i)
  {
    var before, after := nodes[..k], nodes[..k + 1];
    assert after[k] == nodes[k] && forall j | 0 <= j < k :: after[j] == before[j];
  }

  lemma NamesNext(nodes: seq<NodeRecord>, nameOf: NodeRecord -> string, k: nat)
    requires k < |nodes|
    ensures forall name :: IsNamed(nodes[..k + 1], nameOf, name) <==> IsNamed(nodes[..k], nameOf, name) || name == nameOf(nodes[k])
    ensures IsLast(nodes[..k + 1], nameOf, nameOf(nodes[k]), k)
    ensures forall name, i | name != nameOf(nodes[k]) && IsLast(nodes[..k], nameOf, name, i) ::
              IsLast(nodes[..k + 1], nameOf, name, i)
  {
    forall name ensures IsNamed(nodes[..k + 1], nameOf, name) <==> IsNamed(nodes[..k], nameOf, name) || name == nameOf(nodes[k]) {
      NameNext(nodes, nameOf, k, name);
    }
    forall name, i: nat | name != nameOf(nodes[k]) && IsLast(nodes[..k], nameOf, name, i)
      ensures IsLast(nodes[..k + 1], nameOf, name, i)
    {
      LastNext(nodes, nameOf, k, name, i);
    }
    assert nodes[..k + 1][k] == nodes[k];
  }

  method ResolveIndex(nodes: seq<NodeRecord>, byId: map<string, nat>, byCaption: map<string, nat>, name: string)
    returns (i: Option<nat>)
    requires Indexes(byId, nodes, IdOf) && Indexes(byCaption, nodes, CaptionOf)
    ensures i.Some? ==> i.value < |nodes| && Resolves(nodes, name, i.value)
    ensures i.None? ==> forall k: nat :: !Resolves(nodes, name, k)
  {
    if name in byId {
      i := Some(byId[name]);
    } else if name in byCaption {
      i := Some(byCaption[name]);
    } else {
      i := None;
    }
  }

  /** Edges between resolved nodes add their weight to the adjacency; parallel edges accumulate, other edges are passed over. */
  method FillAdjacency(records: seq<NodeRecord>, maxNodes: nat, edges: seq<EdgeRecord>)
    returns (nodes: seq<NodeRecord>, adj: array2<real>)
    ensures nodes == if |records| <= maxNodes then records else records[..maxNodes]
    ensures fresh(adj) && adj.Length0 == adj.Length1 == |nodes|
    ensures forall i: nat, j: nat | i < |nodes| && j < |nodes| :: adj[i, j] == ListedWeight(nodes, edges, i, j)
  {
    hide Indexes, Resolves, IsNamed, IsLast, SourceOf, TargetOf, WeightOf;
    nodes := if |records| <= maxNodes then records else records[..maxNodes];
    var byId := IndexNames(nodes, IdOf);
    var byCaption := IndexNames(nodes, CaptionOf);
    adj := new real[|nodes|, |nodes|]((_, _) => 0.0);
    for k := 0 to |edges|
      invariant forall i: nat, j: nat | i < |nodes| && j < |nodes| :: adj[i, j] == ListedWeight(nodes, edges[..k], i, j)
    {
      var e := edges[k];
      var u := ResolveIndex(nodes, byId, byCaption, SourceOf(e));
      var v := ResolveIndex(nodes, byId, byCaption, TargetOf(e));
      WeightNext(nodes, edges, k, u, v);
      hide ListedWeight;
      if u.Some? && v.Some? {
        adj[u.value, v.value] := adj[u.value, v.value] + WeightOf(e);
      }
    }
    assert edges[..|edges|] == edges;
  }

  lemma WeightNext(nodes: seq<NodeRecord>, edges: seq<EdgeRecord>, k: nat, u: Option<nat>, v: Option<nat>)
    requires k < |edges|
    requires u.Some? ==> Resolves(nodes, SourceOf(edges[k]), u.value)
    requires u.None? ==> forall i: nat :: !Resolves(nodes, SourceOf(edges[k]), i)
    requires v.Some? ==> Resolves(nodes, TargetOf(edges[k]), v.value)
    requires v.None? ==> forall j: nat :: !Resolves(nodes, TargetOf(edges[k]), j)
    ensures forall i: nat, j: nat :: ListedWeight(nodes, edges[..k + 1], i, j)
              == ListedWeight(nodes, edges[..k], i, j) + if u == Some(i) && v == Some(j) then WeightOf(edges[k]) else 0.0
  {
    assert edges[..k + 1][..k] == edges[..k];
    OnlyPair(nodes, edges[k], u, v);
    hide Resolves, WeightOf, SourceOf, TargetOf;
  }

  /** An edge counts for the one pair its two references resolve to, if they do. */
  lemma OnlyPair(nodes: seq<NodeRecord>, e: EdgeRecord, u: Option<nat>, v: Option<nat>)
    requires u.Some? ==> Resolves(nodes, SourceOf(e), u.value)
    requires u.None? ==> forall k: nat :: !Resolves(nodes, SourceOf(e), k)
    requires v.Some? ==> Resolves(nodes, TargetOf(e), v.value)
    requires v.None? ==> forall k: nat :: !Resolves(nodes, TargetOf(e), k)
    ensures forall i: nat, j: nat ::
              Resolves(nodes, SourceOf(e), i) && Resolves(nodes, TargetOf(e), j) <==> u == Some(i) && v == Some(j)
  {
    forall i: nat, j: nat | Resolves(nodes, SourceOf(e), i) && Resolves(nodes, TargetOf(e), j)
      ensures u == Some(i) && v == Some(j)
    {
      ResolvesToOne(nodes, SourceOf(e), i, u.value);
      ResolvesToOne(nodes, TargetOf(e), j, v.value);
    }
  }

  /** np.maximum(adj, adj.T), with the directed matrix beside it. */
  method BothMatrices(adj: array2<real>, n: nat) returns (directed: Matrix, undirected: Matrix)
    requires adj.Length0 == adj.Length1 == n
    ensures Square(directed, n) && forall i: nat, j: nat | i < n && j < n :: directed[i][j] == adj[i, j]
    ensures undirected == SymMatrix(directed, n) && Symmetric(undirected)
    ensures forall i: nat, j: nat | i < n && j < n ::
              undirected[i][j] == if adj[i, j] >= adj[j, i] then adj[i, j] else adj[j, i]
  {
    directed := [];
    for i := 0 to n
      invariant |directed| == i
      invariant forall k | 0 <= k < i :: |directed[k]| == n && forall j | 0 <= j < n :: directed[k][j] == adj[k, j]
    {
      var row: seq<real> := [];
      for j := 0 to n
        invariant |row| == j && forall k | 0 <= k < j :: row[k] == adj[i, k]
      {
        row := row + [adj[i, j]];
      }
      directed := directed + [row];
    }
    undirected := SymMatrix(directed, n);
    SymIsSymmetric(directed, n);
  }

  // ---- what the records contribute -------------------------------------------------------------------------

  /** The k-th choice is the first that is given and not passed over. */
  ghost predicate IsChoice<T>(choices: seq<Option<T>>, empty: T, k: nat) {
    k < |choices| && choices[k].Some? && choices[k].value != empty
    && forall j | 0 <= j < k :: choices[j] == None || choices[j] == Some(empty)
  }

  /** A weight is the first of confidence, weight and similarity that is not zero, and otherwise one. */
  lemma WeightIsFirst(e: EdgeRecord)
    ensures exists k: nat ::
              var choices := [e.confidence, e.weight, e.similarity, Some(1.0)];
              IsChoice(choices, 0.0, k) && WeightOf(e) == choices[k].value
  {
    var choices := [e.confidence, e.weight, e.similarity, Some(1.0)];
    var k: nat := if e.confidence.Some? && e.confidence.value != 0.0 then 0
                  else if e.weight.Some? && e.weight.value != 0.0 then 1
                  else if e.similarity.Some? && e.similarity.value != 0.0 then 2 else 3;
    assert IsChoice(choices, 0.0, k);
  }

  /** The ends of an edge and the names of a node are the first of their fields that is not empty. */
  lemma NamesAreFirst(e: EdgeRecord, n: NodeRecord, k: nat)
    ensures var c := [e.source, e.subject, e.subjectId]; IsChoice(c, "", k) ==> SourceOf(e) == c[k].value
    ensures var c := [e.target, e.object_, e.objectId]; IsChoice(c, "", k) ==> TargetOf(e) == c[k].value
    ensures var c := [n.id, n.canonicalName, n.caption]; IsChoice(c, "", k) ==> IdOf(n) == c[k].value
    ensures var c := [n.caption, n.canonicalName, n.id]; IsChoice(c, "", k) ==> CaptionOf(n) == c[k].value
  {
    ChosenIsFirst(e.source, e.subject, e.subjectId, k);
    ChosenIsFirst(e.target, e.object_, e.objectId, k);
    ChosenIsFirst(n.id, n.canonicalName, n.caption, k);
    ChosenIsFirst(n.caption, n.canonicalName, n.id, k);
    hide IsChoice, Chosen;
  }

  lemma ChosenIsFirst(x: Option<string>, y: Option<string>, z: Option<string>, k: nat)
    ensures IsChoice([x, y, z], "", k) ==> Chosen(x, y, z) == [x, y, z][k].value
  {
    var c := [x, y, z];
    if IsChoice(c, "", k) {
      assert (k > 0 ==> c[0] == x) && (k > 1 ==> c[1] == y);
    }
  }

  /** Some node bears the name, as id or as caption. */
  ghost predicate Known(nodes: seq<NodeRecord>, name: string) {
    IsNamed(nodes, IdOf, name) || IsNamed(nodes, CaptionOf, name)
  }

  lemma {:induction false} LastExists(nodes: seq<NodeRecord>, nameOf: NodeRecord -> string, name: string) returns (i: nat)
    requires IsNamed(nodes, nameOf, name)
    ensures IsLast(nodes, nameOf, name, i)
  {
    var n := |nodes| - 1;
    if nameOf(nodes[n]) == name {
      i := n;
    } else {
      var k :| 0 <= k < |nodes| && nameOf(nodes[k]) == name;
      assert nodes[..n][k] == nodes[k];
      i := LastExists(nodes[..n], nameOf, name);
      assert forall j | 0 <= j < n :: nodes[..n][j] == nodes[j];
    }
  }

  /** A reference resolves exactly when some node bears the name. */
  lemma KnownResolves(nodes: seq<NodeRecord>, name: string) returns (i: Option<nat>)
    ensures i.Some? <==> Known(nodes, name)
    ensures i.Some? ==> i.value < |nodes| && Resolves(nodes, name, i.value)
    ensures i.None? ==> forall k: nat :: !Resolves(nodes, name, k)
  {
    if IsNamed(nodes, IdOf, name) {
      var k := LastExists(nodes, IdOf, name);
      i := Some(k);
    } else if IsNamed(nodes, CaptionOf, name) {
      var k := LastExists(nodes, CaptionOf, name);
      i := Some(k);
    } else {
      i := None;
    }
  }

  ghost function Entries(nodes: seq<NodeRecord>, edges: seq<EdgeRecord>): (nat, nat) -> real {
    (i: nat, j: nat) => ListedWeight(nodes, edges, i, j)
  }

  ghost function OneEdge(nodes: seq<NodeRecord>, e: EdgeRecord): (nat, nat) -> real {
    (i: nat, j: nat) => if Resolves(nodes, SourceOf(e), i) && Resolves(nodes, TargetOf(e), j) then WeightOf(e) else 0.0
  }

  /** The total weight of the edges both of whose ends are known. */
  ghost function KnownWeight(nodes: seq<NodeRecord>, edges: seq<EdgeRecord>): real {
    if edges == [] then 0.0
    else
      var e := edges[|edges| - 1];
      KnownWeight(nodes, edges[..|edges| - 1])
      + if Known(nodes, SourceOf(e)) && Known(nodes, TargetOf(e)) then WeightOf(e) else 0.0
  }

  lemma OneEdgeTotal(nodes: seq<NodeRecord>, e: EdgeRecord)
    ensures Total(OneEdge(nodes, e), |nodes|, |nodes|)
         == if Known(nodes, SourceOf(e)) && Known(nodes, TargetOf(e)) then WeightOf(e) else 0.0
  {
    hide Resolves, Known, SourceOf, TargetOf, WeightOf;
    var u := KnownResolves(nodes, SourceOf(e));
    var v := KnownResolves(nodes, TargetOf(e));
    OnlyPair(nodes, e, u, v);
    if u.Some? && v.Some? {
      TotalSingle(OneEdge(nodes, e), |nodes|, u.value, v.value);
    } else {
      TotalZero(OneEdge(nodes, e), |nodes|);
    }
  }

  /** The matrix holds the weight of every edge between known nodes exactly once. */
  lemma {:induction false} WeightIsConserved(nodes: seq<NodeRecord>, edges: seq<EdgeRecord>)
    ensures Total(Entries(nodes, edges), |nodes|, |nodes|) == KnownWeight(nodes, edges)
  {
    var n := |nodes|;
    if edges == [] {
      TotalZero(Entries(nodes, edges), n);
    } else {
      var before, e := edges[..|edges| - 1], edges[|edges| - 1];
      var f, g := Entries(nodes, before), OneEdge(nodes, e);
      forall i: nat, j: nat | i < n && j < n ensures Entries(nodes, edges)(i, j) == PairPlus(f, g)(i, j) {
        hide Resolves, WeightOf;
      }
      hide Entries, OneEdge, ListedWeight, Known;
      TotalEqual(Entries(nodes, edges), PairPlus(f, g), n, n);
      TotalPlus(f, g, n);
      OneEdgeTotal(nodes, e);
      WeightIsConserved(nodes, before);
    }
  }
}
