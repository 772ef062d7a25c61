/** The plain Merkle construction: sorted sibling pairs, an odd last node carried up unchanged. */
module Merkle {
  import opened Options
  import opened Bytes

  /** The string hashed for a pair of siblings: the smaller one first. */
  function NodePreimage(left: Bytes, right: Bytes): Bytes {
    if LexLeq(left, right) then left + right else right + left
  }

  function Parent(h: Hash, left: Bytes, right: Bytes): Digest {
    h(NodePreimage(left, right))
  }

  /** Swapping the two siblings does not change the parent. */
  lemma ParentSymmetric(h: Hash, left: Bytes, right: Bytes)
    ensures NodePreimage(left, right) == NodePreimage(right, left)
    ensures Parent(h, left, right) == Parent(h, right, left)
  {
    if LexLeq(left, right) && LexLeq(right, left) {
      LexAntisymmetric(left, right);
    } else {
      LexTotal(left, right);
    }
  }

  /** Siblings are hashed in the order of their first difference. */
  lemma ParentOfOrdered(h: Hash, first: Bytes, second: Bytes)
    requires first == second || FirstDifference(first, second)
    ensures Parent(h, first, second) == Parent(h, second, first) == h(first + second)
  {
    LexLeqIff(first, second);
    ParentSymmetric(h, first, second);
  }

  /** One round of pairing. */
  function NextLevel(h: Hash, level: seq<Bytes>): (next: seq<Bytes>)
    ensures |next| == (|level| + 1) / 2
    ensures forall i | 0 <= i < |next| ::
              next[i] == if 2 * i + 1 < |level| then Parent(h, level[2 * i], level[2 * i + 1]) else level[2 * i]
  {
    if |level| < 2 then level
    else [Parent(h, level[0], level[1])] + NextLevel(h, level[2..])
  }

  /** The single node left after all rounds. */
  function Top(h: Hash, level: seq<Bytes>): Bytes
    requires level != []
    decreases |level|
  {
    if |level| == 1 then level[0] else Top(h, NextLevel(h, level))
  }

  function RootOf(h: Hash, leaves: seq<Bytes>): Option<Bytes> {
    if leaves == [] then None else Some(Top(h, leaves))
  }

  method MerkleRoot(h: Hash, leaves: seq<Bytes>) returns (root: Option<Bytes>)
    ensures root == RootOf(h, leaves)
  {
    var level := leaves;
    if level == [] {
      return None;
    }
    while |level| > 1
      invariant level != [] && Top(h, level) == Top(h, leaves)
      decreases |level|
    {
      level := NextLevel(h, level);
    }
    root := Some(level[0]);
  }

  function SiblingOf(position: nat): nat {
    if position % 2 == 1 then position - 1 else position + 1
  }

  /** The siblings met on the way up from a position; none at a round where the node is carried. */
  function Path(h: Hash, level: seq<Bytes>, position: nat): (siblings: seq<Bytes>)
    requires position < |level|
    decreases |level|
  {
    if |level| == 1 then []
    else
      var sibling := SiblingOf(position);
      (if sibling < |level| then [level[sibling]] else []) + Path(h, NextLevel(h, level), position / 2)
  }

  datatype Proof = Proof(leaf: Bytes, index: nat, siblings: seq<Bytes>, root: Bytes)

  lemma OneRoundUp(h: Hash, level: seq<Bytes>, position: nat)
    requires position < |level| && |level| > 1
    ensures position / 2 < |NextLevel(h, level)| < |level| && Top(h, NextLevel(h, level)) == Top(h, level)
    ensures var met := if SiblingOf(position) < |level| then [level[SiblingOf(position)]] else [];
            Path(h, level, position) == met + Path(h, NextLevel(h, level), position / 2)
  {
  }

  lemma Regroup(a: seq<Bytes>, b: seq<Bytes>, c: seq<Bytes>)
    ensures a + (b + c) == (a + b) + c
  {
  }

  lemma SingleNode(h: Hash, level: seq<Bytes>)
    requires |level| == 1
    ensures Path(h, level, 0) == [] && Top(h, level) == level[0]
  {
  }

  /** An index out of range is refused. */
  method MerkleProof(h: Hash, leaves: seq<Bytes>, index: int) returns (proof: Option<Proof>)
    ensures proof.None? <==> !(0 <= index < |leaves|)
    ensures proof.Some? ==> proof.value == Proof(leaves[index], index, Path(h, leaves, index), Top(h, leaves))
  {
    if !(0 <= index < |leaves|) {
      return None;
    }
    hide NextLevel, Path, Top, Parent, NodePreimage;
    var level, position: nat := leaves, index;
    var siblings: seq<Bytes> := [];
    assert siblings + Path(h, level, position) == Path(h, leaves, index);
    while |level| > 1
      invariant position < |level|
      invariant siblings + Path(h, level, position) == Path(h, leaves, index)
      invariant Top(h, level) == Top(h, leaves)
      decreases |level|
    {
      OneRoundUp(h, level, position);
      var sibling := SiblingOf(position);
      var met: seq<Bytes> := if sibling < |level| then [level[sibling]] else [];
      Regroup(siblings, met, Path(h, NextLevel(h, level), position / 2));
      siblings := siblings + met;
      level := NextLevel(h, level);
      position := position / 2;
    }
    SingleNode(h, level);
    assert siblings + [] == siblings;
    proof := Some(Proof(leaves[index], index, siblings, level[0]));
  }

  /** Hash upwards through the listed siblings. */
  function Fold(h: Hash, current: Bytes, siblings: seq<Bytes>): Bytes
    decreases |siblings|
  {
    if siblings == [] then current else Fold(h, Parent(h, current, siblings[0]), siblings[1..])
  }

  predicate Accepts(h: Hash, proof: Proof) {
    Fold(h, proof.leaf, proof.siblings) == proof.root
  }

  method VerifyMerkleProof(h: Hash, proof: Proof) returns (ok: bool)
    ensures ok == Accepts(h, proof)
  {
    var current := proof.leaf;
    var i := 0;
    while i < |proof.siblings|
      invariant i <= |proof.siblings|
      invariant Fold(h, current, proof.siblings[i..]) == Fold(h, proof.leaf, proof.siblings)
    {
      current := Parent(h, current, proof.siblings[i]);
      i := i + 1;
    }
    ok := current == proof.root;
  }

  lemma FoldCons(h: Hash, current: Bytes, sibling: Bytes, rest: seq<Bytes>)
    ensures Fold(h, current, [sibling] + rest) == Fold(h, Parent(h, current, sibling), rest)
    ensures FoldPreimages(h, current, [sibling] + rest)
              == {NodePreimage(current, sibling)} + FoldPreimages(h, Parent(h, current, sibling), rest)
  {
    assert ([sibling] + rest)[1..] == rest;
  }

  lemma PairIsHashed(level: seq<Bytes>, i: nat)
    requires 2 * i + 1 < |level|
    ensures NodePreimage(level[2 * i], level[2 * i + 1]) in LevelPreimages(level)
  {
  }

  lemma NextNode(h: Hash, level: seq<Bytes>, i: nat)
    requires 2 * i < |level|
    ensures i < |NextLevel(h, level)|
    ensures NextLevel(h, level)[i] == if 2 * i + 1 < |level| then Parent(h, level[2 * i], level[2 * i + 1]) else level[2 * i]
  {
    hide Parent;
  }

  /** Node i of the next level is where `position` meets its sibling, if it has one. */
  ghost predicate Meets(h: Hash, level: seq<Bytes>, position: nat, sibling: nat, i: nat) {
    && position < |level| && i < |NextLevel(h, level)|
    && if sibling < |level|
       then NextLevel(h, level)[i] == Parent(h, level[position], level[sibling])
            && NodePreimage(level[position], level[sibling]) in LevelPreimages(level)
       else NextLevel(h, level)[i] == level[position]
  }

  lemma PairMeets(h: Hash, level: seq<Bytes>, i: nat)
    requires 2 * i < |level|
    ensures Meets(h, level, 2 * i, 2 * i + 1, i)
    ensures 2 * i + 1 < |level| ==> Meets(h, level, 2 * i + 1, 2 * i, i)
  {
    hide NodePreimage, NextLevel, Parent, LevelPreimages;
    NextNode(h, level, i);
    if 2 * i + 1 < |level| {
      PairIsHashed(level, i);
      ParentSymmetric(h, level[2 * i], level[2 * i + 1]);
    }
  }

  /** A position and its sibling, when it has one, meet in the same parent. */
  lemma ParentOfPosition(h: Hash, level: seq<Bytes>, position: nat)
    requires position < |level|
    ensures Meets(h, level, position, SiblingOf(position), position / 2)
  {
    hide Meets;
    var i := position / 2;
    assert position == 2 * i || position == 2 * i + 1;
    PairMeets(h, level, i);
  }

  /** Folding the path of any position gives the top, through every carried node. */
  lemma {:induction false} PathReachesTop(h: Hash, level: seq<Bytes>, position: nat)
    requires position < |level|
    ensures Fold(h, level[position], Path(h, level, position)) == Top(h, level)
    decreases |level|
  {
    if |level| > 1 {
      var next, sibling := NextLevel(h, level), SiblingOf(position);
      ParentOfPosition(h, level, position);
      PathReachesTop(h, next, position / 2);
      var rest := Path(h, next, position / 2);
      if sibling < |level| {
        FoldCons(h, level[position], level[sibling], rest);
      } else {
        assert [] + rest == rest;
      }
    }
  }

  /** Every proof that is produced is accepted, and carries the root of the leaves. */
  lemma ProofComplete(h: Hash, leaves: seq<Bytes>, index: nat)
    requires index < |leaves|
    ensures RootOf(h, leaves) == Some(Top(h, leaves))
    ensures Accepts(h, Proof(leaves[index], index, Path(h, leaves, index), Top(h, leaves)))
  {
    PathReachesTop(h, leaves, index);
  }

  // ---- what is hashed ---------------------------------------------------------------------------------

  /** The strings hashed in one round, and in all rounds. */
  ghost function LevelPreimages(level: seq<Bytes>): set<Bytes> {
    set i | 0 <= i < |level| && 2 * i + 1 < |level| :: NodePreimage(level[2 * i], level[2 * i + 1])
  }

  ghost function TreePreimages(h: Hash, level: seq<Bytes>): set<Bytes>
    decreases |level|
  {
    if |level| <= 1 then {} else LevelPreimages(level) + TreePreimages(h, NextLevel(h, level))
  }

  ghost function FoldPreimages(h: Hash, current: Bytes, siblings: seq<Bytes>): set<Bytes>
    decreases |siblings|
  {
    if siblings == [] then {}
    else {NodePreimage(current, siblings[0])} + FoldPreimages(h, Parent(h, current, siblings[0]), siblings[1..])
  }

  ghost predicate AllDigests(level: seq<Bytes>) {
    forall x | x in level :: |x| == 32
  }

  lemma NextAllDigests(h: Hash, level: seq<Bytes>)
    requires AllDigests(level)
    ensures AllDigests(NextLevel(h, level))
  {
    var next := NextLevel(h, level);
    forall i | 0 <= i < |next| ensures |next[i]| == 32 {
      assert level[2 * i] in level;
    }
  }

  lemma {:induction false} PathDigests(h: Hash, level: seq<Bytes>, position: nat)
    requires position < |level| && AllDigests(level)
    ensures AllDigests(Path(h, level, position))
    decreases |level|
  {
    if |level| > 1 {
      NextAllDigests(h, level);
      PathDigests(h, NextLevel(h, level), position / 2);
    }
  }

  /** Checking a produced proof hashes only strings that were hashed to build the tree. */
  lemma {:induction false} PathPreimages(h: Hash, level: seq<Bytes>, position: nat)
    requires position < |level|
    ensures FoldPreimages(h, level[position], Path(h, level, position)) <= TreePreimages(h, level)
    decreases |level|
  {
    if |level| > 1 {
      var next, sibling := NextLevel(h, level), SiblingOf(position);
      ParentOfPosition(h, level, position);
      PathPreimages(h, next, position / 2);
      var rest := Path(h, next, position / 2);
      if sibling < |level| {
        FoldCons(h, level[position], level[sibling], rest);
      } else {
        assert [] + rest == rest;
      }
    }
  }

  // ---- descending an accepted path --------------------------------------------------------------------

  lemma {:induction false} FoldLast(h: Hash, current: Bytes, siblings: seq<Bytes>)
    requires siblings != []
    ensures var k := |siblings| - 1; var v := Fold(h, current, siblings[..k]);
            Fold(h, current, siblings) == Parent(h, v, siblings[k])
            && NodePreimage(v, siblings[k]) in FoldPreimages(h, current, siblings)
            && FoldPreimages(h, current, siblings[..k]) <= FoldPreimages(h, current, siblings)
    decreases |siblings|
  {
    var k := |siblings| - 1;
    if k > 0 {
      FoldLast(h, Parent(h, current, siblings[0]), siblings[1..]);
      assert siblings[..k][1..] == siblings[1..][..k - 1];
    }
  }

  lemma {:induction false} FoldDigest(h: Hash, current: Bytes, siblings: seq<Bytes>)
    requires |current| == 32
    ensures |Fold(h, current, siblings)| == 32
    decreases |siblings|
  {
    if siblings != [] {
      FoldDigest(h, Parent(h, current, siblings[0]), siblings[1..]);
    }
  }

  /** Two pairs with one preimage, three of the four known to be digests. */
  lemma SamePair(v: Bytes, s: Bytes, left: Bytes, right: Bytes)
    requires |v| == |left| == |right| == 32 && NodePreimage(v, s) == NodePreimage(left, right)
    ensures (v == left && s == right) || (v == right && s == left)
  {
    assert |NodePreimage(v, s)| == 32 + |s| && |NodePreimage(left, right)| == 64;
    var a, b := if LexLeq(v, s) then v else s, if LexLeq(v, s) then s else v;
    var c, d := if LexLeq(left, right) then left else right, if LexLeq(left, right) then right else left;
    SplitEqual(a, b, c, d);
  }

  /** From a position of the next level, reached after c siblings, down to a position of this one. */
  lemma DescendPair(h: Hash, left: Bytes, right: Bytes, start: Bytes, siblings: seq<Bytes>, c: nat, strings: set<Bytes>)
    returns (onLeft: bool)
    requires |left| == |right| == 32 && |start| != 64 && c <= |siblings|
    requires Fold(h, h(start), siblings[..c]) == Parent(h, left, right)
    requires CollisionFree(h, strings) && start in strings && NodePreimage(left, right) in strings
    requires FoldPreimages(h, h(start), siblings) <= strings
    ensures c > 0
    ensures Fold(h, h(start), siblings[..c - 1]) == (if onLeft then left else right)
    ensures siblings[c - 1] == (if onLeft then right else left)
  {
    assert |NodePreimage(left, right)| == 64;
    assert c > 0;
    var cut := c - 1;
    FoldPrefix(h, h(start), siblings, c);
    FoldLast(h, h(start), siblings[..c]);
    assert siblings[..c][..cut] == siblings[..cut];
    var v, s := Fold(h, h(start), siblings[..cut]), siblings[cut];
    FoldDigest(h, h(start), siblings[..cut]);
    SamePair(v, s, left, right);
    onLeft := v == left && s == right;
  }

  lemma DescendStep(h: Hash, level: seq<Bytes>, start: Bytes, siblings: seq<Bytes>, c: nat, p: nat, strings: set<Bytes>)
    returns (cut: nat, position: nat)
    requires |level| > 1 && AllDigests(level) && |start| != 64
    requires CollisionFree(h, strings) && start in strings
    requires LevelPreimages(level) <= strings && FoldPreimages(h, h(start), siblings) <= strings
    requires c <= |siblings| && p < |NextLevel(h, level)|
    requires Fold(h, h(start), siblings[..c]) == NextLevel(h, level)[p]
    requires siblings[c..] == Path(h, NextLevel(h, level), p)
    ensures cut <= |siblings| && position < |level|
    ensures Fold(h, h(start), siblings[..cut]) == level[position]
    ensures siblings[cut..] == Path(h, level, position)
  {
    hide *;
    PathsOfPair(h, level, p);
    if 2 * p + 1 < |level| {
      AreDigests(level, 2 * p);
      AreDigests(level, 2 * p + 1);
      PairInLevel(level, p);
      var onLeft := DescendPair(h, level[2 * p], level[2 * p + 1], start, siblings, c, strings);
      cut, position := c - 1, if onLeft then 2 * p else 2 * p + 1;
      assert siblings[cut..] == [siblings[cut]] + siblings[c..];
    } else {
      cut, position := c, 2 * p;
    }
  }

  lemma AreDigests(level: seq<Bytes>, i: nat)
    requires AllDigests(level) && i < |level|
    ensures |level[i]| == 32
  {
  }

  lemma PairInLevel(level: seq<Bytes>, p: nat)
    requires 2 * p + 1 < |level|
    ensures NodePreimage(level[2 * p], level[2 * p + 1]) in LevelPreimages(level)
  {
  }

  /** Where node p of the next level comes from, and how the paths of its children continue. */
  lemma PathsOfPair(h: Hash, level: seq<Bytes>, p: nat)
    requires |level| > 1 && p < |NextLevel(h, level)|
    ensures 2 * p < |level|
    ensures 2 * p + 1 < |level| ==>
              NextLevel(h, level)[p] == Parent(h, level[2 * p], level[2 * p + 1])
              && Path(h, level, 2 * p) == [level[2 * p + 1]] + Path(h, NextLevel(h, level), p)
              && Path(h, level, 2 * p + 1) == [level[2 * p]] + Path(h, NextLevel(h, level), p)
    ensures 2 * p + 1 >= |level| ==>
              NextLevel(h, level)[p] == level[2 * p] && Path(h, level, 2 * p) == Path(h, NextLevel(h, level), p)
  {
    var rest := Path(h, NextLevel(h, level), p);
    assert (2 * p) / 2 == p && (2 * p + 1) / 2 == p;
    assert SiblingOf(2 * p) == 2 * p + 1 && SiblingOf(2 * p + 1) == 2 * p;
    assert [] + rest == rest;
  }

  /**
   * A fold that starts at the hash of a string that is no 64-byte pair and ends at the top of a tree
   * passes through some position of the bottom level and follows that position's path from there.
   */
  lemma {:induction false} Descend(h: Hash, level: seq<Bytes>, start: Bytes, siblings: seq<Bytes>, strings: set<Bytes>)
    returns (cut: nat, position: nat)
    requires level != [] && AllDigests(level) && |start| != 64
    requires Fold(h, h(start), siblings) == Top(h, level)
    requires CollisionFree(h, strings) && start in strings
    requires TreePreimages(h, level) <= strings && FoldPreimages(h, h(start), siblings) <= strings
    ensures cut <= |siblings| && position < |level|
    ensures Fold(h, h(start), siblings[..cut]) == level[position]
    ensures siblings[cut..] == Path(h, level, position)
    decreases |level|
  {
    hide Fold, FoldPreimages, NodePreimage, LexLeq, CollisionFree, LevelPreimages;
    if |level| == 1 {
      cut, position := |siblings|, 0;
      assert siblings[..cut] == siblings;
    } else {
      NextAllDigests(h, level);
      cut, position := Descend(h, NextLevel(h, level), start, siblings, strings);
      cut, position := DescendStep(h, level, start, siblings, cut, position, strings);
    }
  }

  lemma {:induction false} FoldPrefix(h: Hash, current: Bytes, siblings: seq<Bytes>, c: nat)
    requires c <= |siblings|
    ensures FoldPreimages(h, current, siblings[..c]) <= FoldPreimages(h, current, siblings)
    decreases |siblings|
  {
    if c > 0 {
      FoldPrefix(h, Parent(h, current, siblings[0]), siblings[1..], c - 1);
      assert siblings[..c][1..] == siblings[1..][..c - 1];
    }
  }
}
