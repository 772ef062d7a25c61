/** What a plain Merkle root commits to: the pairing tree of its leaves, up to exchanging the children of inner nodes. */
module MerkleTrees {
  import opened Options
  import opened Bytes
  import opened Merkle

  datatype Tree = Leaf(value: Bytes) | Node(left: Tree, right: Tree)

  function HashOf(h: Hash, t: Tree): Bytes {
    match t
    case Leaf(value) => value
    case Node(left, right) => Parent(h, HashOf(h, left), HashOf(h, right))
  }

  /** The same tree, up to exchanging the two children of any inner nodes. */
  predicate Alike(s: Tree, t: Tree) {
    match (s, t)
    case (Leaf(x), Leaf(y)) => x == y
    case (Node(a, b), Node(c, d)) => (Alike(a, c) && Alike(b, d)) || (Alike(a, d) && Alike(b, c))
    case _ => false
  }

  // ---- the pairing tree of a list ---------------------------------------------------------------------

  /** One round of pairing, on trees. */
  function NextTrees(level: seq<Tree>): (next: seq<Tree>)
    ensures |next| == (|level| + 1) / 2
    ensures forall i | 0 <= i < |next| ::
              next[i] == if 2 * i + 1 < |level| then Node(level[2 * i], level[2 * i + 1]) else level[2 * i]
  {
    if |level| < 2 then level else [Node(level[0], level[1])] + NextTrees(level[2..])
  }

  function TopTree(level: seq<Tree>): Tree
    requires level != []
    decreases |level|
  {
    if |level| == 1 then level[0] else TopTree(NextTrees(level))
  }

  function LeafTrees(leaves: seq<Bytes>): (level: seq<Tree>)
    ensures |level| == |leaves| && forall i | 0 <= i < |leaves| :: level[i] == Leaf(leaves[i])
  {
    seq(|leaves|, i requires 0 <= i < |leaves| => Leaf(leaves[i]))
  }

  function TreeOf(leaves: seq<Bytes>): Tree
    requires leaves != []
  {
    TopTree(LeafTrees(leaves))
  }

  /** As many leaves, in a pairing tree that differs at most in the order of children. */
  predicate Rearranged(xs: seq<Bytes>, ys: seq<Bytes>) {
    |xs| == |ys| && (xs != [] ==> Alike(TreeOf(xs), TreeOf(ys)))
  }

  function HashesOf(h: Hash, level: seq<Tree>): (hashes: seq<Bytes>)
    ensures |hashes| == |level| && forall i | 0 <= i < |level| :: hashes[i] == HashOf(h, level[i])
  {
    seq<Bytes>(|level|, i requires 0 <= i < |level| => HashOf(h, level[i]))
  }

  lemma NextHashes(h: Hash, level: seq<Tree>)
    ensures HashesOf(h, NextTrees(level)) == NextLevel(h, HashesOf(h, level))
  {
    hide Parent, NextTrees, NextLevel;
    var trees, hashes := NextTrees(level), NextLevel(h, HashesOf(h, level));
    forall i | 0 <= i < |hashes| ensures HashOf(h, trees[i]) == hashes[i] {
      assert 2 * i < |level|;
    }
  }

  lemma {:induction false} TopHash(h: Hash, level: seq<Tree>)
    requires level != []
    ensures HashOf(h, TopTree(level)) == Top(h, HashesOf(h, level))
    decreases |level|
  {
    if |level| > 1 {
      hide HashOf, NextTrees, NextLevel;
      NextHashes(h, level);
      TopHash(h, NextTrees(level));
    }
  }

  /** The pairing tree hashes to the Merkle root. */
  lemma TreeHashIsRoot(h: Hash, leaves: seq<Bytes>)
    requires leaves != []
    ensures RootOf(h, leaves) == Some(HashOf(h, TreeOf(leaves)))
  {
    TopHash(h, LeafTrees(leaves));
    assert HashesOf(h, LeafTrees(leaves)) == leaves;
  }

  // ---- rearranging keeps the root -----------------------------------------------------------------------

  lemma {:induction false} AlikeHash(h: Hash, s: Tree, t: Tree)
    requires Alike(s, t)
    ensures HashOf(h, s) == HashOf(h, t)
  {
    match (s, t)
    case (Leaf(_), Leaf(_)) =>
    case (Node(a, b), Node(c, d)) =>
      if Alike(a, c) && Alike(b, d) {
        AlikeHash(h, a, c);
        AlikeHash(h, b, d);
      } else {
        AlikeHash(h, a, d);
        AlikeHash(h, b, c);
        ParentSymmetric(h, HashOf(h, a), HashOf(h, b));
      }
  }

  /** Under every hash function, a rearranged list has the same plain root. */
  lemma RearrangedKeepsRoot(h: Hash, xs: seq<Bytes>, ys: seq<Bytes>)
    requires Rearranged(xs, ys)
    ensures RootOf(h, xs) == RootOf(h, ys)
  {
    if xs != [] {
      TreeHashIsRoot(h, xs);
      TreeHashIsRoot(h, ys);
      AlikeHash(h, TreeOf(xs), TreeOf(ys));
    }
  }

  lemma {:induction false} AlikeReflexive(t: Tree)
    ensures Alike(t, t)
  {
    if t.Node? {
      AlikeReflexive(t.left);
      AlikeReflexive(t.right);
    }
  }

  lemma {:induction false} AlikeLevels(s: seq<Tree>, t: seq<Tree>)
    requires |s| == |t| > 0 && forall i | 0 <= i < |s| :: Alike(s[i], t[i])
    ensures Alike(TopTree(s), TopTree(t))
    decreases |s|
  {
    if |s| > 1 {
      AlikeLevels(NextTrees(s), NextTrees(t));
    }
  }

  /** Exchanging the two nodes of one pair, at any round of pairing, gives a tree that is alike. */
  lemma PairSwapIsAlike(s: seq<Tree>, t: seq<Tree>, p: nat)
    requires 2 * p + 1 < |s| && t == s[2 * p := s[2 * p + 1]][2 * p + 1 := s[2 * p]]
    ensures Alike(TopTree(s), TopTree(t))
  {
    var u, v := NextTrees(s), NextTrees(t);
    forall i | 0 <= i < |u| ensures Alike(u[i], v[i]) {
      AlikeReflexive(s[2 * i]);
      if 2 * i + 1 < |s| {
        AlikeReflexive(s[2 * i + 1]);
      }
    }
    AlikeLevels(u, v);
  }

  /** Swapping the leaves of one pair keeps the plain root. */
  lemma PairSwapKeepsRoot(h: Hash, leaves: seq<Bytes>, swapped: seq<Bytes>, p: nat)
    requires |swapped| == |leaves| && 2 * p + 1 < |leaves|
    requires swapped[2 * p] == leaves[2 * p + 1] && swapped[2 * p + 1] == leaves[2 * p]
    requires forall i | 0 <= i < |leaves| && i != 2 * p && i != 2 * p + 1 :: swapped[i] == leaves[i]
    ensures Rearranged(leaves, swapped) && RootOf(h, swapped) == RootOf(h, leaves)
  {
    PairSwapIsAlike(LeafTrees(leaves), LeafTrees(swapped), p);
    RearrangedKeepsRoot(h, leaves, swapped);
  }

  // ---- and only rearranging does -------------------------------------------------------------------------

  /** The strings hashed to build a tree. */
  ghost function Hashed(h: Hash, t: Tree): set<Bytes> {
    match t
    case Leaf(_) => {}
    case Node(left, right) => {NodePreimage(HashOf(h, left), HashOf(h, right))} + Hashed(h, left) + Hashed(h, right)
  }

  /** Every leaf is a digest, but of none of the given strings. */
  ghost predicate FreshLeaves(h: Hash, t: Tree, strings: set<Bytes>) {
    match t
    case Leaf(value) => |value| == 32 && forall x | x in strings :: h(x) != value
    case Node(left, right) => FreshLeaves(h, left, strings) && FreshLeaves(h, right, strings)
  }

  lemma FreshHash(h: Hash, t: Tree, strings: set<Bytes>)
    requires FreshLeaves(h, t, strings)
    ensures |HashOf(h, t)| == 32
  {
  }

  lemma LeafIsNoNode(h: Hash, s: Tree, t: Tree, strings: set<Bytes>)
    requires s.Leaf? && t.Node? && FreshLeaves(h, s, strings) && Hashed(h, t) <= strings
    ensures HashOf(h, s) != HashOf(h, t)
  {
    assert NodePreimage(HashOf(h, t.left), HashOf(h, t.right)) in Hashed(h, t);
  }

  /** Without a collision, the hash of a tree determines it up to the order of children. */
  lemma {:induction false} HashDetermines(h: Hash, s: Tree, t: Tree, strings: set<Bytes>)
    requires CollisionFree(h, strings) && Hashed(h, s) + Hashed(h, t) <= strings
    requires FreshLeaves(h, s, strings) && FreshLeaves(h, t, strings)
    requires HashOf(h, s) == HashOf(h, t)
    ensures Alike(s, t)
  {
    match (s, t)
    case (Leaf(_), Leaf(_)) =>
    case (Leaf(x), Node(c, d)) =>
      LeafIsNoNode(h, s, t, strings);
    case (Node(a, b), Leaf(y)) =>
      LeafIsNoNode(h, t, s, strings);
    case (Node(a, b), Node(c, d)) =>
      var v, w, x, y := HashOf(h, a), HashOf(h, b), HashOf(h, c), HashOf(h, d);
      assert NodePreimage(v, w) in strings && NodePreimage(x, y) in strings;
      hide NodePreimage;
      FreshHash(h, a, strings);
      FreshHash(h, c, strings);
      FreshHash(h, d, strings);
      SamePair(v, w, x, y);
      if v == x && w == y {
        HashDetermines(h, a, c, strings);
        HashDetermines(h, b, d, strings);
      } else {
        HashDetermines(h, a, d, strings);
        HashDetermines(h, b, c, strings);
      }
  }

  /** What is known of every tree of a level. */
  ghost predicate FreshLevel(h: Hash, level: seq<Tree>, strings: set<Bytes>) {
    forall i | 0 <= i < |level| :: FreshLeaves(h, level[i], strings) && Hashed(h, level[i]) <= strings
  }

  lemma FreshNext(h: Hash, level: seq<Tree>, strings: set<Bytes>)
    requires FreshLevel(h, level, strings) && LevelPreimages(HashesOf(h, level)) <= strings
    ensures FreshLevel(h, NextTrees(level), strings)
  {
    hide NodePreimage, NextTrees;
    var next := NextTrees(level);
    forall i | 0 <= i < |next| ensures FreshLeaves(h, next[i], strings) && Hashed(h, next[i]) <= strings {
      if 2 * i + 1 < |level| {
        PairInLevel(HashesOf(h, level), i);
      }
    }
  }

  lemma {:induction false} FreshTop(h: Hash, level: seq<Tree>, strings: set<Bytes>)
    requires level != [] && FreshLevel(h, level, strings) && TreePreimages(h, HashesOf(h, level)) <= strings
    ensures FreshLeaves(h, TopTree(level), strings) && Hashed(h, TopTree(level)) <= strings
    decreases |level|
  {
    if |level| > 1 {
      hide NextTrees, FreshLevel;
      NextHashes(h, level);
      FreshNext(h, level, strings);
      FreshTop(h, NextTrees(level), strings);
    }
  }

  /** Digests, but of none of the given strings. */
  ghost predicate FreshList(h: Hash, leaves: seq<Bytes>, strings: set<Bytes>) {
    AllDigests(leaves) && forall x, y | x in leaves && y in strings :: h(y) != x
  }

  lemma FreshLeafTrees(h: Hash, leaves: seq<Bytes>, strings: set<Bytes>)
    requires FreshList(h, leaves, strings)
    ensures FreshLevel(h, LeafTrees(leaves), strings)
  {
    var level := LeafTrees(leaves);
    forall i | 0 <= i < |level| ensures FreshLeaves(h, level[i], strings) && Hashed(h, level[i]) <= strings {
      assert leaves[i] in leaves;
    }
  }

  lemma FreshTree(h: Hash, leaves: seq<Bytes>, strings: set<Bytes>)
    requires leaves != [] && FreshList(h, leaves, strings) && TreePreimages(h, leaves) <= strings
    ensures FreshLeaves(h, TreeOf(leaves), strings) && Hashed(h, TreeOf(leaves)) <= strings
  {
    assert HashesOf(h, LeafTrees(leaves)) == leaves;
    FreshLeafTrees(h, leaves, strings);
    hide FreshList, FreshLevel, FreshLeaves, Hashed, TreePreimages, TopTree;
    FreshTop(h, LeafTrees(leaves), strings);
  }

  function LeafCount(t: Tree): nat {
    match t
    case Leaf(_) => 1
    case Node(left, right) => LeafCount(left) + LeafCount(right)
  }

  lemma {:induction false} AlikeCount(s: Tree, t: Tree)
    requires Alike(s, t)
    ensures LeafCount(s) == LeafCount(t)
  {
    match (s, t)
    case (Leaf(_), Leaf(_)) =>
    case (Node(a, b), Node(c, d)) =>
      if Alike(a, c) && Alike(b, d) {
        AlikeCount(a, c);
        AlikeCount(b, d);
      } else {
        AlikeCount(a, d);
        AlikeCount(b, c);
      }
  }

  function LevelCount(level: seq<Tree>): nat {
    if level == [] then 0 else LeafCount(level[0]) + LevelCount(level[1..])
  }

  lemma {:induction false} NextCount(level: seq<Tree>)
    ensures LevelCount(NextTrees(level)) == LevelCount(level)
  {
    if |level| >= 2 {
      NextCount(level[2..]);
      assert level[1..][1..] == level[2..];
    }
  }

  lemma {:induction false} TopCount(level: seq<Tree>)
    requires level != []
    ensures LeafCount(TopTree(level)) == LevelCount(level)
    decreases |level|
  {
    if |level| > 1 {
      NextCount(level);
      TopCount(NextTrees(level));
    } else {
      assert level[1..] == [];
    }
  }

  lemma {:induction false} LeavesCount(level: seq<Tree>)
    requires forall i | 0 <= i < |level| :: level[i].Leaf?
    ensures LevelCount(level) == |level|
  {
    if level != [] {
      LeavesCount(level[1..]);
    }
  }

  lemma TreeCount(leaves: seq<Bytes>)
    requires leaves != []
    ensures LeafCount(TreeOf(leaves)) == |leaves|
  {
    TopCount(LeafTrees(leaves));
    LeavesCount(LeafTrees(leaves));
  }

  ghost function BothPreimages(h: Hash, xs: seq<Bytes>, ys: seq<Bytes>): set<Bytes> {
    TreePreimages(h, xs) + TreePreimages(h, ys)
  }

  lemma RootForcesTree(h: Hash, xs: seq<Bytes>, ys: seq<Bytes>)
    requires xs != [] && RootOf(h, xs) == RootOf(h, ys)
    requires var strings := BothPreimages(h, xs, ys);
             CollisionFree(h, strings) && FreshList(h, xs, strings) && FreshList(h, ys, strings)
    ensures Rearranged(xs, ys)
  {
    hide Alike, TreeOf, FreshList, TreePreimages, Top, CollisionFree, HashOf, Hashed, FreshLeaves;
    var strings := BothPreimages(h, xs, ys);
    TreeHashIsRoot(h, xs);
    TreeHashIsRoot(h, ys);
    FreshTree(h, xs, strings);
    FreshTree(h, ys, strings);
    HashDetermines(h, TreeOf(xs), TreeOf(ys), strings);
    AlikeCount(TreeOf(xs), TreeOf(ys));
    TreeCount(xs);
    TreeCount(ys);
  }

  /**
   * What a plain root commits to, exactly: of lists of digests, none of them the hash of a string hashed to build
   * either tree, and without a collision among those strings, two have the same root if and only if one is a
   * rearrangement of the other.
   */
  lemma SameRootIffRearranged(h: Hash, xs: seq<Bytes>, ys: seq<Bytes>)
    requires var strings := BothPreimages(h, xs, ys);
             CollisionFree(h, strings) && FreshList(h, xs, strings) && FreshList(h, ys, strings)
    ensures RootOf(h, xs) == RootOf(h, ys) <==> Rearranged(xs, ys)
  {
    hide Rearranged, CollisionFree, FreshList, BothPreimages;
    if Rearranged(xs, ys) {
      RearrangedKeepsRoot(h, xs, ys);
    }
    if xs == [] {
      NothingRearranged(ys);
    } else if RootOf(h, xs) == RootOf(h, ys) {
      RootForcesTree(h, xs, ys);
    }
  }

  lemma NothingRearranged(ys: seq<Bytes>)
    ensures Rearranged([], ys) <==> ys == []
  {
  }

  // ---- beyond those hypotheses ---------------------------------------------------------------------------

  /** A list whose leaves are themselves hashes of pairs shares the root of the list of those pairs, whatever the hash. */
  lemma LevelsShareRoot(h: Hash, a: Bytes, b: Bytes, c: Bytes, d: Bytes)
    ensures RootOf(h, [a, b, c, d]) == RootOf(h, [Parent(h, a, b), Parent(h, c, d)])
  {
    hide Parent;
    var upper: seq<Bytes> := [Parent(h, a, b), Parent(h, c, d)];
    assert NextLevel(h, [a, b, c, d]) == upper;
  }

  // ---- a permutation that changes the plain root --------------------------------------------------------

  /** Digests told apart by their first byte, and a hash that weighs the first bytes of a pair. */
  function Numbered(k: int): Digest
    requires 0 <= k < 256
  {
    [k] + seq<Byte>(31, _ => 0)
  }

  function Weighed(j: int, k: int): int {
    (j + 2 * k) % 256
  }

  function WeighingHash(): Hash {
    (x: Bytes) => Numbered(if |x| == 64 then Weighed(x[0], x[32]) else 0)
  }

  lemma WeighedParent(j: int, k: int)
    requires 0 <= j < k && j + 2 * k < 256
    ensures Parent(WeighingHash(), Numbered(j), Numbered(k)) == Numbered(j + 2 * k)
    ensures Parent(WeighingHash(), Numbered(k), Numbered(j)) == Numbered(j + 2 * k)
  {
    var pair := Numbered(j) + Numbered(k);
    assert Numbered(j)[0] == j && Numbered(k)[0] == k && pair[0] == j && pair[32] == k;
    ParentSymmetric(WeighingHash(), Numbered(j), Numbered(k));
  }

  lemma TopOfThree(h: Hash, a: Bytes, b: Bytes, c: Bytes)
    ensures Top(h, [a, b, c]) == Parent(h, Parent(h, a, b), c)
  {
    var two: seq<Bytes> := [Parent(h, a, b), c];
    var one: seq<Bytes> := [Parent(h, Parent(h, a, b), c)];
    hide Parent;
    assert NextLevel(h, [a, b, c]) == two && NextLevel(h, two) == one;
    assert Top(h, two) == Top(h, one);
  }

  /** Exchanging the last two of three leaves, which are no siblings, can change the plain root. */
  lemma PermutationChangesRoot()
    ensures var h, a, b, c := WeighingHash(), Numbered(1), Numbered(2), Numbered(3);
            && RootOf(h, [a, b, c]) == Some(Numbered(13)) && RootOf(h, [a, c, b]) == Some(Numbered(16))
            && Numbered(13) != Numbered(16) && !Rearranged([a, b, c], [a, c, b])
  {
    var h, a, b, c := WeighingHash(), Numbered(1), Numbered(2), Numbered(3);
    TopOfThree(h, a, b, c);
    TopOfThree(h, a, c, b);
    WeighedParent(1, 2);
    WeighedParent(3, 5);
    WeighedParent(1, 3);
    WeighedParent(2, 7);
    assert Numbered(13)[0] != Numbered(16)[0];
    hide Top, Parent, WeighingHash, Numbered, Rearranged;
    if Rearranged([a, b, c], [a, c, b]) {
      RearrangedKeepsRoot(h, [a, b, c], [a, c, b]);
    }
  }
}
