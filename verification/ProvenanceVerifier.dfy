/** The standalone provenance-export verifier, and its agreement with the store's domain root. */
module ProvenanceVerifier {
  import opened Options
  import opened Bytes
  import opened CanonicalJson
  import Merkle
  import DomainMerkle
  import EventChain

  const DOMAIN_TAG: Bytes := Ascii("xibalba.provenance_export.v1")
  const SCHEMA_VERSION: Json := Str(EventChain.Lit("xibalba.provenance_export.v1"))
  const DOMAIN: string := "provenance_export"

  /** The four fields the verifier reads; an absent field reads as null. */
  datatype Bundle = Bundle(schemaVersion: Json, memories: Json, leafHashes: Json, rootHash: Json)

  datatype Problem = UnexpectedSchema | NotLists | CountMismatch | LeafMismatch(index: nat) | RootMismatch

  /** Reporting a leaf mismatch reads the memory's id, which raises when the memory is no object. */
  datatype Outcome = Outcome(verified: bool, problems: seq<Problem>) | Raised

  function MemoryHash(h: Hash, memory: Json): Digest {
    h(Print(memory))
  }

  function HashJson(d: Digest): Json {
    Str(EventChain.DigestText(d))
  }

  // ---- the script's own fold --------------------------------------------------------------------------

  /** One round as the script writes it: the paired part, then the odd last node. */
  function ScriptLevel(h: Hash, level: seq<Bytes>): seq<Bytes> {
    seq<Bytes>(|level| / 2, i requires 0 <= i < |level| / 2 => Merkle.Parent(h, level[2 * i], level[2 * i + 1]))
    + if |level| % 2 == 1 then [level[|level| - 1]] else []
  }

  lemma ScriptNode(h: Hash, level: seq<Bytes>, i: nat)
    requires i < (|level| + 1) / 2
    ensures var script := ScriptLevel(h, level);
            |script| == (|level| + 1) / 2
            && script[i] == if 2 * i + 1 < |level| then Merkle.Parent(h, level[2 * i], level[2 * i + 1]) else level[2 * i]
  {
    hide Merkle.Parent;
    var half := |level| / 2;
    assert |level| == 2 * half || |level| == 2 * half + 1;
    if i >= half {
      assert i == half && 2 * i == |level| - 1;
    }
  }

  lemma ScriptLevelIsNextLevel(h: Hash, level: seq<Bytes>)
    ensures ScriptLevel(h, level) == Merkle.NextLevel(h, level)
  {
    var script, next := ScriptLevel(h, level), Merkle.NextLevel(h, level);
    assert level == [] ==> script == [];
    hide ScriptLevel, Merkle.NextLevel, Merkle.Parent;
    forall i: nat | i < |next| ensures |script| == |next| && script[i] == next[i] {
      ScriptNode(h, level, i);
    }
    if level != [] {
      ScriptNode(h, level, 0);
    }
    assert script == next;
  }

  method ScriptRoot(h: Hash, leaves: seq<Bytes>) returns (root: Option<Bytes>)
    ensures root == Merkle.RootOf(h, leaves)
  {
    var level := leaves;
    if level == [] {
      return None;
    }
    while |level| > 1
      invariant level != [] && Merkle.Top(h, level) == Merkle.Top(h, leaves)
      decreases |level|
    {
      ScriptLevelIsNextLevel(h, level);
      level := ScriptLevel(h, level);
    }
    root := Some(level[0]);
  }

  // ---- the verification -------------------------------------------------------------------------------

  function MemoryHashes(h: Hash, memories: seq<Json>): (r: seq<Bytes>)
    ensures |r| == |memories| && forall i | 0 <= i < |r| :: r[i] == MemoryHash(h, memories[i])
  {
    seq<Bytes>(|memories|, i requires 0 <= i < |memories| => MemoryHash(h, memories[i]))
  }

  /** The root the store would record for these memories; none for an empty list. */
  function StoreRoot(h: Hash, memories: seq<Json>): Json
    requires |memories| <= DomainMerkle.INDEX_LIMIT
  {
    match DomainMerkle.DomainRoot(h, DOMAIN, MemoryHashes(h, memories))
    case Success(Some(d)) => HashJson(d)
    case _ => Null
  }

  predicate LeafMatches(h: Hash, b: Bundle, i: nat)
    requires b.memories.Arr? && b.leafHashes.Arr? && i < |b.memories.items| == |b.leafHashes.items|
  {
    b.leafHashes.items[i] == HashJson(MemoryHash(h, b.memories.items[i]))
  }

  predicate Comparable(b: Bundle) {
    && b.schemaVersion == SCHEMA_VERSION
    && b.memories.Arr? && b.leafHashes.Arr? && |b.memories.items| == |b.leafHashes.items|
  }

  /** What acceptance means: the schema, every leaf, and the store's own root. */
  ghost predicate Committed(h: Hash, b: Bundle) {
    && Comparable(b) && |b.memories.items| <= DomainMerkle.INDEX_LIMIT
    && (forall i: nat | i < |b.memories.items| :: LeafMatches(h, b, i))
    && b.rootHash == StoreRoot(h, b.memories.items)
  }

  /** In full: every listed hash is the digest of its memory's canonical text, and the root is that of those digests. */
  lemma CommittedMeans(h: Hash, b: Bundle)
    requires Committed(h, b)
    ensures b.schemaVersion == Str(EventChain.Lit("xibalba.provenance_export.v1"))
    ensures |b.leafHashes.items| == |b.memories.items|
    ensures forall i | 0 <= i < |b.memories.items| ::
              b.leafHashes.items[i] == Str(EventChain.DigestText(h(Print(b.memories.items[i]))))
    ensures b.memories.items == [] ==> b.rootHash == Null
    ensures b.memories.items != [] ==>
              var leaves := DomainMerkle.Leaves(h, DOMAIN_TAG, MemoryHashes(h, b.memories.items));
              b.rootHash == Str(EventChain.DigestText(h(DomainMerkle.RootPreimage(DOMAIN_TAG, Merkle.Top(h, leaves)))))
  {
    TagAgrees();
    hide EventChain.DigestText, DomainMerkle.Tag, DomainMerkle.RootPreimage, Merkle.Top;
    forall i | 0 <= i < |b.memories.items|
      ensures b.leafHashes.items[i] == Str(EventChain.DigestText(h(Print(b.memories.items[i]))))
    {
      assert LeafMatches(h, b, i);
    }
  }

  method TagMemories(h: Hash, hashes: seq<Bytes>) returns (leaves: seq<Bytes>)
    requires |hashes| <= DomainMerkle.INDEX_LIMIT
    ensures leaves == DomainMerkle.Leaves(h, DOMAIN_TAG, hashes)
  {
    leaves := [];
    var i := 0;
    while i < |hashes|
      invariant i == |leaves| <= |hashes|
      invariant forall k | 0 <= k < i :: leaves[k] == h(DomainMerkle.LeafPreimage(DOMAIN_TAG, k, hashes[k]))
    {
      hide DomainMerkle.IndexField;
      assert DomainMerkle.LeafPreimage(DOMAIN_TAG, i, hashes[i])
          == DOMAIN_TAG + DomainMerkle.LEAF_MARK + DomainMerkle.IndexField(i) + hashes[i];
      leaves := leaves + [h(DOMAIN_TAG + DomainMerkle.LEAF_MARK + DomainMerkle.IndexField(i) + hashes[i])];
      i := i + 1;
    }
  }

  /** The script's constant is the store's tag for the same domain. */
  lemma TagAgrees()
    ensures DomainMerkle.Tag(DOMAIN) == Some(DOMAIN_TAG)
  {
    assert DOMAIN in DomainMerkle.KNOWN_DOMAINS;
    assert DomainMerkle.KNOWN_DOMAINS[DOMAIN] == "xibalba.provenance_export.v1";
    assert DomainMerkle.IsAscii("xibalba.provenance_export.v1");
  }

  method RecomputedRoot(h: Hash, memories: seq<Json>, recomputed: seq<Bytes>) returns (root: Json)
    requires |memories| <= DomainMerkle.INDEX_LIMIT && recomputed == MemoryHashes(h, memories)
    ensures root == StoreRoot(h, memories)
  {
    TagAgrees();
    hide DomainMerkle.Tag, DomainMerkle.LeafPreimage;
    var leaves := TagMemories(h, recomputed);
    var inner := ScriptRoot(h, leaves);
    root := if inner.Some? then HashJson(h(DOMAIN_TAG + DomainMerkle.ROOT_MARK + inner.value)) else Null;
  }

  /** The loop over the memories; None where describing a mismatch raises. */
  method RecomputedLeaves(h: Hash, b: Bundle) returns (r: Option<(seq<Bytes>, seq<Problem>)>)
    requires Comparable(b)
    ensures r.Some? ==> r.value.0 == MemoryHashes(h, b.memories.items)
    ensures r.Some? ==> (r.value.1 == [] <==> forall k: nat | k < |b.memories.items| :: LeafMatches(h, b, k))
    ensures r.None? ==> exists i: nat :: i < |b.memories.items| && !b.memories.items[i].Obj? && !LeafMatches(h, b, i)
  {
    hide MemoryHash, SCHEMA_VERSION;
    var memories, claimed := b.memories.items, b.leafHashes.items;
    var problems: seq<Problem>, recomputed: seq<Bytes> := [], [];
    var i: nat := 0;
    while i < |memories|
      invariant i == |recomputed| <= |memories|
      invariant forall k: nat | k < i :: recomputed[k] == MemoryHash(h, memories[k])
      invariant problems == [] <==> forall k: nat | k < i :: LeafMatches(h, b, k)
    {
      var hash := MemoryHash(h, memories[i]);
      recomputed := recomputed + [hash];
      assert LeafMatches(h, b, i) <==> HashJson(hash) == claimed[i];
      if HashJson(hash) != claimed[i] {
        if !memories[i].Obj? {
          return None;
        }
        problems := problems + [LeafMismatch(i)];
      }
      i := i + 1;
    }
    assert recomputed == MemoryHashes(h, memories);
    r := Some((recomputed, problems));
  }

  /**
   * Accepts exactly the committed bundles. It raises only where it must describe a mismatch in a memory
   * that is no object, or where a position does not fit eight bytes.
   */
  method VerifyBundle(h: Hash, b: Bundle) returns (r: Outcome)
    ensures r.Outcome? ==> (r.verified <==> Committed(h, b)) && (r.verified <==> r.problems == [])
    ensures r.Raised? ==> Comparable(b) && !Committed(h, b)
    ensures r.Raised? && |b.memories.items| <= DomainMerkle.INDEX_LIMIT ==>
              exists i: nat :: i < |b.memories.items| && !b.memories.items[i].Obj? && !LeafMatches(h, b, i)
  {
    if b.schemaVersion != SCHEMA_VERSION {
      return Outcome(false, [UnexpectedSchema]);
    }
    if !b.memories.Arr? || !b.leafHashes.Arr? {
      return Outcome(false, [NotLists]);
    }
    if |b.memories.items| != |b.leafHashes.items| {
      return Outcome(false, [CountMismatch]);
    }
    hide LeafMatches, StoreRoot, MemoryHash, SCHEMA_VERSION;
    var leaves := RecomputedLeaves(h, b);
    if leaves.None? {
      return Raised;
    }
    var (recomputed, problems) := leaves.value;
    if problems != [] {
      return Outcome(false, problems);
    }
    if |recomputed| > DomainMerkle.INDEX_LIMIT {
      return Raised;
    }
    var root := RecomputedRoot(h, b.memories.items, recomputed);
    if root != b.rootHash {
      return Outcome(false, [RootMismatch]);
    }
    r := Outcome(true, []);
  }

  // ---- what two accepted bundles share ----------------------------------------------------------------

  ghost function BundleStrings(h: Hash, memories: seq<Json>): set<Bytes>
    requires |memories| <= DomainMerkle.INDEX_LIMIT
  {
    (if memories == [] then {} else DomainMerkle.RootStrings(h, DOMAIN_TAG, MemoryHashes(h, memories)))
    + set i | 0 <= i < |memories| :: Print(memories[i])
  }

  /** Two accepted bundles with one root hold the same memories in the same order, unless hashed strings collide. */
  lemma AcceptedBundlesAgree(h: Hash, a: Bundle, b: Bundle)
    requires Committed(h, a) && Committed(h, b) && a.rootHash == b.rootHash
    requires forall m | m in a.memories.items + b.memories.items :: WellFormed(m)
    requires CollisionFree(h, BundleStrings(h, a.memories.items) + BundleStrings(h, b.memories.items))
    ensures |a.memories.items| == |b.memories.items|
    ensures forall i | 0 <= i < |a.memories.items| :: Same(a.memories.items[i], b.memories.items[i])
  {
    var xs, ys := a.memories.items, b.memories.items;
    hide Same, WellFormed, Print, StoreRoot, BundleStrings, CollisionFree, LeafMatches, MemoryHash;
    RootOfNothing(h, xs);
    RootOfNothing(h, ys);
    if xs != [] {
      SameHashes(h, xs, ys);
      assert |MemoryHashes(h, xs)| == |xs| && |MemoryHashes(h, ys)| == |ys|;
      forall i | 0 <= i < |xs| ensures Same(xs[i], ys[i]) {
        assert xs[i] in xs + ys && ys[i] in xs + ys;
        SameMemory(h, xs, ys, i);
      }
    }
  }

  /** Only an export without memories has no root. */
  lemma RootOfNothing(h: Hash, memories: seq<Json>)
    requires |memories| <= DomainMerkle.INDEX_LIMIT
    ensures StoreRoot(h, memories) == Null <==> memories == []
  {
    TagAgrees();
    assert |MemoryHashes(h, memories)| == |memories|;
  }

  lemma SameMemory(h: Hash, xs: seq<Json>, ys: seq<Json>, i: nat)
    requires |xs| <= DomainMerkle.INDEX_LIMIT && |ys| <= DomainMerkle.INDEX_LIMIT && i < |xs| == |ys|
    requires MemoryHashes(h, xs) == MemoryHashes(h, ys) && WellFormed(xs[i]) && WellFormed(ys[i])
    requires CollisionFree(h, BundleStrings(h, xs) + BundleStrings(h, ys))
    ensures Same(xs[i], ys[i])
  {
    hide Print, Same, WellFormed;
    assert MemoryHashes(h, xs)[i] == MemoryHashes(h, ys)[i];
    assert Print(xs[i]) in BundleStrings(h, xs) && Print(ys[i]) in BundleStrings(h, ys);
    PrintIffSame(xs[i], ys[i]);
  }

  lemma SameHashes(h: Hash, xs: seq<Json>, ys: seq<Json>)
    requires 0 < |xs| <= DomainMerkle.INDEX_LIMIT && 0 < |ys| <= DomainMerkle.INDEX_LIMIT
    requires StoreRoot(h, xs) == StoreRoot(h, ys)
    requires CollisionFree(h, BundleStrings(h, xs) + BundleStrings(h, ys))
    ensures MemoryHashes(h, xs) == MemoryHashes(h, ys)
  {
    var p, q := MemoryHashes(h, xs), MemoryHashes(h, ys);
    TagAgrees();
    hide MemoryHashes, DomainMerkle.RootStrings, DomainMerkle.Tag;
    var d, e := DomainMerkle.DomainRoot(h, DOMAIN, p).value.value, DomainMerkle.DomainRoot(h, DOMAIN, q).value.value;
    EventChain.DigestTextInjective(d, e);
    DomainMerkle.RootCommits(h, DOMAIN, p, DOMAIN, q);
  }
}
