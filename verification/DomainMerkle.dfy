/** The domain- and position-tagged Merkle construction, its proofs, and what its root commits to. */
module DomainMerkle {
  import opened Options
  import opened Bytes
  import opened Merkle

  datatype Error = UnknownDomain | IndexOverflow
  datatype Result<+T> = Success(value: T) | Failure(error: Error)

  const KNOWN_DOMAINS: map<string, string> := map[
    "projection_checkpoint" := "xibalba.projection_checkpoint.v1",
    "retrieval_trace" := "xibalba.retrieval_trace.v1",
    "provenance_export" := "xibalba.provenance_export.v1",
    "provider_telemetry_export" := "xibalba.provider_telemetry_export.v1",
    "exchange_batch" := "xibalba.exchange_batch.v2",
    "backup.memories" := "xibalba.backup.memories.v1",
    "backup.entities" := "xibalba.backup.entities.v1",
    "backup.relations" := "xibalba.backup.relations.v1"
  ]

  predicate IsAscii(s: string) {
    forall i | 0 <= i < |s| :: s[i] < 128 as char
  }

  /** The tag bytes of a domain; an unlisted domain has none. */
  function Tag(domain: string): (tag: Option<Bytes>)
  {
    if domain in KNOWN_DOMAINS && IsAscii(KNOWN_DOMAINS[domain]) then Some(Ascii(KNOWN_DOMAINS[domain])) else None
  }

  const LEAF_MARK: Bytes := [0, 108, 101, 97, 102, 0]
  const ROOT_MARK: Bytes := [0, 114, 111, 111, 116, 0]

  /** 2^64: indexes must fit eight bytes. */
  const INDEX_LIMIT: nat := 0x1_0000_0000_0000_0000

  lemma IndexBytes()
    ensures Power256(8) == INDEX_LIMIT
  {
    assert Power256(4) == 0x1_0000_0000;
    assert Power256(8) == 256 * (256 * (256 * (256 * Power256(4))));
  }

  function IndexField(index: nat): (b: Bytes)
    requires index < INDEX_LIMIT
    ensures |b| == 8
  {
    IndexBytes();
    BigEndian(index, 8)
  }

  function LeafPreimage(tag: Bytes, index: nat, payload: Bytes): (b: Bytes)
    requires index < INDEX_LIMIT
    ensures |b| == |tag| + 14 + |payload|
  {
    tag + LEAF_MARK + IndexField(index) + payload
  }

  function RootPreimage(tag: Bytes, inner: Bytes): (b: Bytes)
    ensures |b| == |tag| + 6 + |inner|
  {
    tag + ROOT_MARK + inner
  }

  function DomainLeaf(h: Hash, domain: string, index: nat, payload: Bytes): Result<Digest> {
    if Tag(domain).None? then Failure(UnknownDomain)
    else if index >= INDEX_LIMIT then Failure(IndexOverflow)
    else Success(h(LeafPreimage(Tag(domain).value, index, payload)))
  }

  /** The leaves of a known domain. */
  function Leaves(h: Hash, tag: Bytes, payloads: seq<Bytes>): (leaves: seq<Bytes>)
    requires |payloads| <= INDEX_LIMIT
    ensures |leaves| == |payloads|
    ensures forall i | 0 <= i < |payloads| :: leaves[i] == h(LeafPreimage(tag, i, payloads[i]))
  {
    seq<Bytes>(|payloads|, i requires 0 <= i < |payloads| => h(LeafPreimage(tag, i, payloads[i])))
  }

  /** No leaves, no root, whatever the domain; otherwise the domain and the indexes must be representable. */
  function DomainRoot(h: Hash, domain: string, payloads: seq<Bytes>): Result<Option<Digest>> {
    if payloads == [] then Success(None)
    else if Tag(domain).None? then Failure(UnknownDomain)
    else if |payloads| > INDEX_LIMIT then Failure(IndexOverflow)
    else Success(Some(h(RootPreimage(Tag(domain).value, Top(h, Leaves(h, Tag(domain).value, payloads))))))
  }

  /** Tag every payload hash with its domain and position, in order; the first failure stops the loop. */
  method TagLeaves(h: Hash, domain: string, payloads: seq<Bytes>) returns (leaves: Result<seq<Bytes>>)
    ensures payloads != [] && Tag(domain).None? ==> leaves == Failure(UnknownDomain)
    ensures Tag(domain).Some? && |payloads| > INDEX_LIMIT ==> leaves == Failure(IndexOverflow)
    ensures Tag(domain).Some? && |payloads| <= INDEX_LIMIT ==>
              leaves == Success(Leaves(h, Tag(domain).value, payloads))
    ensures payloads == [] ==> leaves == Success([])
  {
    var built: seq<Bytes> := [];
    var i := 0;
    while i < |payloads|
      invariant i == |built| <= |payloads|
      invariant i > 0 ==> Tag(domain).Some? && i <= INDEX_LIMIT
      invariant forall k | 0 <= k < i :: built[k] == h(LeafPreimage(Tag(domain).value, k, payloads[k]))
    {
      var leaf := DomainLeaf(h, domain, i, payloads[i]);
      if leaf.Failure? {
        return Failure(leaf.error);
      }
      built := built + [leaf.value];
      i := i + 1;
    }
    assert Tag(domain).Some? && |payloads| <= INDEX_LIMIT ==> built == Leaves(h, Tag(domain).value, payloads);
    leaves := Success(built);
  }

  method DomainMerkleRoot(h: Hash, domain: string, payloads: seq<Bytes>) returns (root: Result<Option<Digest>>)
    ensures root == DomainRoot(h, domain, payloads)
  {
    var leaves := TagLeaves(h, domain, payloads);
    if leaves.Failure? {
      return Failure(leaves.error);
    }
    var inner := MerkleRoot(h, leaves.value);
    if inner.None? {
      return Success(None);
    }
    root := Success(Some(h(RootPreimage(Tag(domain).value, inner.value))));
  }

  /** A proof as received: hash texts that are not hex are None, and so is a sibling entry without a hash. */
  datatype DomainProof = DomainProof(domain: string, index: int, payload: Option<Bytes>,
                                     siblings: seq<Option<Bytes>>, root: Bytes)

  predicate AllHex(siblings: seq<Option<Bytes>>) {
    forall i | 0 <= i < |siblings| :: siblings[i].Some?
  }

  function Hashes(siblings: seq<Option<Bytes>>): (r: seq<Bytes>)
    requires AllHex(siblings)
    ensures |r| == |siblings| && forall i | 0 <= i < |r| :: siblings[i] == Some(r[i])
  {
    seq<Bytes>(|siblings|, i requires 0 <= i < |siblings| => siblings[i].value)
  }

  /** Well-formed and hashing up to its root. */
  predicate Verifies(h: Hash, p: DomainProof) {
    && 0 <= p.index < INDEX_LIMIT
    && Tag(p.domain).Some?
    && p.payload.Some?
    && AllHex(p.siblings)
    && h(RootPreimage(Tag(p.domain).value,
                      Fold(h, h(LeafPreimage(Tag(p.domain).value, p.index, p.payload.value)), Hashes(p.siblings))))
       == p.root
  }

  /** Malformed proofs are refused, not raised. */
  method VerifyDomainProof(h: Hash, p: DomainProof) returns (ok: bool)
    ensures ok == Verifies(h, p)
  {
    if p.index < 0 || p.payload.None? {
      return false;
    }
    var leaf := DomainLeaf(h, p.domain, p.index, p.payload.value);
    if leaf.Failure? {
      return false;
    }
    var current: Bytes := leaf.value;
    var i := 0;
    while i < |p.siblings|
      invariant i <= |p.siblings|
      invariant forall k | 0 <= k < i :: p.siblings[k].Some?
      invariant AllHex(p.siblings) ==>
                  Fold(h, current, Hashes(p.siblings)[i..]) == Fold(h, leaf.value, Hashes(p.siblings))
    {
      hide Parent, Tag, DomainLeaf, Fold, RootPreimage;
      if p.siblings[i].None? {
        return false;
      }
      FoldOne(h, current, p.siblings, i);
      current := Parent(h, current, p.siblings[i].value);
      i := i + 1;
    }
    hide Parent, DomainLeaf, RootPreimage;
    ok := h(RootPreimage(Tag(p.domain).value, current)) == p.root;
  }

  lemma FoldOne(h: Hash, current: Bytes, siblings: seq<Option<Bytes>>, i: nat)
    requires i < |siblings|
    ensures AllHex(siblings) ==>
              Fold(h, current, Hashes(siblings)[i..]) == Fold(h, Parent(h, current, siblings[i].value), Hashes(siblings)[i + 1..])
  {
    hide Parent;
  }

  function Wrapped(siblings: seq<Bytes>): (r: seq<Option<Bytes>>)
    ensures |r| == |siblings| && forall i | 0 <= i < |r| :: r[i] == Some(siblings[i])
  {
    seq(|siblings|, i requires 0 <= i < |siblings| => Some(siblings[i]))
  }

  /** The proof the store hands out for one position. */
  function HonestProof(h: Hash, domain: string, payloads: seq<Bytes>, index: nat): DomainProof
    requires Tag(domain).Some? && |payloads| <= INDEX_LIMIT && index < |payloads|
  {
    var leaves := Leaves(h, Tag(domain).value, payloads);
    DomainProof(domain, index, Some(payloads[index]), Wrapped(Path(h, leaves, index)),
                h(RootPreimage(Tag(domain).value, Top(h, leaves))))
  }

  method DomainMerkleProof(h: Hash, domain: string, payloads: seq<Bytes>, index: int)
    returns (proof: Result<Option<DomainProof>>)
    ensures proof.Failure? <==> payloads != [] && (Tag(domain).None? || |payloads| > INDEX_LIMIT)
    ensures proof.Success? ==> (proof.value.None? <==> !(0 <= index < |payloads|))
    ensures proof.Success? && proof.value.Some? ==> proof.value.value == HonestProof(h, domain, payloads, index)
  {
    var leaves := TagLeaves(h, domain, payloads);
    if leaves.Failure? {
      return Failure(leaves.error);
    }
    var inner := MerkleProof(h, leaves.value, index);
    if inner.None? {
      return Success(None);
    }
    proof := Success(Some(DomainProof(domain, index, Some(payloads[index]), Wrapped(inner.value.siblings),
                                      h(RootPreimage(Tag(domain).value, inner.value.root)))));
  }

  /** Completeness: every handed-out proof verifies against the root of the list it was made from. */
  lemma HonestProofVerifies(h: Hash, domain: string, payloads: seq<Bytes>, index: nat)
    requires Tag(domain).Some? && |payloads| <= INDEX_LIMIT && index < |payloads|
    ensures Verifies(h, HonestProof(h, domain, payloads, index))
    ensures DomainRoot(h, domain, payloads) == Success(Some(HonestProof(h, domain, payloads, index).root))
  {
    var leaves := Leaves(h, Tag(domain).value, payloads);
    PathReachesTop(h, leaves, index);
    assert Hashes(Wrapped(Path(h, leaves, index))) == Path(h, leaves, index);
  }

  // ---- what a verified proof shows --------------------------------------------------------------------

  /** No leaf preimage is as long as a pair of digests. */
  ghost predicate LeavesStandApart(tag: Bytes, payloads: seq<Bytes>) {
    forall i | 0 <= i < |payloads| :: |tag| + |payloads[i]| != 50
  }

  /** The strings hashed to build the domain root. */
  ghost function RootStrings(h: Hash, tag: Bytes, payloads: seq<Bytes>): set<Bytes>
    requires payloads != [] && |payloads| <= INDEX_LIMIT
  {
    var leaves := Leaves(h, tag, payloads);
    {RootPreimage(tag, Top(h, leaves))} + TreePreimages(h, leaves)
    + set i | 0 <= i < |payloads| :: LeafPreimage(tag, i, payloads[i])
  }

  /** The strings hashed to check a proof. */
  ghost function ProofStrings(h: Hash, p: DomainProof): set<Bytes>
    requires Verifies(h, p)
  {
    var tag, siblings := Tag(p.domain).value, Hashes(p.siblings);
    var start := LeafPreimage(tag, p.index, p.payload.value);
    {start, RootPreimage(tag, Fold(h, h(start), siblings))} + FoldPreimages(h, h(start), siblings)
  }

  /** Tags have lengths 25 to 36, none of them 18, and tell the domains apart. */
  lemma TagFacts(d: string, e: string)
    requires Tag(d).Some? && Tag(e).Some?
    ensures 25 <= |Tag(d).value| <= 36
    ensures Tag(d) == Tag(e) ==> d == e
  {
    var x, y := KNOWN_DOMAINS[d], KNOWN_DOMAINS[e];
    assert x[8] as int == Tag(d).value[8] && y[8] as int == Tag(e).value[8];
    assert x[15] as int == Tag(d).value[15] && y[15] as int == Tag(e).value[15];
  }

  /** The bytes of a leaf's preimage: tag, "leaf" between zeros, the position in eight bytes, and the payload. */
  lemma LeafPreimageSpelled(tag: Bytes, index: nat, payload: Bytes)
    requires index < INDEX_LIMIT
    ensures var b, n := LeafPreimage(tag, index, payload), |tag|;
            && b[..n] == tag && b[n] == 0 && b[n + 1..n + 5] == Ascii("leaf") && b[n + 5] == 0
            && NumberOf(b[n + 6..n + 14]) == index && b[n + 14..] == payload
  {
    var b, n := LeafPreimage(tag, index, payload), |tag|;
    IndexBytes();
    BigEndianReads(index, 8);
    hide NumberOf, BigEndian;
    assert b[n + 6..n + 14] == IndexField(index);
  }

  lemma RootPreimageSpelled(tag: Bytes, inner: Bytes)
    ensures var b, n := RootPreimage(tag, inner), |tag|;
            b[..n] == tag && b[n] == 0 && b[n + 1..n + 5] == Ascii("root") && b[n + 5] == 0 && b[n + 6..] == inner
  {
  }

  /** Equal leaf preimages of one tag: same index, same payload. */
  lemma LeafPreimageInjective(tag: Bytes, i: nat, x: Bytes, j: nat, y: Bytes)
    requires i < INDEX_LIMIT && j < INDEX_LIMIT && LeafPreimage(tag, i, x) == LeafPreimage(tag, j, y)
    ensures i == j && x == y
  {
    IndexBytes();
    SplitEqual(tag + LEAF_MARK + IndexField(i), x, tag + LEAF_MARK + IndexField(j), y);
    SplitEqual(tag + LEAF_MARK, IndexField(i), tag + LEAF_MARK, IndexField(j));
    BigEndianInjective(i, j, 8);
  }

  /** Equal root preimages: same tag, same inner root. */
  lemma RootPreimageInjective(s: Bytes, x: Bytes, t: Bytes, y: Bytes)
    requires |x| == |y| == 32 && RootPreimage(s, x) == RootPreimage(t, y)
    ensures s == t && x == y
  {
    SplitEqual(s + ROOT_MARK, x, t + ROOT_MARK, y);
    SplitEqual(s, ROOT_MARK, t, ROOT_MARK);
  }

  lemma {:induction false} TopDigest(h: Hash, level: seq<Bytes>)
    requires level != [] && AllDigests(level)
    ensures |Top(h, level)| == 32
    decreases |level|
  {
    if |level| == 1 {
      assert level[0] in level;
    } else {
      NextAllDigests(h, level);
      TopDigest(h, NextLevel(h, level));
    }
  }

  lemma LeavesAreDigests(h: Hash, tag: Bytes, payloads: seq<Bytes>)
    requires |payloads| <= INDEX_LIMIT
    ensures AllDigests(Leaves(h, tag, payloads))
  {
    var leaves := Leaves(h, tag, payloads);
    forall x | x in leaves ensures |x| == 32 {
      var i :| 0 <= i < |leaves| && leaves[i] == x;
    }
  }

  /** p is the very proof the store hands out for its index. */
  ghost predicate Genuine(h: Hash, domain: string, payloads: seq<Bytes>, p: DomainProof)
    requires Tag(domain).Some? && |payloads| <= INDEX_LIMIT
  {
    0 <= p.index < |payloads| && p == HonestProof(h, domain, payloads, p.index)
  }

  /** Some sibling is as long as the preimage of a listed leaf without one digest. */
  predicate HasLeafLengthSibling(tag: Bytes, payloads: seq<Bytes>, siblings: seq<Option<Bytes>>) {
    exists i, k :: 0 <= i < |siblings| && 0 <= k < |payloads| && siblings[i].Some?
                   && |siblings[i].value| + 32 == |tag| + 14 + |payloads[k]|
  }

  /** The setting: a verified proof whose root is the domain root of a list, and no collision among the strings hashed. */
  ghost predicate ProofAgainst(h: Hash, domain: string, payloads: seq<Bytes>, p: DomainProof) {
    && Tag(domain).Some? && 0 < |payloads| <= INDEX_LIMIT && LeavesStandApart(Tag(domain).value, payloads)
    && Verifies(h, p) && |Tag(p.domain).value| + |p.payload.value| != 50
    && DomainRoot(h, domain, payloads) == Success(Some(p.root))
    && CollisionFree(h, RootStrings(h, Tag(domain).value, payloads) + ProofStrings(h, p))
  }

  /** The outer wrapping pins down the domain and the inner root. */
  lemma SameInnerRoot(h: Hash, domain: string, payloads: seq<Bytes>, p: DomainProof)
    requires ProofAgainst(h, domain, payloads, p)
    ensures p.domain == domain
    ensures Fold(h, h(LeafPreimage(Tag(domain).value, p.index, p.payload.value)), Hashes(p.siblings))
              == Top(h, Leaves(h, Tag(domain).value, payloads))
  {
    var tag, other := Tag(domain).value, Tag(p.domain).value;
    var leaves := Leaves(h, tag, payloads);
    var start := LeafPreimage(other, p.index, p.payload.value);
    LeavesAreDigests(h, tag, payloads);
    TopDigest(h, leaves);
    FoldDigest(h, h(start), Hashes(p.siblings));
    RootPreimageInjective(tag, Top(h, leaves), other, Fold(h, h(start), Hashes(p.siblings)));
    TagFacts(domain, p.domain);
  }

  ghost predicate AllDigestSiblings(siblings: seq<Option<Bytes>>) {
    forall i | 0 <= i < |siblings| :: siblings[i].Some? ==> |siblings[i].value| == 32
  }

  /** The honest siblings are digests. */
  lemma GenuineSiblings(h: Hash, domain: string, payloads: seq<Bytes>, index: nat)
    requires Tag(domain).Some? && |payloads| <= INDEX_LIMIT && index < |payloads|
    ensures AllDigestSiblings(HonestProof(h, domain, payloads, index).siblings)
  {
    hide Tag, Leaves, Path, Top, Wrapped, LeafPreimage, RootPreimage;
    var leaves := Leaves(h, Tag(domain).value, payloads);
    LeavesAreDigests(h, Tag(domain).value, payloads);
    PathDigests(h, leaves, index);
    WrappedLengths(Path(h, leaves, index));
  }

  lemma DigestsAreNoLeafLength(tag: Bytes, payloads: seq<Bytes>, siblings: seq<Option<Bytes>>)
    requires AllDigestSiblings(siblings) && LeavesStandApart(tag, payloads)
    ensures !HasLeafLengthSibling(tag, payloads, siblings)
  {
  }

  lemma WrappedLengths(digests: seq<Bytes>)
    requires AllDigests(digests)
    ensures forall i | 0 <= i < |digests| :: |Wrapped(digests)[i].value| == 32
  {
    forall i | 0 <= i < |digests| ensures |Wrapped(digests)[i].value| == 32 {
      assert digests[i] in digests;
    }
  }

  /** The fold reaches the leaf at `position` after `cut` siblings and follows its path from there. */
  ghost predicate LandsOn(h: Hash, domain: string, payloads: seq<Bytes>, p: DomainProof, cut: nat, position: nat)
    requires Tag(domain).Some? && |payloads| <= INDEX_LIMIT && Verifies(h, p)
  {
    var tag := Tag(domain).value;
    var leaves, siblings := Leaves(h, tag, payloads), Hashes(p.siblings);
    && cut <= |siblings| && position < |leaves|
    && Fold(h, h(LeafPreimage(tag, p.index, p.payload.value)), siblings[..cut]) == leaves[position]
    && siblings[cut..] == Path(h, leaves, position)
  }

  lemma Lands(h: Hash, domain: string, payloads: seq<Bytes>, p: DomainProof) returns (cut: nat, position: nat)
    requires ProofAgainst(h, domain, payloads, p)
    ensures LandsOn(h, domain, payloads, p, cut, position)
  {
    var tag := Tag(domain).value;
    SameInnerRoot(h, domain, payloads, p);
    TagFacts(domain, domain);
    LeavesAreDigests(h, tag, payloads);
    cut, position := Descend(h, Leaves(h, tag, payloads), LeafPreimage(tag, p.index, p.payload.value),
                             Hashes(p.siblings), RootStrings(h, tag, payloads) + ProofStrings(h, p));
  }

  /** Landing at once: the proof is the honest one. */
  lemma LandsAtOnce(h: Hash, domain: string, payloads: seq<Bytes>, p: DomainProof, position: nat)
    requires ProofAgainst(h, domain, payloads, p) && LandsOn(h, domain, payloads, p, 0, position)
    ensures Genuine(h, domain, payloads, p)
  {
    var tag, siblings := Tag(domain).value, Hashes(p.siblings);
    var leaf := LeafPreimage(tag, position, payloads[position]);
    SameInnerRoot(h, domain, payloads, p);
    assert siblings[..0] == [] && siblings[0..] == siblings;
    assert leaf in RootStrings(h, tag, payloads);
    LeafPreimageInjective(tag, p.index, p.payload.value, position, payloads[position]);
    assert p.siblings == Wrapped(siblings);
  }

  /** Landing later: the last sibling used completes a leaf preimage. */
  lemma LandsLater(h: Hash, domain: string, payloads: seq<Bytes>, p: DomainProof, cut: nat, position: nat)
    requires ProofAgainst(h, domain, payloads, p) && LandsOn(h, domain, payloads, p, cut, position) && cut > 0
    ensures p.siblings[cut - 1].Some?
    ensures |p.siblings[cut - 1].value| + 32 == |Tag(domain).value| + 14 + |payloads[position]|
  {
    var tag, siblings := Tag(domain).value, Hashes(p.siblings);
    var start, leaf := LeafPreimage(tag, p.index, p.payload.value), LeafPreimage(tag, position, payloads[position]);
    SameInnerRoot(h, domain, payloads, p);
    FoldPrefix(h, h(start), siblings, cut);
    FoldLast(h, h(start), siblings[..cut]);
    var v, s := Fold(h, h(start), siblings[..cut][..cut - 1]), siblings[cut - 1];
    FoldDigest(h, h(start), siblings[..cut][..cut - 1]);
    assert leaf in RootStrings(h, tag, payloads) && NodePreimage(v, s) in ProofStrings(h, p);
    assert NodePreimage(v, s) == leaf;
    assert |NodePreimage(v, s)| == 32 + |s|;
  }

  /**
   * Proof soundness, exactly: a verified proof is the honest one unless it lists a sibling with the
   * length of a leaf preimage less one digest, which the verifier does not check for.
   */
  lemma VerifiedIsGenuineIff(h: Hash, domain: string, payloads: seq<Bytes>, p: DomainProof)
    requires ProofAgainst(h, domain, payloads, p)
    ensures Genuine(h, domain, payloads, p) <==> !HasLeafLengthSibling(Tag(domain).value, payloads, p.siblings)
  {
    var cut, position := Lands(h, domain, payloads, p);
    hide ProofAgainst, LandsOn;
    if cut == 0 {
      LandsAtOnce(h, domain, payloads, p, position);
    } else {
      LandsLater(h, domain, payloads, p, cut, position);
    }
    if Genuine(h, domain, payloads, p) {
      GenuineSiblings(h, domain, payloads, p.index);
      Apart(h, domain, payloads, p);
      DigestsAreNoLeafLength(Tag(domain).value, payloads, p.siblings);
    }
  }

  lemma Apart(h: Hash, domain: string, payloads: seq<Bytes>, p: DomainProof)
    requires ProofAgainst(h, domain, payloads, p)
    ensures LeavesStandApart(Tag(domain).value, payloads)
  {
  }

  /** In particular, with 32-byte siblings a verified proof names a listed payload at its position. */
  lemma ProofSoundness(h: Hash, domain: string, payloads: seq<Bytes>, p: DomainProof)
    requires ProofAgainst(h, domain, payloads, p)
    requires forall i | 0 <= i < |p.siblings| :: |p.siblings[i].value| == 32
    ensures p.domain == domain && 0 <= p.index < |payloads| && p.payload == Some(payloads[p.index])
  {
    Apart(h, domain, payloads, p);
    DigestsAreNoLeafLength(Tag(domain).value, payloads, p.siblings);
    hide ProofAgainst, LeavesStandApart, HasLeafLengthSibling, Tag;
    VerifiedIsGenuineIff(h, domain, payloads, p);
  }

  // ---- what a root commits to -------------------------------------------------------------------------

  /** Checking an honest proof hashes nothing that building the root did not. */
  lemma HonestProofStrings(h: Hash, domain: string, payloads: seq<Bytes>, index: nat)
    requires Tag(domain).Some? && |payloads| <= INDEX_LIMIT && index < |payloads|
    requires Verifies(h, HonestProof(h, domain, payloads, index))
    ensures ProofStrings(h, HonestProof(h, domain, payloads, index)) <= RootStrings(h, Tag(domain).value, payloads)
  {
    var tag := Tag(domain).value;
    var leaves := Leaves(h, tag, payloads);
    PathReachesTop(h, leaves, index);
    PathPreimages(h, leaves, index);
    assert Hashes(Wrapped(Path(h, leaves, index))) == Path(h, leaves, index);
  }

  ghost predicate SameRoot(h: Hash, d: string, xs: seq<Bytes>, e: string, ys: seq<Bytes>) {
    && Tag(d).Some? && 0 < |xs| <= INDEX_LIMIT && LeavesStandApart(Tag(d).value, xs)
    && Tag(e).Some? && 0 < |ys| <= INDEX_LIMIT && LeavesStandApart(Tag(e).value, ys)
    && DomainRoot(h, d, xs) == DomainRoot(h, e, ys)
    && CollisionFree(h, RootStrings(h, Tag(d).value, xs) + RootStrings(h, Tag(e).value, ys))
  }

  /** The honest proof of one list, held against the other of the same root. */
  lemma HonestAgainst(h: Hash, d: string, xs: seq<Bytes>, e: string, ys: seq<Bytes>, i: nat)
    requires SameRoot(h, d, xs, e, ys) && i < |xs|
    ensures ProofAgainst(h, e, ys, HonestProof(h, d, xs, i))
  {
    hide Tag, Leaves, Top, LeafPreimage, RootPreimage, RootStrings, ProofStrings;
    HonestProofVerifies(h, d, xs, i);
    HonestProofStrings(h, d, xs, i);
  }

  lemma EntryShared(h: Hash, d: string, xs: seq<Bytes>, e: string, ys: seq<Bytes>, i: nat)
    requires SameRoot(h, d, xs, e, ys) && i < |xs|
    ensures d == e && i < |ys| && xs[i] == ys[i]
  {
    var p := HonestProof(h, d, xs, i);
    HonestAgainst(h, d, xs, e, ys, i);
    GenuineSiblings(h, d, xs, i);
    assert Tag(e).Some? && |ys| <= INDEX_LIMIT;
    hide ProofAgainst, SameRoot, LeavesStandApart, AllDigestSiblings, HasLeafLengthSibling, Tag, Leaves, RootPreimage, Top, Path;
    SameInnerRoot(h, e, ys, p);
    Apart(h, e, ys, p);
    DigestsAreNoLeafLength(Tag(e).value, ys, p.siblings);
    VerifiedIsGenuineIff(h, e, ys, p);
  }

  /** Equal domain roots come from the same domain and the same payloads in the same order. */
  lemma RootCommits(h: Hash, d: string, xs: seq<Bytes>, e: string, ys: seq<Bytes>)
    requires SameRoot(h, d, xs, e, ys)
    ensures d == e && xs == ys
  {
    forall i | 0 <= i < |xs| ensures d == e && i < |ys| && xs[i] == ys[i] {
      EntryShared(h, d, xs, e, ys, i);
    }
    EntryShared(h, d, xs, e, ys, |xs| - 1);
    EntryShared(h, e, ys, d, xs, |ys| - 1);
  }

  // ---- a proof that verifies for an index that does not exist -----------------------------------------

  const BATCH_TAG: Bytes := Ascii("xibalba.exchange_batch.v2")

  /** Tells strings apart by their length and by the last byte of the index field. */
  function SampleHash(): Hash {
    (x: Bytes) => [255, |x| % 256, if |x| > 38 then x[38] else 0] + seq<Byte>(29, _ => 0)
  }

  const ZEROS: Bytes := seq<Byte>(32, _ => 0)

  /** The payload list holds the leaf digest of (5, ZEROS); the sibling is the rest of the only leaf's preimage. */
  function ForgedPayloads(): seq<Bytes> {
    [SampleHash()(LeafPreimage(BATCH_TAG, 5, ZEROS))]
  }

  function ForgedSibling(): Bytes {
    BATCH_TAG + LEAF_MARK + IndexField(0)
  }

  function ForgedProof(): DomainProof {
    DomainProof("exchange_batch", 5, Some(ZEROS), [Some(ForgedSibling())],
                SampleHash()(RootPreimage(BATCH_TAG, SampleHash()(LeafPreimage(BATCH_TAG, 0, ForgedPayloads()[0])))))
  }

  lemma BatchTag()
    ensures Tag("exchange_batch") == Some(BATCH_TAG)
  {
    var d := "exchange_batch";
    assert |d| == 14 && |"backup.memories"| == |"backup.entities"| == 15 && |"backup.relations"| == 16;
    assert KNOWN_DOMAINS[d] == "xibalba.exchange_batch.v2";
    hide KNOWN_DOMAINS;
  }

  /** The forged fold hashes the very string that makes the only leaf. */
  lemma ForgedPreimage()
    ensures NodePreimage(ForgedPayloads()[0], ForgedSibling()) == LeafPreimage(BATCH_TAG, 0, ForgedPayloads()[0])
  {
    var v, s := ForgedPayloads()[0], ForgedSibling();
    assert v[0] == 255;
    assert s[0] == BATCH_TAG[0] == 120;
  }

  lemma ForgedFold()
    ensures Verifies(SampleHash(), ForgedProof())
  {
    hide LexLeq, NodePreimage, LeafPreimage, SampleHash, ForgedSibling, RootPreimage, ZEROS, KNOWN_DOMAINS;
    var h, v, s := SampleHash(), ForgedPayloads()[0], ForgedSibling();
    ForgedPreimage();
    BatchTag();
    hide Tag, BATCH_TAG;
    var p := ForgedProof();
    assert Hashes(p.siblings) == [s];
    assert Fold(h, v, [s]) == Fold(h, Parent(h, v, s), []) == Parent(h, v, s);
    hide Fold, Parent;
  }

  /** The verifier accepts index 5 of a one-element list, and no two different strings hashed collide. */
  lemma ForgedProofVerifies()
    ensures ProofAgainst(SampleHash(), "exchange_batch", ForgedPayloads(), ForgedProof())
    ensures ForgedProof().index >= |ForgedPayloads()|
  {
    var h, v, s := SampleHash(), ForgedPayloads()[0], ForgedSibling();
    var forged, leaf := LeafPreimage(BATCH_TAG, 5, ZEROS), LeafPreimage(BATCH_TAG, 0, v);
    var root := RootPreimage(BATCH_TAG, h(leaf));
    ForgedPreimage();
    ForgedFold();
    BatchTag();
    assert Leaves(h, BATCH_TAG, [v]) == [h(leaf)];
    assert RootStrings(h, BATCH_TAG, [v]) <= {leaf, root};
    assert Hashes(ForgedProof().siblings) == [s];
    assert FoldPreimages(h, v, [s]) == {leaf} + FoldPreimages(h, h(leaf), []);
    assert ProofStrings(h, ForgedProof()) <= {forged, leaf, root};
    DistinctSamples(v);
  }

  lemma DistinctSamples(v: Bytes)
    requires |v| == 32
    ensures var leaf := LeafPreimage(BATCH_TAG, 0, v);
            CollisionFree(SampleHash(), {LeafPreimage(BATCH_TAG, 5, ZEROS), leaf, RootPreimage(BATCH_TAG, SampleHash()(leaf))})
  {
    var h, forged, leaf := SampleHash(), LeafPreimage(BATCH_TAG, 5, ZEROS), LeafPreimage(BATCH_TAG, 0, v);
    LastIndexByte(5);
    LastIndexByte(0);
    assert forged[38] == IndexField(5)[7] && leaf[38] == IndexField(0)[7];
    assert h(forged)[2] == 5 && h(leaf)[2] == 0;
    assert h(forged)[1] == 71 && h(leaf)[1] == 71 && h(RootPreimage(BATCH_TAG, h(leaf)))[1] == 63;
  }

  lemma LastIndexByte(i: nat)
    requires i < 256
    ensures IndexField(i)[7] == i
  {
    IndexBytes();
    assert BigEndian(i, 8) == BigEndian(i / 256, 7) + [i % 256];
  }
}
