# Verified model of Xibalba Cortex's core algorithms

This project models, in Dafny, the parts of Xibalba Cortex whose correctness is hardest to see from
the code, and proves what the code and its documentation promise of them for all inputs and all runs:

- **Graph analytics** (`Adjacency`, `Walks`, `Distances`, `BreadthFirst`, `Dependency`, `Betweenness`,
  `PageRank`, `Laplacian`, `Transitivity`; `Reals`, sums in `RealSums` and `PairSums`): the matrices of a node and edge
  list; the breadth-first search with path counting and the
  Brandes accumulation on in-place arrays, against an enumeration of all shortest walks; power iteration
  and its convergence; the Laplacian's quadratic form; transitivity. Floats are Dafny reals.
- **Commitments** (`Bytes`, `Decimals`, `Merkle`, `MerkleTrees`, `DomainMerkle`, `CanonicalJson`,
  `CanonicalText`, `EventChain`,
  `ProvenanceVerifier`): Merkle roots and proofs with sorted siblings and carried nodes, what a root commits
  to, the domain-tagged variant, canonical
  JSON with a parser that inverts it, the hash-chained event log, and the standalone export verifier.
- **Control-plane migration** (`StorageMigration`, `ManagedSchema`): preview, apply and rollback with the
  ledger of row digests and the database's foreign keys, over runs of any batches.
- **Text and turns** (`TextPieces`, `MarkdownHeadings`, `DocumentSplit`, `DocumentImport`,
  `ExchangeBuilder`): the heading pattern, greedy paragraph packing and its optimality, idempotent imports,
  the grouping of a session into exchanges.
- **Credentials** (`Enrollment`, `Lockout`, `LoginRace`, `Registrations`): single-use redemption under every
  interleaving, the login lockout over time and under interleaving, and the on-chain registration projection.
- **Rate limiters** (`TokenBucket`, `RateWindow`): a token bucket and a pruned deque, each against a
  simpler specification of the same decisions.

Code that changes state is modelled by methods with loops, arrays and classes whose contracts tie the
new state to specification functions; the properties are lemmas about those functions and about runs.

SHA-256 is an arbitrary function `h` from byte strings to 32-byte digests. "Unless two strings collide"
is stated as `CollisionFree(h, S)`, where `S` is the finite set of strings that were actually hashed;
an existential over all strings would always be true, since digests are shorter than strings.
Hex digests are byte strings, ordered as their lower-case texts are.

## What the code does not promise as its comments do

- `events.py:149-152` says a plain root commits to a multiset of leaves. It commits to their pairing tree up
  to exchanging the children of inner nodes: `MerkleTrees.SameRootIffRearranged` says exactly which lists
  share a root. Another permutation can change it (`MerkleTrees.PermutationChangesRoot`), and
  `[a, b, c, d]` has the root of the two parents of its pairs under every hash
  (`MerkleTrees.LevelsShareRoot`), so lists of different lengths can share one.
- `verify_domain_merkle_proof` never checks the length of a sibling. With a sibling as long as a leaf's
  preimage without one digest (the tag's length plus 14 bytes for 32-byte payload hashes), the string hashed
  for a pair can be that preimage: `DomainMerkle.ForgedProofVerifies` gives an accepted proof for index 5 of
  a one-element list without any collision. `DomainMerkle.VerifiedIsGenuineIff` shows that this is the only
  way: an accepted proof is the honest one if and only if no sibling has such a length.
- `managed_storage_migrate.py:165` says child tables are deleted first so that foreign keys never cascade
  away unrelated data. The order protects the batch's own rows; usage, operations and checkout rows that
  another batch imported for a tenant of this batch are still deleted with the tenant
  (`ManagedSchema.CascadeLosesRow`, on rows the schema admits). `StorageMigration.RunConservesIff` gives the exact condition.
- A self-loop lets the transitivity exceed 1 (`Transitivity.SelfLoopExceedsOne`);
  `Transitivity.CoefficientInRangeIff` says for every symmetric graph when it does not.
- `_rate_allowed` reads the clock before it takes the lock, so readings can reach the deque out of order.
  Under a limit of two or more the bound then fails: with readings e seconds late, exactly the window
  shortened by e keeps it (`RateWindow.KeepsShortenedIff`, with the run in `RateWindow.LateReadingExceedsLimit`);
  exactly a limit of one needs no order (`RateWindow.KeepsBoundIffOne`). The pruned deques decide as the full
  history would exactly when the readings are in order (`RateWindow.AgreeIffOrdered`).
- The lockout counter is read and written back in two steps. `LoginRace.CrowdIsCompared` is a run that
  compares any number of wrong passwords at one moment and stores a count of one; the stored count is that of
  the failures if and only if no write came between a login's read and its write (`LoginRace.CountIff`), and
  then the bound holds (`LoginRace.UnovertakenBound`).
- A registration sync revokes the account's rows of every chain. `Registrations.TwoChainsLoseARow` is a run
  that loses a row; `Registrations.OtherChainTakesOver` says when none is lost.
- A sync writes only the on-chain set into live session tokens. `Registrations.TokensAreEffectiveIff` says
  exactly when that is the effective set.
- An event can be listed in two exchanges of a session; `ExchangeBuilder.ListedOnceIff` says exactly when.

## Model

| member | source | states |
|---|---|---|
| Walks.ListedIsWalk | src/xibalba_cortex/graph_math.py:250-271 | The reference enumeration of k-edge walks lists walks only. |
| Walks.WalkIsListed | src/xibalba_cortex/graph_math.py:250-271 | The reference enumeration lists every walk. |
| Walks.ListedOnce | src/xibalba_cortex/graph_math.py:250-271 | The reference enumeration lists no walk twice. |
| Walks.CountIsListLength | src/xibalba_cortex/graph_math.py:268-270 | The path count used in the proofs is the length of that enumeration. |
| Walks.CountThroughIsVisiting | src/xibalba_cortex/graph_math.py:275-282 | The count of walks through v is the number of enumerated walks that visit v. |
| Distances.EdgeBound | src/xibalba_cortex/graph_math.py:264-268 | An edge never lengthens the least walk length by more than one, and leads on from reachable to reachable. |
| Distances.SigmaRecurrence | src/xibalba_cortex/graph_math.py:268-270 | The number of shortest paths to t is the sum over the neighbours one step closer. |
| BreadthFirst.Scan | src/xibalba_cortex/graph_math.py:260-271 | The inner loop over w on the in-place arrays keeps everything the search has established and settles every pair (v, w). |
| BreadthFirst.Bfs | src/xibalba_cortex/graph_math.py:250-271 | The queue-and-stack search ends with every edge out of a discovered vertex looked at; BfsExact says what that means. |
| BreadthFirst.LookKeeps | src/xibalba_cortex/graph_math.py:264-271 | One look at an edge keeps the search's invariant, whether it discovers w, credits v, or both. |
| BreadthFirst.DistancesExact | src/xibalba_cortex/graph_math.py:250-273 | dist is the least walk length, and -1 exactly when no walk of any length exists. |
| BreadthFirst.SigmaExact | src/xibalba_cortex/graph_math.py:255-270 | sigma counts the shortest walks. |
| BreadthFirst.PredecessorsExact | src/xibalba_cortex/graph_math.py:264-271 | pred[x] holds exactly the in-neighbours one step closer to the source. |
| BreadthFirst.BfsExact | src/xibalba_cortex/graph_math.py:250-273 | Distances, shortest-walk counts, predecessor lists without repetition, and a stack of exactly the reachable vertices in non-decreasing distance. |
| Dependency.SplitByFirstStep | src/xibalba_cortex/graph_math.py:275-282 | The shortest paths through v split by the vertex that follows v. |
| Dependency.BrandesRecurrence | src/xibalba_cortex/graph_math.py:279-280 | The sum over targets of the share of shortest paths through v satisfies the recurrence that the accumulation loop evaluates. |
| Betweenness.PassBack | src/xibalba_cortex/graph_math.py:279-280 | Each predecessor of the popped vertex gets its share of 1 + delta[w], and no other account changes. |
| Betweenness.Accumulate | src/xibalba_cortex/graph_math.py:275-282 | Popping the stack adds to every vertex but the source exactly the source's dependency on it. |
| Betweenness.OneSource | src/xibalba_cortex/graph_math.py:249-282 | One pass adds the source's term to the running totals and yields its distance row. |
| Betweenness.PathMetrics | src/xibalba_cortex/graph_math.py:242-287 | The returned betweenness of each vertex is the average, over the ordered pairs of two other vertices, of the fraction of their enumerated shortest walks that visit it; an unreachable pair counts nothing, and up to two vertices get zero. The rows are distances. |
| Betweenness.ShareIsFraction | src/xibalba_cortex/graph_math.py:275-282 | A share is the fraction of the enumerated shortest walks to t that visit v. |
| Betweenness.DeltaBounds | src/xibalba_cortex/graph_math.py:275-287 | The dependency on a vertex lies between 0 and the number of remaining targets. |
| Betweenness.BetweennessInRange | src/xibalba_cortex/graph_math.py:284-287 | Betweenness lies in [0, 1]. |
| Betweenness.OtherPairsTotal | src/xibalba_cortex/graph_math.py:285 | Excluding one vertex leaves (n - 1)(n - 2) ordered pairs. |
| Betweenness.StarCentreIsOne | src/xibalba_cortex/graph_math.py:242-287 | The bound is reached: the centre of any star of three or more vertices has betweenness 1. |
| Betweenness.CrossesOnce | src/xibalba_cortex/graph_math.py:275-282 | The shares of the vertices at one distance level add up to one for every target at or beyond it. |
| Betweenness.LevelTotal | src/xibalba_cortex/graph_math.py:275-282 | The dependencies at distance L sum to the number of vertices further than L. |
| Betweenness.SourceDelta | src/xibalba_cortex/graph_math.py:275-282 | delta[s] counts the other reachable vertices. |
| PageRank.BuildTransition | src/xibalba_cortex/graph_math.py:221-228 | In the column of a vertex with outgoing weight, its out-degree times each entry is the weight of the edge; in a sink's column n times each entry is one. |
| PageRank.Advance | src/xibalba_cortex/graph_math.py:234 | The nested sums compute one iteration. |
| PageRank.ComputePageRank | src/xibalba_cortex/graph_math.py:213-239 | The loop returns the first iterate whose L1 move is below the tolerance, or the last one; n = 0 and n = 1 apart. With the defaults the result is a distribution that differs from what it passes on along the weighted edges, from the sinks and by teleport by less than 0.85e-6 in all. |
| PageRank.Stochastic | src/xibalba_cortex/graph_math.py:221-228 | Every column of the transition matrix is a probability distribution. |
| PageRank.IterateDistribution | src/xibalba_cortex/graph_math.py:230-237 | Every iterate is a probability distribution. |
| PageRank.Contraction | src/xibalba_cortex/graph_math.py:234 | One iteration brings any two vectors closer by the factor alpha in L1. |
| PageRank.StepShrinks | src/xibalba_cortex/graph_math.py:233-237 | The k-th move is at most 2 alpha^(k+1). |
| PageRank.DefaultsSuffice | src/xibalba_cortex/graph_math.py:166 | With alpha 0.85, the hundredth move is below 1e-6. |
| PageRank.NearFixedPoint | src/xibalba_cortex/graph_math.py:235-236 | A result accepted by the tolerance test is within alpha tol / (1 - alpha) of every fixed point. |
| PageRank.PageRankConverges | src/xibalba_cortex/graph_math.py:166-239 | With the defaults the loop always leaves by the tolerance test, on a distribution within alpha tol / (1 - alpha) of every fixed point. |
| PageRank.DefaultsBalance | src/xibalba_cortex/graph_math.py:166-239 | That balance, stated on the weights; and every vector that balances exactly is within 0.85e-6 / 0.15. |
| Adjacency.IndexNames | src/xibalba_cortex/graph_math.py:58-61 | Every id or caption in use leads to the last node that bears it. |
| Adjacency.ResolvesToOne | src/xibalba_cortex/graph_math.py:60-69 | A reference, resolved by id before caption and by the later of equal names, leads to at most one node. |
| Adjacency.FillAdjacency | src/xibalba_cortex/graph_math.py:55-84 | Each entry is the total weight, after the fallbacks, of the listed edges whose references resolve to its two nodes; parallel edges accumulate, and nodes beyond the limit do not count. |
| Adjacency.WeightIsConserved | src/xibalba_cortex/graph_math.py:73-84 | The matrix holds the weight of every edge between two known nodes exactly once. |
| Adjacency.WeightIsFirst | src/xibalba_cortex/graph_math.py:77 | An edge weighs the first of confidence, weight and similarity that is not zero, and otherwise one. |
| Adjacency.NamesAreFirst | src/xibalba_cortex/graph_math.py:57-76 | References, ids and captions are the first of their fields that is not empty. |
| Adjacency.BothMatrices | src/xibalba_cortex/graph_math.py:73-89 | The filled array yields the directed matrix and the undirected one, which has the larger of the two directions everywhere and is symmetric. |
| Laplacian.SymIsSymmetric | src/xibalba_cortex/graph_math.py:89 | The undirected matrix is symmetric, and taking it again changes nothing. |
| Laplacian.RowsSumToZero | src/xibalba_cortex/graph_math.py:88-97 | Every row of D - A sums to zero. |
| Laplacian.QuadraticIsTension | src/xibalba_cortex/graph_math.py:88-97 | x'Lx is the sum over i < j of a_ij (x_i - x_j)^2. |
| Laplacian.PositiveSemidefinite | src/xibalba_cortex/graph_math.py:88-97 | With non-negative weights x'Lx is never negative. |
| Transitivity.TraceBalance | src/xibalba_cortex/graph_math.py:335-343 | trace(A^3) plus the open wedges equals twice the triplets plus the loop degrees. |
| Transitivity.TraceIsSixTriangles | src/xibalba_cortex/graph_math.py:336-339 | trace(A^3) counts every triangle of a loop-free graph six times. |
| Transitivity.CoefficientIsRatio | src/xibalba_cortex/graph_math.py:330-348 | The coefficient of a loop-free graph is three times its triangles over its connected triples, each counted once. |
| Transitivity.CoefficientInRangeIff | src/xibalba_cortex/graph_math.py:330-348 | The coefficient is never negative, and at most 1 exactly when the loop degrees do not exceed the open wedges. |
| Transitivity.LoopFreeInRange | src/xibalba_cortex/graph_math.py:330-348 | For a symmetric graph without self-loops it lies in [0, 1]. |
| Transitivity.UndirectedInRange | src/xibalba_cortex/graph_math.py:330-348 | So it does for the undirected matrix of every directed one without self-loops. |
| Transitivity.SelfLoopExceedsOne | src/xibalba_cortex/graph_math.py:330-348 | A triangle with one self-loop exceeds 1. |
| Merkle.ParentSymmetric | src/xibalba_cortex/events.py:102-106 | Swapping two siblings does not change their parent. |
| Merkle.ParentOfOrdered | src/xibalba_cortex/events.py:102-106 | Siblings are hashed in the order of their first differing byte. |
| Merkle.MerkleRoot | src/xibalba_cortex/events.py:109-117 | The pairing loop computes the top of the tree; no leaves, no root. |
| Merkle.MerkleProof | src/xibalba_cortex/events.py:120-134 | The loop collects the siblings on the way up and the same root; an index out of range is refused. |
| Merkle.VerifyMerkleProof | src/xibalba_cortex/events.py:137-141 | Accepts exactly the proofs that hash up to their root. |
| Merkle.PathReachesTop | src/xibalba_cortex/events.py:109-141 | Folding the siblings of any position gives the root, through every carried node. |
| Merkle.ProofComplete | src/xibalba_cortex/events.py:109-141 | Every produced proof is accepted and carries the root of its leaves. |
| MerkleTrees.TreeHashIsRoot | src/xibalba_cortex/events.py:109-117 | The pairing tree of the leaves hashes to the root. |
| MerkleTrees.PairSwapKeepsRoot | src/xibalba_cortex/events.py:102-117 | Swapping the leaves of one pair keeps the plain root, and is one rearrangement of the tree. |
| MerkleTrees.RearrangedKeepsRoot | src/xibalba_cortex/events.py:102-117 | Exchanging the children of any inner nodes of the pairing tree keeps the root, under every hash. |
| MerkleTrees.SameRootIffRearranged | src/xibalba_cortex/events.py:149-152 | Absent collisions, and for leaves that are no hashes of strings hashed for the trees, two lists have one root if and only if they are rearrangements of each other. |
| MerkleTrees.LevelsShareRoot | src/xibalba_cortex/events.py:149-152 | Four leaves and the two parents of their pairs have the same root under every hash. |
| MerkleTrees.PermutationChangesRoot | src/xibalba_cortex/events.py:149-152 | Exchanging two leaves that are no siblings is no rearrangement and can change the plain root. |
| Merkle.Descend | src/xibalba_cortex/events.py:102-141 | Without collisions, a fold that reaches the root of a tree follows, from some point on, the siblings of a leaf of that tree. |
| DomainMerkle.TagLeaves | src/xibalba_cortex/events.py:188-204 | Leaves carry their domain and position; an unknown domain or an index beyond eight bytes fails. |
| DomainMerkle.DomainMerkleRoot | src/xibalba_cortex/events.py:203-208 | The wrapped root of the tagged leaves, or the error of the first failing leaf. |
| DomainMerkle.DomainMerkleProof | src/xibalba_cortex/events.py:211-220 | The honest proof for an index in range, the errors otherwise. |
| DomainMerkle.VerifyDomainProof | src/xibalba_cortex/events.py:223-241 | Accepts exactly the well-formed proofs that hash up to their root; malformed ones are refused, not raised. |
| DomainMerkle.HonestProofVerifies | src/xibalba_cortex/events.py:203-241 | Every handed-out domain proof is accepted against the root of its list. |
| DomainMerkle.TagFacts | src/xibalba_cortex/events.py:161-178 | Tags tell the domains apart and are 25 to 36 bytes long; none has length 18, at which leaf and node preimages would be equally long. |
| DomainMerkle.LeafPreimageSpelled | src/xibalba_cortex/events.py:188-200 | A leaf hashes the tag, "leaf" between zero bytes, the position as eight big-endian bytes, and the payload. |
| DomainMerkle.RootPreimageSpelled | src/xibalba_cortex/events.py:203-208 | The root hashes the tag, "root" between zero bytes, and the inner root. |
| DomainMerkle.VerifiedIsGenuineIff | src/xibalba_cortex/events.py:188-241 | Absent collisions, and with no payload of the one length that makes a leaf as long as a pair of digests, an accepted proof against a list's root is the honest one if and only if no sibling is as long as a leaf's preimage without one digest. |
| DomainMerkle.ProofSoundness | src/xibalba_cortex/events.py:188-241 | Under the same condition, with 32-byte siblings it names the domain, an index in range and the payload at that index. |
| DomainMerkle.RootCommits | src/xibalba_cortex/events.py:188-208 | Absent collisions, and under the same condition on lengths, equal domain roots come from the same domain and the same payloads in the same order. |
| DomainMerkle.ForgedProofVerifies | src/xibalba_cortex/events.py:223-241 | A concrete accepted proof for an index past the end of its list, with no collision. |
| CanonicalJson.RoundTrip | src/xibalba_cortex/canonical.py:15-27 | Parsing a printed value gives it back, whatever follows it. |
| CanonicalJson.PrintRoundTrip | src/xibalba_cortex/canonical.py:15-27 | The printed text determines the value with its fields sorted. |
| CanonicalJson.CanonIffSame | src/xibalba_cortex/canonical.py:19 | Sorting fields identifies exactly the values that differ only in insertion order. |
| CanonicalJson.PrintIffSame | src/xibalba_cortex/canonical.py:15-27 | Two values print alike if and only if they are the same up to insertion order. |
| CanonicalText.CanonKeysAscend | src/xibalba_cortex/canonical.py:19 | In every object, at any depth, keys are printed in ascending order of their first differing code point. |
| CanonicalText.PrintPlain | src/xibalba_cortex/canonical.py:21 | The printed text is printable ASCII, whatever the value holds. |
| CanonicalText.FaceSpelled | src/xibalba_cortex/canonical.py:21 | A character beyond the basic plane is printed as two escapes. |
| CanonicalText.ObjectSpelled | src/xibalba_cortex/canonical.py:15-27 | An object is printed sorted, without white space. |
| EventChain.VerifyEvents | src/xibalba_cortex/events.py:68-76 | The loop gives the verdict of the specification: the length and head, or the first event out of order. |
| EventChain.EnvelopeSpelled | src/xibalba_cortex/events.py:39-49 | What is hashed for an event is the object of its eight named attributes. |
| EventChain.DigestTextSpelled | src/xibalba_cortex/canonical.py:39-41 | A digest is written as the prefix and 64 lower-case hex digits of its bytes in order. |
| EventChain.VerifyLast | src/xibalba_cortex/events.py:68-76 | A chain is valid exactly when its prefix is and its last event links to it. |
| EventChain.HeadOfValid | src/xibalba_cortex/events.py:68-76 | The head of a valid chain is its last event's digest, and its length the number of events. |
| EventChain.AppendKeepsValid | src/xibalba_cortex/events.py:55-76 | Appending to a valid chain keeps it valid; the new event has what was asked for and the next number, and only an unlisted evidence class is refused. |
| EventChain.HeadCommits | src/xibalba_cortex/events.py:39-76 | Absent collisions, two valid chains with one head are the same events. |
| ProvenanceVerifier.ScriptLevelIsNextLevel | scripts/verify_provenance_export.py:59-62 | The script's pairing round is the store's. |
| ProvenanceVerifier.ScriptRoot | scripts/verify_provenance_export.py:55-63 | The script's root is the store's root. |
| ProvenanceVerifier.TagMemories | scripts/verify_provenance_export.py:43-47 | The script's leaves are the store's leaves of the domain provenance_export. |
| ProvenanceVerifier.RecomputedLeaves | scripts/verify_provenance_export.py:90-100 | Every memory's hash, and no problem exactly when every claimed leaf matches; it raises only on a mismatched memory that is no object. |
| ProvenanceVerifier.RecomputedRoot | scripts/verify_provenance_export.py:105-107 | The recomputed root is the store's domain root of those memories. |
| ProvenanceVerifier.TagAgrees | scripts/verify_provenance_export.py:26 | The script's constant is the store's tag. |
| ProvenanceVerifier.VerifyBundle | scripts/verify_provenance_export.py:71-118 | Accepts exactly when schema, counts, every leaf and the store's domain root agree; problems are empty exactly then; it raises only on a mismatched memory that is no object. |
| ProvenanceVerifier.CommittedMeans | scripts/verify_provenance_export.py:71-118 | An accepted bundle lists the digest of every memory's canonical text, and its root is the tagged root of those digests, or null without memories. |
| ProvenanceVerifier.AcceptedBundlesAgree | scripts/verify_provenance_export.py:71-118 | Absent collisions, two accepted bundles with one root hold the same memories in the same order. |
| StorageMigration.ControlPlane.PlanRows | src/xibalba_cortex/managed_storage_migrate.py:106-121 | Every source row is planned as missing, conflicting or present, and the conflicts are listed in order. |
| StorageMigration.ControlPlane.InsertPlans | src/xibalba_cortex/managed_storage_migrate.py:124-137 | Missing rows and their ledger entries are inserted together, or nothing is. |
| StorageMigration.ControlPlane.MigrateStorage | src/xibalba_cortex/managed_storage_migrate.py:86-141 | The new state and the report are those of the specification, for preview, apply and every refusal. |
| StorageMigration.PlanMeans | src/xibalba_cortex/managed_storage_migrate.py:82-121 | A source row is missing, present or conflicting as the row under its key is absent, has its columns, or differs in one. |
| StorageMigration.AnswerIff | src/xibalba_cortex/managed_storage_migrate.py:86-123 | The answer is a refusal exactly for a blank batch id or a missing column, and otherwise a conflict exactly when some row under a source row's key differs in a column. |
| StorageMigration.ApplyCarriesSource | src/xibalba_cortex/managed_storage_migrate.py:124-137 | After a completed apply the target holds every source row under its key, with all its columns; a tenant has no owner user and the time of creation as that of its update. |
| StorageMigration.OneRowApplies | src/xibalba_cortex/managed_storage_migrate.py:124-137 | A single missing row is imported exactly when its key has no ledger entry, its tenant is there and the other constraints admit it; otherwise nothing changes. |
| StorageMigration.RollbackLeaves | src/xibalba_cortex/managed_storage_migrate.py:144-173 | A rollback leaves exactly the rows that neither the batch owns nor the cascade of one of its tenants reaches, and completes unless an owned row was modified. |
| StorageMigration.ControlPlane.DeleteTable | src/xibalba_cortex/managed_storage_migrate.py:165-171 | Deleting the owned rows of one table, with the rows that reference a deleted tenant. |
| StorageMigration.ControlPlane.RollbackBatch | src/xibalba_cortex/managed_storage_migrate.py:144-173 | The new state and the count are those of the specification; a modified row leaves everything as it was. |
| StorageMigration.RunKeeps | src/xibalba_cortex/managed_storage_migrate.py:86-173 | In every run: initial rows untouched, every other row owned by one batch and as its ledger entry recorded it, no reference broken. |
| StorageMigration.RollbackKeeps | src/xibalba_cortex/managed_storage_migrate.py:144-173 | A rollback succeeds on untouched rows and keeps that invariant, cascade included. |
| StorageMigration.ConservedMeans | src/xibalba_cortex/managed_storage_migrate.py:124-137 | No ledger entry without its row means that the target is the initial rows plus exactly the owned rows. |
| StorageMigration.RollbackConservesIff | src/xibalba_cortex/managed_storage_migrate.py:165-172 | A rollback deletes exactly its own rows, and strands no further ledger entry, if and only if no other batch's present row references one of its tenants; whatever earlier rollbacks stranded. |
| StorageMigration.RunConservesIff | src/xibalba_cortex/managed_storage_migrate.py:86-173 | Target = initial + owned rows at every point of a run if and only if no rollback of the run strands another batch's row. |
| StorageMigration.PreviewForetells | src/xibalba_cortex/managed_storage_migrate.py:106-141 | A preview gives the report of the apply that would follow and writes nothing, and its count of missing rows per table is exactly the number of rows the apply adds. |
| StorageMigration.ApplyChangesIff | src/xibalba_cortex/managed_storage_migrate.py:109-137 | An apply changes something if and only if it completes and some source row was not there. |
| StorageMigration.RollbackChangesIff | src/xibalba_cortex/managed_storage_migrate.py:144-173 | A rollback changes something if and only if the batch owns a ledger entry and none of its rows was modified. |
| StorageMigration.ApplyThenRollback | src/xibalba_cortex/managed_storage_migrate.py:86-173 | Applying a batch and rolling it back is rolling it back alone, so it restores target and ledger when the batch owned nothing. |
| StorageMigration.ReapplyImportsNothing | src/xibalba_cortex/managed_storage_migrate.py:109-137 | Applying the same rows again, for any batch, imports nothing. |
| ManagedSchema.PostgresIsFaithful | supabase/migrations/20261105102000_cortex_managed_foundation.sql:10-62 | The schema's defaults keep what is inserted. |
| ManagedSchema.CascadeLosesRow | supabase/migrations/20261105102000_cortex_managed_foundation.sql:10-62 | A run that the schema's own constraints admit, in which a rollback deletes another batch's usage row through the cascading foreign key and leaves its ledger entry. |
| TextPieces.PiecesHoldNoSeparator | src/xibalba_cortex/console_actions.py:74 | No piece of a split contains the separator. |
| TextPieces.SplitReadsPart | src/xibalba_cortex/console_actions.py:74 | Splitting reads back a part in which the separator neither occurs nor overlaps its end. |
| TextPieces.SplitReadsLast | src/xibalba_cortex/console_actions.py:74 | A text without the separator is its own only piece. |
| TextPieces.JoinSplit | src/xibalba_cortex/console_actions.py:74 | Joining the pieces of a split gives the text back. |
| TextPieces.StripCuts | src/xibalba_cortex/console_actions.py:74 | Stripping cuts white space off both ends, and nothing else. |
| MarkdownHeadings.HeadingIff | src/xibalba_cortex/console_actions.py:67-69 | A line has a title exactly when the pattern can match it. |
| MarkdownHeadings.FoundIsReading | src/xibalba_cortex/console_actions.py:67 | What the search finds is a way for the pattern to match. |
| MarkdownHeadings.FoundIsFirst | src/xibalba_cortex/console_actions.py:67 | Of all ways to match it is the first in backtracking order: greedy indentation, hashes and white space, then the shortest title. |
| MarkdownHeadings.HeadingTitle | src/xibalba_cortex/console_actions.py:67-69 | A heading's title is the stripped title of that first match. |
| DocumentSplit.UnifiedHasNoReturn | src/xibalba_cortex/console_actions.py:66 | The two replacements leave no carriage return. |
| DocumentSplit.UnifiedIsOnePass | src/xibalba_cortex/console_actions.py:66 | The two replacements are one pass that turns every line ending into a line feed. |
| DocumentSplit.SectionsKeepLines | src/xibalba_cortex/console_actions.py:65-71 | The sections' lines, in order, are exactly the lines that are no headings. |
| DocumentSplit.SectionsCarryTitles | src/xibalba_cortex/console_actions.py:68-69 | The sections' titles are the headings' titles in order, behind an untitled first section. |
| DocumentSplit.FindSections | src/xibalba_cortex/console_actions.py:65-71 | Headings open sections and every other line goes to the last one. |
| DocumentSplit.PackSection | src/xibalba_cortex/console_actions.py:75-83 | The string-building loop emits the chunks of the packing, in order, under the section's title. |
| DocumentSplit.SplitDocument | src/xibalba_cortex/console_actions.py:57-84 | The chunks are those of all sections in order. |
| DocumentSplit.ParagraphShape | src/xibalba_cortex/console_actions.py:74 | Paragraphs are non-blank, stripped, and hold no blank-line separator. |
| DocumentSplit.PackIsCut | src/xibalba_cortex/console_actions.py:75-83 | The groups concatenate to the paragraphs in order, and each is at most 3000 characters or a single paragraph. |
| DocumentSplit.BodyReadsBack | src/xibalba_cortex/console_actions.py:81 | A chunk's text gives back its paragraphs. |
| DocumentSplit.PackIsOptimal | src/xibalba_cortex/console_actions.py:75-83 | No other cut into such consecutive groups has fewer. |
| DocumentSplit.DocumentIsKept | src/xibalba_cortex/console_actions.py:57-84 | Whatever the document, all characters of its lines that are no white space, but for the headings, are in the chunks, in order. |
| DocumentSplit.SectionIsKept | src/xibalba_cortex/console_actions.py:73-83 | So for each section, in bodies of at most 3000 characters or of a single paragraph. |
| DocumentImport.ImportStore.ImportDocument | src/xibalba_cortex/console_actions.py:115-161 | Stores exactly the chunks whose key is new and counts both kinds; no text or more than 200 chunks stores nothing. |
| DocumentImport.KeyInjective | src/xibalba_cortex/console_actions.py:131 | The key determines workspace, digest and chunk number, even for workspace ids holding colons. |
| DocumentImport.ImportedKeys | src/xibalba_cortex/console_actions.py:130-151 | An import adds the document's keys and no other. |
| DocumentImport.ImportedTexts | src/xibalba_cortex/console_actions.py:127-151 | Under a new key lies the text of its chunk, and whatever was stored stays. |
| DocumentImport.ReimportStoresNothing | src/xibalba_cortex/console_actions.py:109-112 | Importing the same document into the same workspace again stores nothing. |
| DocumentImport.OtherImportIsWhole | src/xibalba_cortex/console_actions.py:122-126 | Importing elsewhere never makes another workspace's or document's chunk look present. |
| ExchangeBuilder.Session.GroupEvents | src/xibalba_cortex/exchange_builder.py:48-55 | The two dictionaries hold, under each id, exactly the events with that link, in order. |
| ExchangeBuilder.Session.Flush | src/xibalba_cortex/exchange_builder.py:73-93 | The open turn is recorded once, and its prompt id remembered; nothing open records nothing. |
| ExchangeBuilder.Session.RecordTurns | src/xibalba_cortex/exchange_builder.py:67-108 | The loop records one exchange for each turn of the session, in order. |
| ExchangeBuilder.Session.SortByEarliest | src/xibalba_cortex/exchange_builder.py:112-115 | The ids once each, by the time of their first event. |
| ExchangeBuilder.Session.Build | src/xibalba_cortex/exchange_builder.py:19-135 | The turns' exchanges followed by one for each unseen prompt id; existing exchanges are left unchanged, and the status and count say which. |
| ExchangeBuilder.TurnsAreWellCut | src/xibalba_cortex/exchange_builder.py:95-107 | Turns concatenate to the memories; each begins with a user memory, which only the first may lack, and holds no other. |
| ExchangeBuilder.OnlyCut | src/xibalba_cortex/exchange_builder.py:95-107 | No other cut has that shape. |
| ExchangeBuilder.ExchangesPartition | src/xibalba_cortex/exchange_builder.py:76-77 | Prompt and response ids, read in order, are the non-summary memories, each exactly once. |
| ExchangeBuilder.ExchangeCount | src/xibalba_cortex/exchange_builder.py:95-126 | The count is the user turns, plus one if the session opens otherwise, plus the unseen prompt ids. |
| ExchangeBuilder.TurnEvents | src/xibalba_cortex/exchange_builder.py:57-65 | A turn's exchange lists an event exactly when it belongs to one of the turn's memories. |
| ExchangeBuilder.TurnEventsOnce | src/xibalba_cortex/exchange_builder.py:57-65 | It lists each of them once. |
| ExchangeBuilder.StrongLinksFirst | src/xibalba_cortex/exchange_builder.py:57-65 | What a memory adds comes behind what was there: the events of its own id first, then those of its prompt id alone. |
| ExchangeBuilder.LinkedSplits | src/xibalba_cortex/exchange_builder.py:48-55 | The events under an id are found one by one, in the order of the list. |
| ExchangeBuilder.OwnEvents | src/xibalba_cortex/exchange_builder.py:115-126 | The exchange of an unseen prompt id lists exactly its events, in that order, and no memory. |
| ExchangeBuilder.NonSummarySplits | src/xibalba_cortex/exchange_builder.py:34-37 | Memories are kept in order, but for the summaries. |
| ExchangeBuilder.TurnIsTimed | src/xibalba_cortex/exchange_builder.py:73-93 | It has the prompt's id and time and the time of the last response. |
| ExchangeBuilder.EarliestIsFirst | src/xibalba_cortex/exchange_builder.py:112-113 | An unseen prompt id is sorted by the time of one of its events, and none is earlier. |
| ExchangeBuilder.EventsLand | src/xibalba_cortex/exchange_builder.py:48-126 | An event lands in some exchange if and only if it has a prompt id or belongs to a listed memory. |
| ExchangeBuilder.ListedOnceIff | src/xibalba_cortex/exchange_builder.py:57-126 | With distinct event ids, an event is listed in at most one exchange if and only if its memories are all of one turn and it has no prompt id, a user memory carries its prompt id, or it belongs to no memory. |
| ExchangeBuilder.BuildAgain | src/xibalba_cortex/exchange_builder.py:23-32 | A second build adds nothing, also when the first found nothing to record. |
| Enrollment.Home.IssueCode | src/xibalba_cortex/enrollment.py:140-164 | Stores the hash of a fresh code; an empty workspace or a stored hash changes nothing. |
| Enrollment.Home.TooManyAttempts | src/xibalba_cortex/enrollment.py:167-180 | The attempt is recorded before the verdict, which counts every row stamped at the cutoff or later. |
| Enrollment.Home.RedeemCode | src/xibalba_cortex/enrollment.py:191-241 | With nobody else at work it takes the machine's five steps, and succeeds if and only if fewer than ten stored attempts are of the last sixty seconds, the code is stored, unredeemed and unexpired, and key and signature match; then exactly that row is redeemed, and otherwise none. |
| Enrollment.IssuedCodeRedeems | src/xibalba_cortex/enrollment.py:140-241 | A code just issued is redeemed by one caller alone exactly within its lifetime, with the named key, a valid signature and below the attempt limit, and binds its workspace. |
| Enrollment.AcceptedKeyIsNamed | src/xibalba_cortex/enrollment.py:214-217 | A key is accepted exactly when the DID has the method prefix and ends in a colon and the key's fingerprint. |
| Enrollment.RunKeeps | src/xibalba_cortex/enrollment.py:167-241 | Under every interleaving: rows keep workspace, expiry and redemption; winners are proven, stored and unique per code. |
| Enrollment.SingleUse | src/xibalba_cortex/enrollment.py:221-236 | At most one redemption per code ever succeeds; it passed every check before the expiry, and never on a code redeemed before. |
| Enrollment.WinnerStays | src/xibalba_cortex/enrollment.py:227-231 | The stored DID and device are the winner's, whatever comes after. |
| Enrollment.StepKeepsWindow | src/xibalba_cortex/enrollment.py:167-180 | No step lifts the redemptions past the gate in any sixty-second window over ten. |
| Enrollment.GateBound | src/xibalba_cortex/enrollment.py:167-180 | In every run, at most ten redemptions with attempts stamped in any [a, a + 60] pass the gate. |
| Lockout.AccountStore.IssueAccountSession | src/xibalba_cortex/accounts.py:112-118 | A session is issued exactly for an active, verified, approved account without a lock in force whose stored hash is the scrypt value of the password, of ten characters or more; then the count and the lock are cleared. A wrong password counts, and from the fifth locks for fifteen minutes; nothing else changes. |
| Lockout.OnlyThePasswordIssues | src/xibalba_cortex/accounts.py:112-118 | On a row whose hash was made from a password, that password issues a session and any with another scrypt value is counted. |
| Lockout.RunLocks | src/xibalba_cortex/accounts.py:269-288 | From the fifth wrong password on, the lock stands fifteen minutes further for each one compared. |
| Lockout.LockoutBound | src/xibalba_cortex/accounts.py:269-288 | Without a session, T minutes compare at most 5 + floor(T/15) wrong passwords, from any state and through any change of the account's standing. |
| Lockout.BoundIsReached | src/xibalba_cortex/accounts.py:269-288 | For every k a run compares exactly 5 + k wrong passwords in 15k minutes. |
| Lockout.FiveAreCompared | src/xibalba_cortex/accounts.py:278-280 | From a fresh account five wrong passwords are compared whenever they come, and only the fifth locks. |
| Lockout.SessionForgets | src/xibalba_cortex/accounts.py:305 | After a session five wrong passwords are compared again. |
| Lockout.LockEnds | src/xibalba_cortex/accounts.py:269-280 | After the locking failure the right password is refused for fifteen minutes and then issues a session. |
| LoginRace.ReadThenWrite | src/xibalba_cortex/accounts.py:259-289 | A read and a write with nothing in between are the login of a single caller. |
| LoginRace.CountIff | src/xibalba_cortex/accounts.py:278-284 | In every interleaving without a right password, the stored count is the initial one plus the failures written back if and only if no write came between any login's read and its write. |
| LoginRace.UnovertakenBound | src/xibalba_cortex/accounts.py:269-288 | Such a run writes back at most 5 + floor(T/15) failures in T minutes, and the passwords compared are exactly those and the ones still pending. |
| LoginRace.CrowdIsCompared | src/xibalba_cortex/accounts.py:278-284 | For every n, a run compares n wrong passwords at one moment and stores a count of one. |
| Registrations.Registry.SyncAccountRegistrations | src/xibalba_cortex/accounts.py:499-547 | The verdict and the whole new state of a sync; applied exactly with a valid cursor, an active account, and a later block or the same snapshot; anything else leaves all tables unchanged. |
| Registrations.AppliedIffNotBack | src/xibalba_cortex/accounts.py:511-518 | A snapshot with a valid cursor, of an active account, is applied if and only if that does not move its feed's cursor back. |
| Registrations.LaterBlockIsProjected | src/xibalba_cortex/accounts.py:511-529 | A snapshot of a later block is always applied: the on-chain set becomes its stripped DIDs if it is finalized, and empty otherwise. |
| Registrations.AppliedTouches | src/xibalba_cortex/accounts.py:519-537 | Other rows of the account are revoked at that time, other accounts' are left alone, and exactly the live tokens of the account's sessions get the set. |
| Registrations.Registry.ReplaceRows | src/xibalba_cortex/accounts.py:519-524 | Revoking and re-inserting row by row leaves exactly the snapshot's DIDs active. |
| Registrations.CursorsNeverGoBack | src/xibalba_cortex/accounts.py:511-529 | No run moves a cursor to an earlier block, or to another snapshot of the same block. |
| Registrations.CursorIsLastApplied | src/xibalba_cortex/accounts.py:511-529 | After any run a feed's cursor is at the last snapshot applied on it. |
| Registrations.ProjectionIsLastSnapshot | src/xibalba_cortex/accounts.py:226-232 | After any run the on-chain set is the last applied snapshot's DIDs if it was finalized, and empty otherwise. |
| Registrations.ReplayChangesOnlyTimes | src/xibalba_cortex/accounts.py:515-529 | Replaying the snapshot just applied is accepted and changes nothing but observation times. |
| Registrations.ActiveRowsAreOfOneChain | src/xibalba_cortex/accounts.py:511-529 | After any run the account's active rows are exactly the DIDs of the last snapshot applied for it, all of that snapshot's chain. |
| Registrations.OtherChainTakesOver | src/xibalba_cortex/accounts.py:511-529 | A snapshot of another chain leaves the first chain's cursor where it was but only its own DIDs; that is the union of both chains' if and only if it lists all of the first. |
| Registrations.TwoChainsLoseARow | src/xibalba_cortex/accounts.py:519-524 | For every account and DID, a run of two chains that revokes the only row of the first. |
| Registrations.EffectiveIsUnion | src/xibalba_cortex/accounts.py:235-242 | The effective set is the union of the on-chain set and the account's own ids. |
| Registrations.SyncKeepsOffChain | src/xibalba_cortex/accounts.py:540-546 | A sync leaves the account's own ids in the effective set. |
| Registrations.TokensAreEffectiveIff | src/xibalba_cortex/accounts.py:533-536 | Live session tokens get the effective set if and only if the account's own ids are all on chain. |
| TokenBucket.ConnectorRateLimiter.Create | src/xibalba_cortex/connector_policy.py:22-36 | A full bucket, or an error for a rate that is not positive or a burst below one. |
| TokenBucket.ConnectorRateLimiter.TryAcquire | src/xibalba_cortex/connector_policy.py:50-64 | Refills up to the capacity, then takes a token or returns the delay, which times the rate is what is missing. |
| TokenBucket.ConnectorRateLimiter.Wait | src/xibalba_cortex/connector_policy.py:38-48 | Takes exactly one token when it ends; with nobody else acquiring, two rounds are enough. |
| TokenBucket.BucketIsSchedule | src/xibalba_cortex/connector_policy.py:38-64 | The bucket decides every call as a schedule whose only state is the moment the next token is ready. |
| TokenBucket.DelayIsExact | src/xibalba_cortex/connector_policy.py:64 | The returned delay ends exactly at that moment. |
| TokenBucket.WaitingTheDelaySuffices | src/xibalba_cortex/connector_policy.py:50-64 | After a refusal, calls before the delay is over are all refused, and the next is granted if and only if it waits that long. |
| TokenBucket.TokensConserved | src/xibalba_cortex/connector_policy.py:42-45 | Tokens left plus tokens granted never exceed tokens at the start plus those refilled. |
| TokenBucket.GrantBound | src/xibalba_cortex/connector_policy.py:38-64 | Any stretch of a run is granted at most burst + rate * T. |
| TokenBucket.FullBurst | src/xibalba_cortex/connector_policy.py:33-45 | A full bucket grants a whole burst at one moment. |
| RateWindow.BearerTokenAuth.Create | src/xibalba_cortex/auth_middleware.py:84-93 | Empty windows, or an error for a limit below one. |
| RateWindow.BearerTokenAuth.RateAllowed | src/xibalba_cortex/auth_middleware.py:95-107 | Drops the leading grants that are a minute old and allows the call exactly while fewer than the limit are left, which it then joins; other principals are untouched. Without a limit every call is allowed and nothing is kept. |
| RateWindow.PrincipalsAreSolo | src/xibalba_cortex/auth_middleware.py:95-107 | Each principal's deque and grants depend on its own readings only. |
| RateWindow.DecidesAsHistory | src/xibalba_cortex/auth_middleware.py:95-107 | For readings in order, the pruned deques decide every call as the full grant history would. |
| RateWindow.AgreeIffOrdered | src/xibalba_cortex/auth_middleware.py:95-107 | They do so for every selection of the calls under every limit if and only if the readings are in order. |
| RateWindow.SkewedBound | src/xibalba_cortex/auth_middleware.py:95-107 | If no reading of a principal lies more than e behind an earlier one, at most the limit is granted in any (t - 60 + e, t]. |
| RateWindow.WindowBound | src/xibalba_cortex/auth_middleware.py:95-107 | For readings in order, no principal is granted more than the limit in any (t - 60, t]. |
| RateWindow.KeepsShortenedIff | src/xibalba_cortex/auth_middleware.py:98-107 | From a limit of two on, all runs at most e late keep the bound in (t - 60 + d, t] if and only if d is at least e. |
| RateWindow.KeepsBoundIffOne | src/xibalba_cortex/auth_middleware.py:98-107 | Whatever order readings come in, the bound in (t - 60, t] holds for all runs if and only if the limit is one. |
| RateWindow.LateReadingExceedsLimit | src/xibalba_cortex/auth_middleware.py:98-107 | For every limit of two or more, a burst, one call a minute later and one that is e late exceed the limit in every window shortened by less than e. |

## Left out

- RateWindow.DecidesAsHistory: for readings in order; `AgreeIffOrdered` shows that no weaker condition on the readings does for every selection and limit.
- RateWindow.WindowBound: for readings in order; `KeepsBoundIffOne` and `KeepsShortenedIff` say what holds without.
- Lockout.AccountStore.IssueAccountSession: a salt that cannot be decoded, which matches nothing, and the normalisation of the email are not modelled.
- Lockout.LockoutBound: about logins one after the other through `issue_account_session` (`LoginRace` interleaves them); OAuth logins, password changes and resets, which clear the counter, are not among a run's events, and `verify_account_password` and `change_account_password` compare passwords without the lock.
- Enrollment.Home.RedeemCode: `_record`'s audit rows are not part of the model, and the two clock readings of the gate are taken not to go backwards within one call.
- TokenBucket.ConnectorRateLimiter.Wait: its rounds are given by a finite list of clock readings; nothing is claimed about how long it waits while others keep acquiring.
- ExchangeBuilder.Session.Build: the session's memories and events are given; the store lists at most 1000 memories of a session unless asked otherwise, and what `record_exchange` hashes into its chain is not modelled.
- DomainMerkle.VerifyDomainProof: siblings that are no list, and index texts that Python's `int` accepts, are not values of the model's proofs.
- CanonicalJson.RoundTrip: floats, non-string keys and lone surrogates are not values of the model.
- CanonicalJson.PrintRoundTrip: the same values are left out.
- CanonicalJson.PrintIffSame: the same values are left out.
- DocumentImport.ImportStore.ImportDocument: a memory is its key and text; source metadata, status and proposal runs are not modelled.
- ProvenanceVerifier.VerifyBundle: the bundle is four JSON values; values outside version 1 of the canonical encoding are not modelled.
- StorageMigration.InsertOne: database constraints other than primary and foreign keys are an arbitrary predicate, and column defaults an arbitrary function that keeps inserted values; `ManagedSchema` gives the schema's own, without column types.
- Registrations.Registry.SyncAccountRegistrations: each transaction is one atomic step; the token update follows at once.
- Rounding, of floats and by `round`.
- Closeness, diameter, degree and eigenvector centrality, cosine similarity and the eigen-solver.
- Version 2 of the canonical encoding.
- Upper-case hex and white space in hex texts; digests are bytes.
- Parsing of documents' bytes, display names, media types and structural proposals of an import.
- SHA-256, scrypt, Ed25519 and fingerprints, which are arbitrary functions.
- The graph store, exports, telemetry, the web, MCP and gRPC servers, runtime adapters, mail, OAuth and backups.
