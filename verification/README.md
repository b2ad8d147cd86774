# Merkle Evidence Vault: a verified model

This project models three parts of the Merkle Evidence Vault and proves what they keep, for all inputs, all runs and
all interleavings. `dafny verify dfyconfig.toml` checks it.

**The tree and its proofs.** `Powers`, `Hashing`, `TreeHashing` and `MerkleTree` model the engine's tree: leaf and
node hashes are free terms, so distinct inputs have distinct digests; the two prefixes of section 2.1 of RFC 6962 are
two constructors, and a third stands for path entries that are the hash of nothing known. `AuditPaths` holds the
central theorem: climbing from a data leaf with any sequence of sides and any path ends in the root of a tree exactly
when the data is one of its leaves, the sides are those of that leaf and the path is its audit path (section 2.1.1 of
RFC 6962). Everything about a verifier then reduces to the sides it chooses.

- `InclusionProofs` and `RoundTrips` treat the compiled verifier, which takes the sides from the bits of the index and
  never reads the tree size. Its round trip therefore fails for part of the leaves; the exact domain is proved in two
  forms: the path has the full length ceil(log2 n), and a condition on the perfect blocks of the size. The last leaf
  of a tree that is not perfect never round-trips. On perfect trees binding is full; for every size membership holds,
  and the shown leaf is the claimed one exactly for an index inside the tree and a path of full length.
- `SizedProofs` treats the verifier of the design record, which follows the size. It round-trips for every size. It
  checks neither the length of the path nor that the index is inside the tree: an accepted proof shows the claimed
  leaf exactly when both hold, with an example for each.
- `Evidence` and `SignedTreeHeads` treat the bytes of a leaf and of a signed tree head.

**The vault.** `VaultModel` has the shared variables and the critical sections of the handlers, `VaultHandler` the
class that performs them, and `VaultRuns` the runs in which ingests, committer passes and any number of checkpoint
requests interleave wherever a handler releases the mutex. The shipped server never initialises a store
(services/vault-api/cmd/server/main.go:15-48), so memory-only mode is the base model. Overlapping checkpoint requests
can publish sizes out of order and can replace a signature that was already answered; the model shows both, proves
exactly from which states a stored checkpoint can still change, and what holds without overlap. `Stores` proves that
the database store refines the memory store, and `CachedVault` treats the handlers with an initialised store: the
local map agrees with it until an ingest overlaps a committer pass, in which case a second record can get index 0.
`Texts` holds the library functions that the handlers apply to paths, `Keys` the signing keys.

**The metrics.** `RequestMetrics` lets any number of requests interleave their atomic updates. One invariant ties
every counter to the sum of what the requests have contributed; conservation (`CounterSums`), the histogram and the
consistency of a rendered page (`Histogram`) follow, and `Middleware` holds the class. Bucket bounds are integer
microseconds, proved equivalent to the bounds in seconds.

Two facts differ from the wording around the code: the test-side path generator calls itself a mirror of the compiled
verifier (tests/property/merkle_property_test.go:159), which does not accept all of its paths, and the memory store
forgets an index when an id is saved again while the database ignores the second save.

## Model

| member | source | states |
|---|---|---|
| Powers.CeilLog2Least | tests/property/merkle_property_test.go:177-188 | ceilLog2 is the least h with n <= 2^h |
| Powers.ComputeCeilLog2 | tests/property/merkle_property_test.go:177-188 | the shift loop returns that least exponent |
| Powers.SplitPoint | services/merkle-engine/src/tree.rs:54-58 | for n >= 2 the split k is a power of two with 0 < k < n <= 2k, so both parts are smaller and not empty; 0 below 2 |
| Powers.SplitPointUnique | services/merkle-engine/src/tree.rs:54-58 | among powers of two only the split point satisfies k < n <= 2k |
| Powers.LargestPow2LessThan | services/merkle-engine/src/tree.rs:54-58 | on 64-bit words the loop terminates without losing a bit up to 2^63 and returns the split point |
| Powers.ShiftLoopExits | services/merkle-engine/src/tree.rs:54-58 | the loop can leave its guard exactly for n <= 2^63 |
| TreeHashing.SubtreeIsTreeOfSlice | services/merkle-engine/src/tree.rs:46-52 | the range recursion equals the tree hash of RFC 6962 on the slice |
| TreeHashing.PrefixStable | tests/property/merkle_property_test.go:57-75 | appending changes no earlier range; the hash of range [0, n) of a larger tree is the root of the n-leaf prefix |
| TreeHashing.TreeHashInjective | services/merkle-engine/src/tree.rs:46-52 | equal roots of data leaves mean equal leaf lists, sizes included |
| TreeHashing.ComputeSubtreeHash | services/merkle-engine/src/tree.rs:46-52 | computes the tree hash with exactly n - 1 node hashes and recursion depth ceil(log2 n) |
| TreeHashing.HalvesAreShallower | services/merkle-engine/src/tree.rs:46-52 | the left part of a split needs exactly one level less, the right part at least one less |
| MerkleTree.Tree.constructor | services/merkle-engine/src/tree.rs:31-31 | a new tree has no payloads |
| MerkleTree.Tree.Append | services/merkle-engine/src/tree.rs:33-37 | adds one data leaf at the end and returns its index |
| MerkleTree.Tree.Root | services/merkle-engine/src/tree.rs:39-43 | the lower-case hexadecimal text of the tree hash of all payloads, empty text for none |
| MerkleTree.TreeHashIff | services/merkle-engine/src/tree.rs:46-58 | the tree hash is the one term whose leaves are the payloads from left to right and whose every left part is perfect and no smaller than the right part |
| MerkleTree.RootTextInjective | tests/property/merkle_property_test.go:92-157 | two trees show the same root exactly when the same payloads were appended in the same order |
| MerkleTree.ReplayedPrefix | services/merkle-engine/src/lib.rs:27-48 | replaying a payload prefix gives the hash of that range in the larger tree |
| AuditPaths.InclusionIsAuditPath | tests/property/merkle_property_test.go:161-175 | the path generator on a range is the audit path of the slice |
| AuditPaths.PathLength | tests/property/merkle_property_test.go:123-137 | path length equals leaf depth, is at most ceil(log2 n), and leaf 0 reaches the bound |
| AuditPaths.LeafSidesInjective | tests/property/merkle_property_test.go:161-175 | different leaves of a tree have different ways to the root |
| AuditPaths.OpeningReachesRoot | tests/property/merkle_property_test.go:161-175 | a generated path with the sides of its leaf leads to the root |
| AuditPaths.RootHasOpening | services/merkle-engine/src/proof.rs:11-23 | a climb that ends in the root started at a leaf and used its sides and its path |
| AuditPaths.ClimbReachesRootIff | services/merkle-engine/src/proof.rs:11-23 | both directions, for every leaf list, sides and path |
| AuditPaths.ClimbShowsLeaf | services/merkle-engine/src/proof.rs:11-23 | the same against the root text of appended payloads; nothing reaches the empty text |
| InclusionProofs.InclusionProof.Verify | services/merkle-engine/src/proof.rs:11-23 | accepted exactly when the given text is the lower-case one of the hash folded up by the lowest bit of the halved index |
| InclusionProofs.FoldIsClimb | services/merkle-engine/src/proof.rs:13-21 | that fold is the climb along the index bits |
| InclusionProofs.AcceptedExactly | services/merkle-engine/src/proof.rs:11-23 | for every proof and tree: accepted exactly when it shows a leaf whose way the index bits spell |
| InclusionProofs.AcceptedDataWasAppended | services/merkle-engine/src/proof.rs:11-23 | membership: accepted data was appended |
| InclusionProofs.PerfectSides | services/merkle-engine/src/proof.rs:14-21 | with 2^h leaves the index bits spell the way of every leaf |
| InclusionProofs.IndexSidesDetermineLowBits | services/merkle-engine/src/proof.rs:13-21 | h index bits agree exactly when the indices agree modulo 2^h |
| InclusionProofs.PerfectTreeBinding | services/merkle-engine/src/proof.rs:11-23 | with 2^h leaves: accepted exactly for h path nodes, the leaf at index mod 2^h and its generated path |
| RoundTrips.IndexSpellsWayIff | services/merkle-engine/src/proof.rs:13-21 | the index bits spell the way of a leaf exactly when it stands at depth ceil(log2 n) |
| RoundTrips.WrongSideMissesRoot | services/merkle-engine/src/proof.rs:11-23 | the generated path with the index bits reaches the root only if every side is right |
| RoundTrips.RoundTripExactly | services/merkle-engine/src/proof.rs:11-23 | a generated proof is accepted exactly when its path has length ceil(log2 n) |
| RoundTrips.BlocksOfSize | services/merkle-engine/src/tree.rs:46-52 | the blocks of n are its binary digits: descending exponents that add up to n |
| RoundTrips.BlockOfCovers | services/merkle-engine/src/tree.rs:46-52 | the block of a leaf is the one whose range contains its index |
| RoundTrips.DepthInBlock | tests/property/merkle_property_test.go:161-175 | the depth of a leaf is its block's exponent plus the joins right of and left of it |
| RoundTrips.RoundTripBlocks | services/merkle-engine/src/proof.rs:11-23 | accepted exactly when the leaf's block is the only one, or not the last with no exponent skipped down to it |
| RoundTrips.FirstBlockRoundTrips | services/merkle-engine/src/proof.rs:11-23 | every index below the split point is accepted |
| RoundTrips.LastLeafRoundTripsIffPerfect | services/merkle-engine/src/proof.rs:11-23 | the last leaf of a tree is accepted exactly when the size is a power of two |
| RoundTrips.ThirdOfThreeIsRejected | services/merkle-engine/src/proof.rs:11-23 | the generated proof for the last of three leaves is rejected |
| RoundTrips.AllRoundTripIffPerfect | services/merkle-engine/src/proof.rs:11-23 | all leaves are accepted exactly when n is a power of two |
| RoundTrips.ShownLeafIsClaimedIff | services/merkle-engine/src/proof.rs:11-23 | for every size, index and path: the leaf an accepted proof shows is the claimed one exactly when the index is inside the tree and the path has length ceil(log2 n) |
| SizedProofs.SizedProof.Verify | merkle.md:964-991 | every verdict in terms of the texts: bad hexadecimal, wrong length or hash, or accepted by the fold, whatever the letter case |
| SizedProofs.OutcomeIff | merkle.md:964-991 | the same as a lemma: a bad root text or a first bad path text that is not hexadecimal, acceptance exactly by the fold, and nothing else |
| SizedProofs.SizedFoldIsClimb | merkle.md:976-984 | halving index and size, with size + 1 on a 64-bit word, is the climb along the sides that they name |
| SizedProofs.FirstErrorDecides | merkle.md:971-974 | the first text that is not a digest decides the error of the whole path |
| SizedProofs.PairFirst | merkle.md:1061-1075 | a leaf with a neighbour joins it first and then goes the way of the pair in the tree of half the size |
| SizedProofs.LastLeafAlwaysRight | merkle.md:1061-1075 | the last leaf stands right of every sibling |
| SizedProofs.LastStaysLast | merkle.md:976-984 | once idx + 1 equals size, halving keeps it so |
| SizedProofs.SizedSidesAreLeafSides | merkle.md:976-984 | index and size name the way of every leaf of every tree |
| SizedProofs.SizedAcceptedExactly | merkle.md:964-991 | for every index, size and path: accepted exactly when a leaf is shown along the named sides |
| SizedProofs.SizedRoundTrip | merkle.md:946-991 | generation succeeds exactly for an index inside the tree and otherwise reports it out of range; the proof carries index, size and lower-case texts and is accepted for the data of its leaf only |
| SizedProofs.SizedBinding | merkle.md:964-991 | with the true size, for every claimed index: accepted with an index inside the tree and a path of generated length exactly for the data at this index and its path |
| SizedProofs.ShownLeafIsClaimedIff | merkle.md:964-991 | for every claimed index: the leaf an accepted proof shows is the claimed one exactly when the index is inside the tree and the path has the generated length |
| SizedProofs.IndexOutsideIsAccepted | merkle.md:964-991 | two leaves: a one-node path claiming index 3 is accepted for the data of leaf 1 |
| SizedProofs.ShorterPathShowsOtherLeaf | merkle.md:964-991 | three leaves: a one-node path claiming index 1 is accepted for the data of leaf 2 |
| Evidence.LeafData | services/vault-api/domain/evidence/types.go:33-37 | the content hash, a colon and the content type |
| Evidence.LeafDataInjective | services/vault-api/domain/evidence/types.go:33-37 | the leaf bytes determine content hash and content type |
| Evidence.RootNamesEvidence | services/vault-api/domain/evidence/types.go:33-37 | equal roots exactly for equal sequences of content hash and content type |
| SignedTreeHeads.BigEndianByte | services/merkle-engine/src/checkpoint.rs:24-24 | byte i carries the bits above the bytes after it: most significant byte first |
| SignedTreeHeads.BigEndianInjective | services/merkle-engine/src/checkpoint.rs:24-24 | the eight bytes determine the tree size |
| SignedTreeHeads.SthMessageInjective | services/merkle-engine/src/checkpoint.rs:23-25 | the signed message determines tree size and root |
| SignedTreeHeads.SignSth | services/merkle-engine/src/checkpoint.rs:22-37 | the signature is valid for the returned key, size and root and for no others |
| VaultModel.IngestKeeps | services/vault-api/handler/ingest.go:73-77 | an ingest keeps the vault consistent, takes nothing back and adds one pending record |
| VaultModel.CommitKeeps | services/vault-api/handler/ingest.go:346-355 | a pass keeps the vault consistent and lowers the pending records by one, if there are any |
| VaultModel.PublishKeeps | services/vault-api/handler/ingest.go:238-243 | publishing keeps order and history in agreement and takes nothing back |
| VaultModel.ScanFindsNext | services/vault-api/handler/ingest.go:188-200 | the scan of the largest index returns the commit counter |
| VaultModel.Conservation | services/vault-api/handler/ingest.go:72-77 | committed plus pending records equal all records equal the audit entries |
| VaultModel.PublishKeepsIncreasingIff | services/vault-api/handler/ingest.go:238-243 | publishing keeps the order increasing exactly for a known size or one above the latest |
| VaultModel.VerdictIff | services/vault-api/handler/ingest.go:258-297 | for every key setting and checkpoint: no verdict on the signature without a usable key, a report for a signature that is not base64, true exactly for the signature of this size and root |
| VaultModel.EntriesAreStored | services/vault-api/handler/ingest.go:131-137 | a history lists exactly the stored checkpoints, each whole |
| VaultHandler.Vault.constructor | services/vault-api/handler/ingest.go:51-55 | the vault starts empty and consistent |
| VaultHandler.Vault.Ingest | services/vault-api/handler/ingest.go:58-88 | a bad body changes nothing; otherwise one pending record and its audit entry, and no other variable changes |
| VaultHandler.Vault.CommitNext | services/vault-api/handler/ingest.go:346-355 | one pending record, in any map order, gets the next index; nothing changes when none is pending |
| VaultHandler.Vault.ScanTreeSize | services/vault-api/handler/ingest.go:188-200 | the loop returns one more than the largest index, which is the commit counter |
| VaultHandler.Vault.PublishCheckpoint | services/vault-api/handler/ingest.go:238-243 | stores the checkpoint and appends its size once; nothing else changes |
| VaultHandler.Vault.BuildLatestCheckpoint | services/vault-api/handler/ingest.go:183-245 | undisturbed: refused without a role, not found before the first commit, else the checkpoint of the current size, made at most once with the answered signature and key reference or the default of each |
| VaultHandler.AnswerIsUsed | services/vault-api/handler/ingest.go:212-237 | the made checkpoint is the only one of its size with the zero root, each answered field and the default of each missing one |
| VaultHandler.Vault.ReadHistory | services/vault-api/handler/ingest.go:131-137 | the backward loop lists the stored checkpoints, whole, latest first |
| VaultHandler.Vault.VerifyByTreeSize | services/vault-api/handler/ingest.go:154-181 | which status is returned when, for every path, and the verdict on the stored checkpoint: 503 without a usable key |
| VaultHandler.Vault.VerifyLatest | services/vault-api/handler/ingest.go:144-151 | the verdict on the checkpoint of the current size; a new one verifies exactly when the service answered with a signature under the configured key |
| VaultHandler.PathNamesSizeIff | services/vault-api/handler/ingest.go:159-170 | a path names size n exactly when it is the prefix, the suffix and between them, among any slashes, the digits of n with leading zeros and one leading plus sign allowed, up to 2^63 - 1; other paths are those without the prefix or the suffix |
| Texts.ParsedIff | services/vault-api/handler/ingest.go:167-168 | which texts are read as which 64-bit number |
| VaultHandler.HasCheckpointAccess | services/vault-api/handler/ingest.go:247-255 | access exactly for auditors and ingesters |
| VaultRuns.StepKeepsInvariant | services/vault-api/handler/ingest.go:183-245 | every critical section of every interleaved request keeps the invariant and takes nothing back |
| VaultRuns.RunKeepsInvariant | services/vault-api/handler/ingest.go:183-245 | so does every run |
| VaultRuns.IndicesInEveryState | services/vault-api/handler/ingest.go:188-200 | in every reachable state the indices are exactly 0 .. next - 1, scans find next, and records are conserved |
| VaultRuns.CheckpointsInEveryState | services/vault-api/handler/ingest.go:205-243 | in every reachable state the order lists each key once, entries carry their key as size, sizes are between 1 and the committed records, and a history read now lists exactly the stored checkpoints |
| VaultRuns.NothingIsTakenBack | services/vault-api/handler/ingest.go:205-243 | indices, keys, sizes and roots of a reachable state stay in every later state |
| VaultRuns.Drains | services/vault-api/handler/ingest.go:346-355 | without ingests p passes commit p pending records, whatever else runs |
| VaultRuns.RequestGetsThrough | services/vault-api/handler/ingest.go:183-245 | from every state a request in flight gets to its end in at most five critical sections, without help from and without touching any other |
| VaultRuns.SignedRunVerifies | services/vault-api/handler/ingest.go:212-290 | in every run, every stored checkpoint verifies under a key if the signing service always signs with it, and none does if it never signs |
| VaultRuns.OverlapCanDisorder | services/vault-api/handler/ingest.go:188-243 | a run of two overlapping requests whose order is 2, 1 |
| VaultRuns.SecondMissIsReachable | services/vault-api/handler/ingest.go:188-210 | a run after which two requests have both missed the lookup of size 1 |
| VaultRuns.OverlapCanRewrite | services/vault-api/handler/ingest.go:205-243 | two requests that both missed one size: the later reply replaces the stored checkpoint |
| VaultRuns.CanChangeIff | services/vault-api/handler/ingest.go:205-243 | from any state, over all runs: a stored checkpoint can still change exactly when some request in flight has missed the lookup of its size and does not hold the very checkpoint that is stored |
| VaultRuns.SerialPublish | services/vault-api/handler/ingest.go:238-243 | without overlap a published size is above every key, so nothing is overwritten |
| VaultRuns.SerialRunKeeps | services/vault-api/handler/ingest.go:183-245 | without overlap the order stays increasing and every checkpoint is written once, signature included |
| VaultRuns.SerialCheckpointsAreFinal | services/vault-api/handler/ingest.go:205-243 | what a run without overlap has stored is never changed by any continuation, overlapping requests included |
| VaultRuns.HistoryNewestFirst | services/vault-api/handler/ingest.go:124-140 | without overlap a history lists the stored checkpoints by strictly decreasing sizes from the scanned one, and is empty exactly when nothing was committed |
| VaultRuns.SerialHistory | services/vault-api/handler/ingest.go:124-140 | the same for every such run from the start |
| VaultRuns.UndisturbedHistory | services/vault-api/handler/ingest.go:124-140 | an undisturbed history request gets through, changes what an undisturbed build changes, and reads the current tree size first, nothing exactly when nothing was committed |
| Stores.MemStore.constructor | services/vault-api/store/store.go:78-80 | the memory store starts with an empty map and counter 0 |
| Stores.MemStore.SaveEvidence | services/vault-api/store/store.go:82-87 | the entry becomes pending, whether or not it existed |
| Stores.MemStore.AssignNextPendingLeaf | services/vault-api/store/store.go:89-101 | some pending entry gets the counter; none exactly when none is pending |
| Stores.MemStore.GetEvidence | services/vault-api/store/store.go:103-111 | the entry, or not found |
| Stores.PgStore.SaveEvidence | services/vault-api/store/store.go:155-158 | the id is in the table afterwards and no earlier row changes: a known id changes nothing, a new one adds one pending row at the end |
| Stores.PgStore.AssignNextPendingLeaf | services/vault-api/store/store.go:160-193 | the earliest pending row gets max + 1; none exactly when no row is pending |
| Stores.NextLeafAfterUpdate | services/vault-api/store/store.go:173-184 | max + 1 grows by one with every assignment |
| Stores.SaveRefinesIff | services/vault-api/store/store.go:82-87 | the two stores treat a save alike exactly when the id has no index yet |
| Stores.StepRefines | services/vault-api/store/store.go:155-193 | every serial transaction is a call of the memory store with the same answer |
| Stores.PgRunIsMemRun | services/vault-api/store/store.go:155-193 | every serial run from an empty table is a run of the memory store, and the counter is max + 1 throughout |
| Stores.PickInOrder | services/vault-api/store/store.go:168-184 | among rows in order the picked row is the one whose position is the next index |
| Stores.FirstInFirstOut | services/vault-api/store/store.go:155-193 | with advancing timestamps row i gets index i and no later row is committed before it |
| CachedVault.StepKeepsAgreement | services/vault-api/handler/ingest.go:332-357 | an interleaved step loses the agreement of map and store exactly when it is an assigning fallback |
| CachedVault.RunKeepsAgreement | services/vault-api/handler/ingest.go:332-357 | agreement in every run as long as the local counter was not used |
| CachedVault.FallbackAssignsIff | services/vault-api/handler/ingest.go:336-355 | the first local assignment happens exactly when a local record was not in the store when it was asked |
| CachedVault.AgreementCanBreakIff | services/vault-api/handler/ingest.go:332-357 | over all runs from the start in which the local counter is unused: the next step can break the agreement exactly when the store had nothing pending and some local record was not in it when it was asked |
| CachedVault.FallbacksInTurn | services/vault-api/handler/ingest.go:346-355 | in every run the local assignments get 0, 1, 2, ... in turn, whatever the store has assigned |
| CachedVault.SerialRunsAgree | services/vault-api/handler/ingest.go:332-357 | if no ingest overlaps a pass the local counter is never used and the map equals the store between passes |
| CachedVault.SerialRunsFromStart | services/vault-api/handler/ingest.go:332-357 | the same for every such run from the empty vault |
| CachedVault.OverlapCanDisagree | services/vault-api/handler/ingest.go:73-82 | an overlapping ingest: two records with index 0, one of which later changes to 1 |
| RequestMetrics.ProofOperationIff | services/vault-api/middleware/metrics.go:145-153 | which paths count as proof and as ingest requests, the degenerate proof path included |
| RequestMetrics.ClassifyStatusClass | services/vault-api/middleware/metrics.go:155-166 | the class names the first digit of 200 to 599, others go to the nearest class |
| RequestMetrics.BoundsAreSeconds | services/vault-api/middleware/metrics.go:24-24 | comparing a duration in seconds with a bound is comparing the microseconds |
| Middleware.NewBucketCounters | services/vault-api/middleware/metrics.go:168-174 | one zero counter per bound |
| RequestMetrics.UpdateReads | services/vault-api/middleware/metrics.go:42-66 | an atomic update adds to each meter what the request newly contributes |
| RequestMetrics.RunKeepsInvariant | services/vault-api/middleware/metrics.go:42-66 | in every interleaving every counter is the sum of the contributions of the requests |
| CounterSums.SumAfterAdd | services/vault-api/middleware/metrics.go:47-59 | adding under one key adds to the sum over all keys; creating a zero counter does not |
| CounterSums.Conservation | services/vault-api/middleware/metrics.go:42-59 | in every state each counter family sums to the next plus the requests between the two updates, and the durations likewise |
| CounterSums.QuiescentSums | services/vault-api/middleware/metrics.go:42-59 | with no request in flight all four counts are equal and durations by operation sum to the global duration |
| CounterSums.OperationConservation | services/vault-api/middleware/metrics.go:50-59 | the status classes of one operation sum to its count plus its requests between the updates |
| Histogram.BucketsBelowCount | services/vault-api/middleware/metrics.go:58-66 | in every state an operation with buckets has a count, and no bucket exceeds it |
| Histogram.PageIsConsistent | services/vault-api/middleware/metrics.go:110-121 | a page that reads buckets first and the count later finds the count and shows no bucket above it |
| Histogram.QuiescentHistogram | services/vault-api/middleware/metrics.go:58-66 | with no request in flight bucket i is the number of durations up to bound i in seconds, and buckets do not decrease |
| Histogram.BucketExceedsNextIff | services/vault-api/middleware/metrics.go:61-66 | in flight, exactly when a bucket exceeds the next one |
| Histogram.BucketsCanDecrease | services/vault-api/middleware/metrics.go:61-66 | a reachable state in which it does |
| Middleware.Metrics.constructor | services/vault-api/middleware/metrics.go:13-22 | all counters start empty |
| Middleware.Metrics.Record | services/vault-api/middleware/metrics.go:42-66 | undisturbed, a request adds its finished contribution to every meter and nothing else; every map entry it changes is named |
| Middleware.Metrics.ObserveDuration | services/vault-api/middleware/metrics.go:61-66 | the loop raises exactly the buckets of the operation whose bound in seconds the duration does not exceed |

## Left out

- MerkleTree.Tree.Root: requires at most 2^63 leaves, because above that size the split loop of the source does not terminate.
- Powers.LargestPow2LessThan: requires n up to 2^63 for the same reason; ShiftLoopExits shows the bound is exact.
- SizedProofs.SizedSidesAreLeafSides: leaves out, like the theorems built on it, sizes from 2^64 - 1 on, where size + 1 wraps around; no tree is that large.
- SizedProofs.SizedProof.Verify: follows the Rust listing; the Go listing pads or cuts path texts of other lengths instead of refusing them.
- VaultHandler.Vault.BuildLatestCheckpoint: speaks of a call that nothing interrupts; interrupted calls are the runs of VaultRuns.
- Middleware.Metrics.Record: speaks of a request that is recorded alone; concurrent ones are the runs of RequestMetrics.
- Stores.PgStore.AssignNextPendingLeaf: serial transactions; a database error and a pending row that another transaction has locked are left out, because locking and isolation are the database's.
- Records are values in a map: the source shares references to them, so a handler that reads an index after releasing the mutex is not modelled.
- SHA-256, Ed25519, base64 and JSON: digests and signatures are free terms, a payload is the pair it encodes.
- 64-bit wrap-around of indices, counters and durations: fewer than 2^63 events are assumed.
- Ids are taken to be new at every ingest, as the uuid library promises.
- Store errors, which would leave a record to the local fallback.
- Audit listing, the constant root and empty path of GetProof, the role check of the audit page.
- JWT middleware, startup configuration, bundle manifest, frontend, scripts and stub clients: case analysis or library calls.
- Consistency proofs: only an interface is compiled, and the sketch in the design record recurses to the right without shifting the leaves.
- Rendering of the metrics page beyond the order of its reads; the average gauge.
- Operation and status class names are enumerations, and their combined key is a pair instead of a joined text.
