# Eld verification model

A Dafny model of the Eld storage chain: the capacity-proof protocol, the slot store behind it, the
committed chain state, the paged and rate-limited API, and the text codecs. Each module states what
the code promises as for-all theorems over inputs, runs or reachable states.

Check everything with `dafny verify dfyconfig.toml`.

## Main results

- **Capacity proofs.** The incremental Merkle update equals a full rebuild. Verification accepts
  exactly the committed leaf with its own proof, for proofs of any length and any index. A challenge
  response is accepted exactly when it is honest. Hashing assumptions are local: no two different
  pairs *actually hashed* collide. Injective, domain-separated hashes satisfy them.
- **Slot store.** File, slot table, content index and tree agree after every run of posts, garbage
  collection and restarts. The store refines a bounded map, every read returns what the map holds, and
  every challenge is passed. Where an operation can break agreement, the exact condition is proved.
- **Chain state.** A block commit is all or nothing, and trie and indexes kept incrementally equal a
  full scan of the committed cache. A restored snapshot gives the state back, and reproduces the app
  hash exactly when the failure counts agree.
- **API.** Following cursors lists everything once, also while the list grows. The pruned rate-limit
  log gives the verdicts of the full history.
- **Codecs.** Paths, epoch names and hex round-trip, with the exact accepted language of each parser.

## Modules

| files | part of the system |
|---|---|
| `Prelude`, `Text` | shared vocabulary |
| `MerkleTree`, `MerkleBinding` | tree, proofs, binding |
| `CapacityProof`, `ChallengeValidator`, `ChallengeDerivation` | challenges and their validation |
| `Slots`, `CapacityStore`, `CapacityHealth`, `CapacityRuns`, `CapacityAllocation`, `CapacityManager`, `SlotStats` | slot allocator and capacity manager |
| `ChainState`, `BlockCommit`, `AppHash`, `ValidatorSet`, `AppState` | envelope, commit, app hash, validator lists, snapshots |
| `CursorPaging`, `NamespaceRules`, `NamespaceListing`, `EpochListing`, `RateLimiter` | API |
| `CadoPaths`, `Hex`, `Pinboard`, `Coins` | paths and text |

## Where the code differs from its evident intent

The model follows the code; each difference is a theorem with its exact boundary.

- Searching for zero open slots returns one (`Slots.FindingNoneYieldsOne`).
- A reused id or a failing placement breaks slot bookkeeping (`Slots.MarkKeepsAgreementExactly`,
  `CapacityHealth.StoreKeepsHealthExactly`), and a store that fails half-way makes the provider fail
  its own challenges (`CapacityRuns.HalfStorePassesExactly`, `CapacityRuns.OneByteLeftBehind`).
- The app hash covers failure counts that the snapshot omits (`AppState.AppHashRestoredExactly`).
- The state root sees exactly the paths and the first version of a mutable object
  (`ChainState.TriesEqualExactly`), so two balances share one app hash (`AppState.TwoBalancesOneAppHash`).
- `Coin::from_string` reads nine decimals where the printer writes six (`Coins.RoundTripExactly`). In
  builds without overflow checks, and only there, it also wraps at 128 bits (`Coins.ParsesRightExactly`);
  with checks those inputs panic instead.
- Namespaces beginning with `eld` cannot be addressed (`Pinboard.PathsLeadBackExactly`).

## Model

| member | source | states |
|---|---|---|
| `MerkleTree.LevelsIsTree` | common/src/capacity/capacity_proof_merkle_tree.rs:16-43 | Building level by level yields a tree: each level is the pairwise hash of the one below, an odd last node paired with itself, the top level a single root. |
| `MerkleTree.TreeIsLevels` | common/src/capacity/capacity_proof_merkle_tree.rs:16-43 | Conversely any such tree is the one built from its bottom level, so a tree is determined by its leaves. |
| `MerkleTree.CapacityProofMerkleTree.Build` | common/src/capacity/capacity_proof_merkle_tree.rs:16-43 | The build loop over a non-empty leaf list produces exactly that tree and its root. |
| `MerkleTree.CapacityProofMerkleTree.UpdateLeaves` | common/src/capacity/capacity_proof_merkle_tree.rs:63-153 | For every in-bounds update list, repeated indices included (last write wins), the incremental update leaves leaves, all levels and root equal to a full build of the updated leaves. |
| `MerkleTree.CapacityProofMerkleTree.WriteLeaves` | common/src/capacity/capacity_proof_merkle_tree.rs:69-84 | Writing the updates one after another gives the overwritten leaf list in both places it is kept. |
| `MerkleTree.CapacityProofMerkleTree.RecomputeParents` | common/src/capacity/capacity_proof_merkle_tree.rs:87-134 | Whatever order the dirty set is visited in, the recomputed parents are exactly those of dirty nodes, with their correct hashes. |
| `MerkleTree.CapacityProofMerkleTree.Propagate` | common/src/capacity/capacity_proof_merkle_tree.rs:87-153 | Recomputing only dirty parents, level by level, restores the whole tree. |
| `MerkleTree.CapacityProofMerkleTree.GenerateProof` | common/src/capacity/capacity_proof_merkle_tree.rs:156-185 | The proof is the list of siblings on the path from the leaf to the root. |
| `MerkleTree.VerifyProof` | common/src/capacity/capacity_proof_merkle_tree.rs:188-207 | Verification accepts exactly when folding the proof over the leaf hash, by the bits of the index, gives the root. |
| `MerkleBinding.HonestProofFolds` | common/src/capacity/capacity_proof_merkle_tree.rs:156-207 | Completeness at every leaf count: the generated proof of any leaf folds to the root. |
| `MerkleBinding.PaddingKeepsRoot` | common/src/capacity/capacity_proof_merkle_tree.rs:25-41 | The odd-node rule makes the tree that of a leaf list padded to a power of two: same root, same depth. |
| `MerkleBinding.RootBindsLeaves` | common/src/capacity/capacity_proof_merkle_tree.rs:25-41 | Equal roots of equally long leaf lists mean equal lists, unless two different pairs hashed in the two trees collide. |
| `MerkleBinding.RootBindsDepth` | common/src/capacity/capacity_proof_merkle_tree.rs:25-41 | Equal roots also mean equal depth, when leaves are not themselves pair hashes. |
| `MerkleBinding.RootBindsPaddedLeaves` | common/src/capacity/capacity_proof_merkle_tree.rs:25-41 | Without collisions two leaf lists of any lengths have the same root if and only if their paddings are equal. |
| `MerkleBinding.RepeatedLastLeafSharesRoot` | common/src/capacity/capacity_proof_merkle_tree.rs:25-41 | The other side of the boundary: an odd list of at least three leaves has the root of that list with its last leaf repeated. |
| `MerkleBinding.FoldLength` | common/src/capacity/capacity_proof_merkle_tree.rs:188-207 | Although no length is checked, a proof that verifies has exactly the depth of the tree. |
| `MerkleBinding.VerifiesExactly` | common/src/capacity/capacity_proof_merkle_tree.rs:188-207 | For any leaf hash, proof of any length and any index: verification passes if and only if the hash is the padded leaf at the index reduced to the tree depth and the proof is that leaf's own. |
| `MerkleBinding.PaddingKeepsProofs` | common/src/capacity/capacity_proof_merkle_tree.rs:156-185 | For indices within the leaf list, the padded leaf and its proof are the original ones. |
| `MerkleBinding.RootSplits` | common/src/capacity/capacity_proof_merkle_tree.rs:25-41 | Seen from the top: over a full row the root hashes the root of the left half, then that of the right. |
| `MerkleTree.LastWriteWins` | common/src/capacity/capacity_proof_merkle_tree.rs:69-84 | Among repeated updates of one leaf the last decides. |
| `ChallengeValidator.JudgeRecord` | node_app/src/capacity/challenge_validator.rs:49-113 | One record passes exactly when index, chunk hash, Merkle proof and zeroed open slot are right; the first failing test gives the error. |
| `ChallengeValidator.ValidateChallengeProof` | node_app/src/capacity/challenge_validator.rs:31-120 | The response is valid exactly when the counts match and every record passes; errors name every bad record once, in order, and no good one. |
| `ChallengeValidator.HonestResponseAccepted` | node_app/src/capacity/challenge_validator.rs:31-120 | Honest answers to any in-range challenge are accepted at any chunk count. |
| `ChallengeValidator.AcceptedExactlyHonest` | node_app/src/capacity/challenge_validator.rs:31-120 | Soundness and completeness: unless a hash collision shows up, a response is accepted if and only if each record carries the chunk committed at its index and the tree's own proof for it. |
| `ChallengeValidator.AcceptedRecordHonest` | node_app/src/capacity/challenge_validator.rs:49-113 | A single accepted record is honest, whatever the others are. |
| `ChallengeValidator.IdealHashesNeverCollide` | common/src/capacity/slot_allocator.rs:457-461 | Injective pair and chunk hashes with disjoint ranges, as the domain tags intend, satisfy the no-collision hypothesis for every response. |
| `ChallengeValidator.IdealHashesExist` | common/src/capacity/capacity_proof_merkle_tree.rs:209-216 | Such hashes exist, so the hypothesis is not empty. |
| `ChallengeDerivation.SelectChallengeChunkIndices` | common/src/capacity_challenge.rs:23-50 | For every shuffle the selected indices are distinct, below the chunk count, min(chunks per challenge, chunk count) in number, and all of them when enough are asked for. |
| `ChallengeDerivation.Shuffle` | common/src/capacity_challenge.rs:45-48 | Swapping in place computes the composed swaps. |
| `ChallengeDerivation.SwapsPermute` | common/src/capacity_challenge.rs:45-48 | Any list of swaps leaves a permutation of the indices. |
| `ChallengeDerivation.EveryOrderIsDrawn` | common/src/capacity_challenge.rs:45-48 | Every order of the chunks is the outcome of some swaps, and its first k entries are then the challenge of size k: any challenge can be asked. |
| `ChallengeDerivation.AnyChunkCanBeAsked` | common/src/capacity_challenge.rs:45-48 | A single swap brings any chunk to the front. |
| `ChallengeDerivation.ComputeChallengeId` | common/src/capacity_challenge.rs:59-76 | The hasher is fed exactly the challenge-id preimage. |
| `ChallengeDerivation.ChallengeIdPreimageInjective` | common/src/capacity_challenge.rs:59-76 | Different validators, providers, heights or index lists give different preimages. |
| `ChallengeDerivation.SeedPreimageInjective` | common/src/capacity_challenge.rs:36-43 | Different epochs, providers, heights or validators give different seed preimages. |
| `ChallengeDerivation.PreimagesDisjoint` | common/src/capacity_challenge.rs:23-76 | No selection seed preimage is a challenge-id preimage. |
| `ChallengeDerivation.SeedLayout` | common/src/capacity_challenge.rs:36-43 | Domain tag, epoch, provider, height and validator of the seed, each at its byte offsets and with its value. |
| `ChallengeDerivation.ChallengeIdLayout` | common/src/capacity_challenge.rs:59-72 | Validator, provider, height and index list of the identifier, each at its byte offsets. |
| `ChallengeDerivation.IndexBytesLayout` | common/src/capacity_challenge.rs:68-71 | Each index takes eight bytes, most significant first, in list order. |
| `ChallengeDerivation.Int64BytesValue` | common/src/capacity_challenge.rs:39-42 | Eight big-endian bytes in two's complement. |
| `Slots.FindsSmallestOpenSlots` | common/src/capacity/slot_allocator.rs:245-270 | For k at least 1 the search succeeds if and only if k slots are open, and returns exactly the k smallest open indices. |
| `Slots.FindingNoneYieldsOne` | common/src/capacity/slot_allocator.rs:249-256 | Asked for none, it returns one slot whenever one is open. |
| `Slots.SlotAllocator.FindOpenSlots` | common/src/capacity/slot_allocator.rs:245-270 | The scan with early stop computes that search. |
| `Slots.SlotAllocator.MarkSlotsAsContent` | common/src/capacity/slot_allocator.rs:274-310 | New slot table and index, also for a call that fails at an out-of-range slot after marking those before it. |
| `Slots.MarkKeepsAgreementExactly` | common/src/capacity/slot_allocator.rs:274-310 | Marking keeps slot table and index in agreement if and only if a test the caller can make beforehand holds; reused ids, failures half-way, taken or repeated slots fall outside it. |
| `CapacityHealth.ListedExactlyTagged` | common/src/capacity/slot_allocator.rs:319-330 | What is found under an id, in agreeing tables: its placement lists exactly the slots tagged with it. |
| `Slots.SlotAllocator.RemoveContentById` | common/src/capacity/slot_allocator.rs:334-364 | New slot table and index on every path, including the failing ones. |
| `Slots.ReleaseKeepsAgreement` | common/src/capacity/slot_allocator.rs:334-364 | Removing an id opens exactly the slots tagged with it, drops its index entry and keeps agreement. |
| `Slots.ReleaseUndoesReserve` | common/src/capacity/slot_allocator.rs:274-364 | Removing a fresh id just marked on open slots restores both tables exactly. |
| `Slots.IdsAreDisjoint` | common/src/capacity/slot_allocator.rs:274-364 | In agreeing tables two ids never share a slot. |
| `Slots.ReusedIdBreaksAgreement` | common/src/capacity/slot_allocator.rs:282-298 | The boundary crossed: one id marked on slot 0 and then on slot 1 leaves a tag that nothing lists. |
| `Slots.FailedMarkBreaksAgreement` | common/src/capacity/slot_allocator.rs:282-298 | The boundary crossed: a placement whose second entry is out of range leaves its first slot tagged and unlisted. |
| `Slots.TableRunKeepsAgreement` | common/src/capacity/slot_allocator.rs:245-364 | From any agreeing tables, every run of find, mark under a fresh id and remove keeps agreement, slot places and proof slots. |
| `Slots.SlotAllocator.WriteChunkToSlot` | common/src/capacity/slot_allocator.rs:378-462 | Bytes, returned hash and refusal conditions of a write. |
| `Slots.ReadBackWrite` | common/src/capacity/slot_allocator.rs:378-500 | A slot reads back the written data zero-padded to the slot size. |
| `Slots.ReadOtherSlot` | common/src/capacity/slot_allocator.rs:378-500 | Writing one slot leaves every other readable slot as it was. |
| `Slots.SlotsKeepTheirLastWrite` | common/src/capacity/slot_allocator.rs:378-500 | Over disjoint ranges, after any sequence of writes each slot reads back its own last accepted write. |
| `CapacityManager.CapacityManager.StoreContentChunks` | node_app/src/capacity/capacity_manager/slot_io.rs:11-115 | File, tables and tree after a store, on success and after each failure; when it succeeds and which slots it returns. |
| `CapacityManager.CapacityManager.WriteAllChunks` | node_app/src/capacity/capacity_manager/slot_io.rs:33-57 | The write loop stores all chunks, or exactly those before the first that does not fit. |
| `CapacityManager.CapacityManager.DeleteContentFromSlots` | node_app/src/capacity/capacity_manager/slot_io.rs:189-266 | File, tables and tree after a delete, and when it succeeds. |
| `CapacityManager.CapacityManager.ZeroSlots` | node_app/src/capacity/capacity_manager/slot_io.rs:216-218 | The overwrite loop zeroes the slots of a placement. |
| `CapacityManager.CapacityManager.GetContentFromSlots` | node_app/src/capacity/capacity_manager/slot_io.rs:121-186 | Reads the pieces of a content back or stops at the first failing one; also what it returns before a slot map is loaded. |
| `CapacityManager.CapacityManager.UpdateMerkleTree` | node_app/src/capacity/capacity_manager/merkle.rs:110-166 | Leaf updates succeed if and only if all indices are within the tree, and then return the root of the updated leaves. |
| `CapacityManager.CapacityManager.BuildMerkleTree` | node_app/src/capacity/capacity_manager/merkle.rs:13-75 | The rebuild succeeds if and only if every content slot reads; its leaves are then those of fillers, zeros and file contents, and otherwise the old tree stays. |
| `CapacityManager.CapacityManager.Initialize` | node_app/src/capacity/capacity_manager/mod.rs:94-129 | Startup is done once; on a file that holds every slot it is the restart of the run theorems. |
| `CapacityManager.CapacityManager.GenerateCapacityProof` | node_app/src/capacity/capacity_manager/proofs.rs:10-171 | Answers exist exactly when the challenge is for this provider, the manager is initialised, the expected root is the current one and every slot reads; they are the records the validator theorems speak of. |
| `CapacityAllocation.HasOverlap` | node_app/src/capacity/capacity_manager/allocation.rs:198-214 | The pairwise check finds an overlap if and only if there is one. |
| `CapacityAllocation.RangesTileFile` | node_app/src/capacity/capacity_manager/allocation.rs:161-196 | For every permutation the planned ranges are disjoint, within the file and cover every byte of it. |
| `CapacityAllocation.PlanSlots` | node_app/src/capacity/capacity_manager/allocation.rs:161-268 | Planning never fails its own overlap check; slot i lies where the drawn order puts chunk i, the slots tile the file, and the proof slots are the drawn ones. |
| `CapacityAllocation.EveryPlanIsDrawn` | node_app/src/capacity/capacity_manager/allocation.rs:165-183 | Every order of the full chunks is the outcome of some draws of the Fisher-Yates shuffle. |
| `CapacityAllocation.FillFile` | node_app/src/capacity/capacity_manager/allocation.rs:270-378 | Every slot holds its filler or zeros and every leaf is the hash of its slot. |
| `CapacityAllocation.FilledIsHealthy` | node_app/src/capacity/capacity_manager/allocation.rs:63-420 | Freshly allocated capacity is healthy. |
| `CapacityManager.CapacityManager.AllocateCapacity` | node_app/src/capacity/capacity_manager/allocation.rs:63-420 | Allocation always produces a healthy empty store, sound when the capacity is a whole number of chunks. |
| `CapacityHealth.StoreKeepsHealthExactly` | node_app/src/capacity/capacity_manager/slot_io.rs:11-115 | A store leaves file, tables and tree in agreement if and only if a condition the caller can test holds. |
| `CapacityHealth.FinishedStoreHealthyExactly` | node_app/src/capacity/capacity_manager/slot_io.rs:59-115 | A store that runs to its end is healthy exactly when the id had no slots yet: reusing an id orphans its old slots. |
| `CapacityHealth.HalfStoreHealthyExactly` | node_app/src/capacity/capacity_manager/slot_io.rs:33-57 | A store that fails half-way stays healthy exactly when what it wrote was all zeros. |
| `CapacityHealth.DeleteKeepsHealth` | node_app/src/capacity/capacity_manager/slot_io.rs:189-266 | Deleting any id, stored or not, keeps health. |
| `CapacityHealth.GetReturnsView` | node_app/src/capacity/capacity_manager/slot_io.rs:121-186 | On a healthy store reading never fails and returns the abstract map's entry. |
| `CapacityHealth.StoreUpdatesView` | node_app/src/capacity/capacity_manager/slot_io.rs:11-115 | A finished store adds one entry to the abstract map and changes no other. |
| `CapacityHealth.StoredUnderCommitment` | node_app/src/capacity/capacity_manager/slot_io.rs:59-68 | Every slot of a stored content carries the commitment to the hashes of all its zero-padded chunks, in order. |
| `CapacityHealth.DeleteUpdatesView` | node_app/src/capacity/capacity_manager/slot_io.rs:189-266 | A delete removes one entry and changes no other. |
| `CapacityRuns.HealthyStorePassesChallenges` | node_app/src/capacity/capacity_manager/proofs.rs:87-150 | A healthy provider's generated answers are accepted for every challenge within its slots. |
| `CapacityRuns.HalfStoredSlotFailsChallenge` | node_app/src/capacity/capacity_manager/slot_io.rs:33-57 | After a half-way failed store the provider's own answer for a slot that received a non-zero chunk is rejected under every root. |
| `CapacityRuns.HalfStorePassesExactly` | node_app/src/capacity/capacity_manager/slot_io.rs:33-57 | After a half-way failed store every challenge is passed if and only if every chunk it wrote was zeros. |
| `CapacityRuns.OneByteLeftBehind` | node_app/src/capacity/capacity_manager/slot_io.rs:33-57 | An instance on a healthy two-slot store: a one-byte chunk followed by one of 1025 bytes loses health and the challenges. |
| `CapacityRuns.RestartChangesNothing` | node_app/src/capacity/capacity_manager/merkle.rs:13-75 | Rebuilding at startup reproduces the incrementally maintained tree. |
| `CapacityRuns.ConcatChunksOf` | node_app/src/abci_interface/consensus/commit.rs:572-574 | Splitting a post into chunks loses nothing. |
| `CapacityRuns.ChunksAreFull` | node_app/src/abci_interface/consensus/commit.rs:572-574 | All chunks but the last have 1024 bytes, and the last is not empty. |
| `CapacityRuns.StepRefinesMap` | node_app/src/abci_interface/consensus/commit.rs:562-600 | Mirroring a post, collecting one or restarting does to the store what the bounded map does, refusals included. |
| `CapacityRuns.RunRefinesMap` | node_app/src/storage/pinboard_blob_gc.rs:91-100 | Every run of posts, collections and restarts refines the bounded map; slots never move and proof slots stay proof slots. |
| `CapacityRuns.RunReadsBack` | node_app/src/capacity/capacity_manager/slot_io.rs:121-186 | After any run, reading an id returns exactly what the reference map holds for it. |
| `CapacityRuns.RunPassesChallenges` | node_app/src/capacity/challenge_validator.rs:31-120 | After any run, every challenge within the provider's slots is answered to the validator's satisfaction. |
| `CapacityRuns.RunPassesSelectedChallenge` | common/src/capacity_challenge.rs:23-50 | In particular the challenge selected by any shuffle, of any size. |
| `SlotStats.SnapshotSlots` | node_app/src/api/admin.rs:120-167 | The six counters are the counts and saturating byte totals per slot kind. |
| `SlotStats.CountsAreCardinalities` | node_app/src/api/admin.rs:120-167 | A kind's count is the number of slots in that state. |
| `SlotStats.FillingMovesBytes` | node_app/src/api/admin.rs:120-167 | Filling an open slot moves exactly its bytes from open to content. |
| `SlotStats.KindsPartition` | node_app/src/api/admin.rs:120-167 | The three kinds share out all slots and all bytes. |
| `SlotStats.SmallTotalsAreExact` | node_app/src/api/admin.rs:120-167 | Totals below 2^64 are reported exactly. |
| `SlotStats.SameSlotsSameTotals` | node_app/src/api/admin.rs:120-167 | Changing slots between open and content conserves their common count and bytes. |
| `SlotStats.RunConservesSlots` | node_app/src/api/admin.rs:120-167 | Over every run proof totals are constant and so is open plus content. |
| `RateLimiter.RateLimitState.IsAllowed` | node_app/src/api/api_rate_limiting.rs:69-100 | Verdict and new log of one request: prune, count, append only if admitted. |
| `RateLimiter.PrunedLogAgrees` | node_app/src/api/api_rate_limiting.rs:69-100 | Within the window the pruned log is the full history of admitted requests. |
| `RateLimiter.VerdictsAgreeWithHistory` | node_app/src/api/api_rate_limiting.rs:69-100 | Over any run with a monotone clock a request is admitted if and only if fewer than its limit of the client's admitted requests lie in the last 60 seconds. |
| `RateLimiter.EachEndpointHasItsLimit` | node_app/src/api/api_rate_limiting.rs:69-100 | General, upload, CADO and health requests, each against its own configured limit: admitted if and only if fewer than that many of the client's requests were let in during the last 60 seconds. |
| `RateLimiter.AdmittedIsHistory` | node_app/src/api/api_rate_limiting.rs:69-100 | Over any run with a monotone clock, the instants the limiter itself admits are those of the reference history. |
| `RateLimiter.NoIntervalExceedsLimit` | node_app/src/api/api_rate_limiting.rs:69-100 | In any run, no 60-second interval holds more requests admitted by the limiter than the largest limit among them. |
| `RateLimiter.NoIntervalExceedsOwnLimit` | node_app/src/api/api_rate_limiting.rs:69-100 | In a run of one kind of request, no more than that kind's own limit. |
| `RateLimiter.ClientsAreIndependent` | node_app/src/api/api_rate_limiting.rs:69-100 | A client's verdicts are those it would get if it were alone. |
| `CursorPaging.ContinueAfterRow` | node_app/src/api/namespace.rs:95-120 | The rows after a page's last row are the rest of the list. |
| `CursorPaging.FollowAllEnumerates` | node_app/src/api/namespace.rs:95-120 | Following the cursor to the end enumerates the sorted list once, for any strict order and positive limit. |
| `CursorPaging.WalkSorted` | node_app/src/api/namespace.rs:95-120 | Even over a growing list the pages together are sorted, hence free of repetition. |
| `CursorPaging.WalkComplete` | node_app/src/api/namespace.rs:95-120 | Even over a growing list nothing that was there at the start is missed. |
| `CursorPaging.NextFlagExactly` | node_app/src/api/namespace.rs:112-120 | The next-page flag is up exactly when the page stops short of the last row. |
| `NamespaceListing.SortRecordsSorts` | node_app/src/api/namespace.rs:86-92 | Sorting orders by height descending, then slug, and keeps the records. |
| `NamespaceListing.NewestFirst` | node_app/src/api/namespace.rs:86-92 | In the sorted list heights fall; at equal heights the earlier slug is a proper prefix of the later or smaller at their first difference. |
| `NamespaceListing.SortNamespaceRecords` | node_app/src/api/namespace.rs:86-92 | Insertion by swaps on the array yields the stably sorted records. |
| `NamespaceListing.HandlerServesPage` | node_app/src/api/namespace.rs:211-292 | With a canonical slug as cursor the handler, cursor parsing and normalisation included, serves the next page. |
| `NamespaceListing.RefusedExactly` | node_app/src/api/namespace.rs:128-151 | Which requests are refused and with which error: limit zero, half a cursor, a malformed cursor slug. |
| `NamespaceListing.FirstPage` | node_app/src/api/namespace.rs:211-292 | The first page: 50 rows by default, at most 100, the next flag and the total. |
| `NamespaceListing.NextFlagOfHandler` | node_app/src/api/namespace.rs:211-292 | On every page the flag is up exactly when it stops short of the last record; only the first carries a total. |
| `NamespaceListing.FollowingListsRegistry` | node_app/src/api/namespace.rs:86-151 | Following the handler page by page, for any registry with unique canonical slugs and any accepted limit, ends and yields the sorted registry. |
| `NamespaceListing.RegistrationsDuringListing` | node_app/src/api/namespace.rs:86-151 | Following the handler while names are registered: no row repeats, every row is registered, and a client that reaches the end has seen all names registered at the start. |
| `EpochListing.GetEpochs` | node_app/src/api/epoch.rs:49-157 | Fetching one row too many and dropping it gives the page, the next flag, the total and the limit rules. |
| `EpochListing.FollowingListsEpochs` | node_app/src/api/epoch.rs:49-157 | Following the handler, in either order and at any accepted limit, lists every epoch once, in order. |
| `EpochListing.ListedInDirection` | node_app/src/api/epoch.rs:129-157 | What is listed has the same epochs, strictly rising when ascending and strictly falling when descending. |
| `EpochListing.FirstPage` | node_app/src/api/epoch.rs:49-100 | The first page: 50 epochs by default, at most 100, the next flag and the total. |
| `EpochListing.NextFlagOfHandler` | node_app/src/api/epoch.rs:49-100 | On every page the flag is up exactly when it stops short of the last epoch; only the first carries a total. |
| `NamespaceRules.NormalizeForgives` | common/src/namespace.rs:48-52 | Surrounding white space and upper case are forgiven, nothing else is changed. |
| `NamespaceRules.NormalizesExactly` | common/src/namespace.rs:48-52 | An input normalises to a slug if and only if it is that slug in some case between blanks. |
| `NamespaceRules.SlugGrammar` | common/src/namespace.rs:55-95 | Slugs are 3 to 32 characters: words of lowercase letters and digits joined by single hyphens, and nothing else. |
| `NamespaceRules.CanonicalSlugIsFixed` | common/src/namespace.rs:48-95 | A canonical slug survives normalisation unchanged. |
| `NamespaceRules.UploadSlugIsSlug` | common/src/namespace.rs:101-121 | Every upload namespace is a canonical slug. |
| `CadoPaths.ParseAcceptsExactly` | common/src/cado.rs:645-725 | The parser accepts exactly the printed well-formed triples and returns that triple. |
| `CadoPaths.ParseInvertsNew` | common/src/cado.rs:537-725 | Parsing any path built by the typed constructor gives the same value. |
| `CadoPaths.NewRebuildsParsed` | common/src/cado.rs:537-643 | Every parsed `@eld` path is rebuilt by the constructor from its type and name. |
| `CadoPaths.PathsAreInjective` | common/src/cado.rs:537-643 | Distinct (scope, type, name) triples give distinct strings. |
| `CadoPaths.NamesByType` | common/src/cado.rs:510-531 | Accounts have 40-digit hex names, namespaces slugs, everything else 64-digit hex names. |
| `CadoPaths.KeysByType` | common/src/cado.rs:537-643 | Which keys the constructor takes for which type, in terms of what the parser accepts. |
| `CadoPaths.InfrastructureByName` | common/src/cado.rs:955-959 | The four node-local types. |
| `CadoPaths.EpochNamesRoundTrip` | common/src/cado.rs:483-507 | Every non-negative epoch survives printing and parsing. |
| `CadoPaths.EpochNameSpells` | common/src/cado.rs:483-494 | An epoch's name is `0x` and 64 digits that spell it in base sixteen. |
| `CadoPaths.EpochFromNameExactly` | common/src/cado.rs:497-507 | A name reads as an epoch if and only if it is that epoch's printed name up to the case of its digits. |
| `CadoPaths.EpochNameIsPathName` | common/src/cado.rs:483-494 | An epoch name is a valid record name. |
| `CadoPaths.LatestIsNoEpoch` | node_app/src/app_state/envelope.rs:71-73 | The alias of the latest record is never counted as an epoch. |
| `Hex.DecodeAcceptsExactly` | common/src/hex_encoding.rs:34-45 | Decoding accepts exactly even-length strings of hex digits. |
| `Hex.DecodeInvertsEncode` | common/src/hex_encoding.rs:34-53 | Decoding inverts encoding. |
| `Hex.EncodeInvertsDecode` | common/src/hex_encoding.rs:34-53 | Encoding what was decoded gives the lower-cased input. |
| `Hex.EncodeAt` | common/src/hex_encoding.rs:34-53 | Each byte is printed as its high digit, then its low digit, from the sixteen lowercase digits. |
| `Hex.DecodeFixedAcceptsExactly` | common/src/hex_encoding.rs:11-53 | For every width, exactly an optional prefix plus twice that many digits is accepted, with the bytes those digits spell. |
| `Hex.DecodeFixedInvertsPrinting` | common/src/hex_encoding.rs:24-53 | Bare and prefixed prints decode to the same bytes. |
| `Pinboard.NamespacePathMentionsEld` | common/src/pinboard.rs:8-15 | A namespace path is taken for an Eld path if and only if its namespace begins with `eld` or its message id mentions `@eld`. |
| `Pinboard.PathsLeadBackExactly` | node_app/src/api/pinboard.rs:464-493 | The printed path of a post is dispatched and parsed back to the same owner or namespace and id if and only if a stated condition on namespace and id holds. |
| `Pinboard.PrintedForms` | common/src/pinboard.rs:8-35 | The two printed forms, spelled out. |
| `Pinboard.DispatchedPathsArePrinted` | node_app/src/api/pinboard.rs:464-493 | Whatever path is dispatched has the segments of its target's printed path, up to the spelling of the wallet. |
| `Pinboard.EldoradoIsUnreachable` | common/src/pinboard.rs:13-15 | A legal namespace outside that condition: `eldorado`. |
| `Coins.ParsePrinted` | common/src/coin.rs:113-154 | What parsing a printed amount gives, for every amount: the fraction comes back a thousandfold. |
| `Coins.RoundTripExactly` | common/src/coin.rs:113-154 | Parsing inverts printing if and only if the amount is a whole number of coins. |
| `Coins.PrintedExactly` | common/src/coin.rs:113-124 | Whole coins in base ten, then a six-digit fraction unless it is zero. |
| `Coins.CoinLimit` | common/src/coin.rs:157-165 | Which amounts are coins. |
| `Coins.ExtraDigitsAreIgnored` | common/src/coin.rs:138-142 | Digits of a fraction beyond the ninth are ignored. |
| `Coins.OneAndAHalf` | common/src/coin.rs:113-154 | One and a half coins come back as 501. |
| `Coins.ParsesModulo` | common/src/coin.rs:126-154 | For every string, without overflow checks: the exact base units modulo 2^128, or the parse error. |
| `Coins.ParsesRightExactly` | common/src/coin.rs:126-154 | For every string: the answer is that of exact arithmetic if and only if the units fit 128 bits or wrap to an amount that is refused anyway. |
| `Coins.HugeWholeWrapsAround` | common/src/coin.rs:126-154 | The other side: a whole part that exact arithmetic refuses comes back as less than one coin. |
| `ChainState.PathToNibbles` | node_app/src/app_state/nibbles.rs:4-11 | The loop computes two nibbles per byte. |
| `ChainState.NibblesInjective` | node_app/src/app_state/nibbles.rs:4-11 | Different paths have different trie keys. |
| `ChainState.NibblesAt` | node_app/src/app_state/nibbles.rs:4-11 | The high nibble of each byte, then the low one. |
| `ChainState.RebuildTrie` | node_app/src/app_state/envelope.rs:175-181 | Inserting the cache in any order yields a trie that holds exactly its content hashes. |
| `ChainState.TrieUnique` | node_app/src/app_state/envelope.rs:175-181 | Only one trie does, so the rebuild is independent of the order. |
| `ChainState.TriesEqualExactly` | common/src/cado.rs:412-428 | Two caches have the same trie if and only if they have the same paths with the same original digests. |
| `ChainState.UpdatesKeepTrie` | common/src/cado.rs:341-428 | Any run of updates that pass on the hash keeps every original digest and leaves the trie unchanged. |
| `ChainState.DigestsOfBodies` | common/src/cado.rs:306-349 | A new object carries the digest of its data; an update keeps the original digest and records that of the new data. |
| `ChainState.LastUpdateDecides` | common/src/cado.rs:341-349 | After any run of updates an object has the data of its last update and that data's digest as its latest. |
| `ChainState.FirstVersionStays` | common/src/cado.rs:412-428 | The trie keeps the digest of an object's first version, whatever the updates. |
| `ChainState.FirstVersionsAreBound` | common/src/cado.rs:412-428 | Objects that began differently have different tries, unless the two data collide. |
| `ChainState.ScanRegistry` | node_app/src/app_state/envelope.rs:252-270 | The scan succeeds if and only if every immutable registry record decodes, and then matches the cache. |
| `ChainState.RegistryUnique` | node_app/src/app_state/envelope.rs:252-270 | Only one index matches a cache. |
| `ChainState.EpochOfPathExactly` | node_app/src/app_state/envelope.rs:202-208 | A path counts for an epoch if and only if it is that epoch's record path, up to the case of its digits. |
| `ChainState.EpochRecordPathCounts` | node_app/src/app_state/envelope.rs:349-356 | The path the constructor builds for an epoch's record counts for that epoch. |
| `ChainState.ScanFindsExactly` | node_app/src/app_state/envelope.rs:189-200 | The scan, and so the index, holds exactly the epochs whose record path is cached. |
| `ChainState.IndexedPathsAreChainState` | node_app/src/app_state/envelope.rs:202-250 | Epoch and registry paths are neither node-local nor deletable, so deletions need not touch the indexes. |
| `ChainState.DeleteKeepsConsistency` | node_app/src/abci_interface/consensus/commit.rs:113-124 | A system deletion keeps trie and indexes those of a full scan. |
| `ChainState.DeletableExactly` | common/src/cado.rs:745-803 | The deletable paths, spelled out: three kinds of cleanup data in the root scope. |
| `ChainState.PutNamespaceKeepsConsistency` | node_app/src/abci_interface/consensus/commit.rs:326-380 | So does a registration of a canonical slug. |
| `ChainState.PutCadoKeepsConsistency` | node_app/src/abci_interface/consensus/commit.rs:386-427 | So does a staged object outside the registry. |
| `BlockCommit.PutCadoConsistentExactly` | node_app/src/abci_interface/consensus/commit.rs:386-427 | A staged object keeps the indexes right if and only if it is outside the registry or describes the record already indexed there. |
| `BlockCommit.PutAllEffect` | node_app/src/abci_interface/consensus/commit.rs:313-383 | In whatever order, the accepted registrations land in cache and index, and nothing else does. |
| `BlockCommit.RegistryPathIsConstructed` | common/src/namespace.rs:179-189 | The registry path of a name is the one the typed constructor builds. |
| `BlockCommit.AcceptedAreHeld` | node_app/src/abci_interface/consensus/commit.rs:326-380 | After a commit every accepted registration is cached as an immutable object, and the trie holds the digest of its record. |
| `BlockCommit.CommitKeepsRegistryHashed` | node_app/src/abci_interface/consensus/commit.rs:352-375 | Every commit keeps registry objects immutable and under the digest of their bytes. |
| `BlockCommit.TrieBindsRegistry` | node_app/src/abci_interface/consensus/commit.rs:372-375 | The trie commits to the registry: equal tries mean the same record for every name, unless two records of one name collide. |
| `BlockCommit.ReservedNames` | common/src/namespace.rs:191-202 | The reserved names cannot be registered. |
| `BlockCommit.MergeKeepsConsistency` | node_app/src/abci_interface/consensus/commit.rs:386-427 | The three merge passes together keep the ledger consistent. |
| `BlockCommit.ConsistentLedgersAgree` | node_app/src/app_state/envelope.rs:175-270 | A consistent ledger is determined by its cache. |
| `BlockCommit.ReplicasAgree` | node_app/src/abci_interface/consensus/commit.rs:97-427 | Over every run: nodes that start from equal caches and commit the same blocks hold equal ledgers, trie and indexes included, throughout. |
| `AppState.AppState.constructor` | node_app/src/app_state/app.rs:13-18 | The default state is consistent. |
| `AppState.AppState.UpdateCadoCache` | node_app/src/app_state/envelope.rs:118-129 | Node-local objects are refused; staging stays safe if and only if the object is refused or outside the registry. |
| `AppState.AppState.AddNamespace` | node_app/src/abci_interface/consensus/tx_processor/add_namespace_processor.rs:53-116 | A registration is staged, together with the sender's debited account, if and only if the fee can be paid and the name is well formed, not reserved and free on chain and in the block. |
| `AppState.AppState.ApplyDeletes` | node_app/src/abci_interface/consensus/commit.rs:113-125 | Deletions leave cache and staging without the deleted paths, and the state valid. |
| `AppState.AppState.DropFailed` | node_app/src/abci_interface/consensus/commit.rs:127-172 | Exactly the objects that do not parse or that storage refuses leave the block; node-local ones are skipped. |
| `AppState.AppState.EnterRegistrations` | node_app/src/abci_interface/consensus/commit.rs:313-383 | Registrations enter cache, trie and index together. |
| `AppState.AppState.MergeIntoCache` | node_app/src/abci_interface/consensus/commit.rs:386-408 | First merge pass: the cache gains the staged objects that are not node-local. |
| `AppState.AppState.IndexEpochs` | node_app/src/app_state/envelope.rs:210-214 | Second merge pass: the index gains the staged epochs. |
| `AppState.AppState.InsertIntoTrie` | node_app/src/abci_interface/consensus/commit.rs:417-427 | Third merge pass: the trie matches the merged cache. |
| `AppState.AppState.CommitBlock` | node_app/src/abci_interface/consensus/commit.rs:75-427 | A commit is all or nothing; afterwards the cache is the stated function of the block, and the incrementally kept trie and indexes are those of a full scan. Accepted names are held under their records' digests, and registered names keep their records. |
| `AppState.NamesStayOwned` | node_app/src/app_state/envelope.rs:301-318 | No block can displace the record of a registered name. |
| `AppState.AppState.CollectEpochNumbers` | node_app/src/app_state/envelope.rs:217-232 | Both branches, index and scan, give exactly the epochs whose record path is committed or staged. |
| `AppState.AppState.CollectNamespaceRecords` | node_app/src/app_state/envelope.rs:273-289 | Both branches give one record per slug, staged records overriding committed ones, ready for the paging theorem. |
| `AppState.AppState.RebuildIndexes` | node_app/src/app_state/envelope.rs:184-239 | Rebuilding the indexes changes nothing. |
| `AppState.AppState.CalculateAppHash` | node_app/src/app_state/envelope.rs:95-167 | The hasher is fed exactly the preimage layout. |
| `AppHash.CountsBytesInjective` | node_app/src/app_state/envelope.rs:113-113 | The failure counts are encoded without loss. |
| `AppHash.CountsAreHashed` | node_app/src/app_state/envelope.rs:95-115 | States differing at most in failure counts hash alike if and only if the counts agree, unless the digest collides on the two. |
| `AppHash.HeaderIsHashed` | node_app/src/app_state/envelope.rs:97-99 | Equal app hashes mean equal height, epoch and state root, whatever follows, unless the digest collides on the two states. |
| `AppHash.PreimageLayout` | node_app/src/app_state/envelope.rs:95-115 | Height, epoch and state root at their byte offsets, then the lists and the counts in order. |
| `AppHash.CountsLayout` | node_app/src/app_state/envelope.rs:113-113 | The number of counts in eight bytes, then 32 bytes for each provider in key order. |
| `AppHash.CountLayout` | common/src/address.rs:115-119 | An entry: the length of an address, the address, the count in four bytes. |
| `AppHash.Int64WordValue` | node_app/src/app_state/envelope.rs:97-98 | Eight little-endian bytes in two's complement. |
| `AppHash.ValidatorsHashedExactly` | node_app/src/app_state/envelope.rs:101-106 | With self-delimiting entries and all else equal, two states have one preimage if and only if the concatenations of their two validator lists are equal. |
| `AppHash.ActiveListIsHashed` | node_app/src/app_state/envelope.rs:101-106 | When active validators are drawn from candidates with distinct keys, one preimage means the same candidates and the same active list. |
| `ValidatorSet.EncodeIsSelfDelimiting` | common/src/validator.rs:9-15 | The derived layout of a validator entry marks its own end, so the hypothesis holds of the real entries. |
| `ValidatorSet.EncodeLayout` | common/src/validator.rs:9-15 | Address behind its length, stake in sixteen bytes, key behind its length. |
| `ValidatorSet.ProcessStake` | node_app/src/abci_interface/consensus/tx_processor/stake_processor.rs:188-213 | A stake updates the sender's entry where it stands or appends one; no other entry changes. |
| `ValidatorSet.RunKeepsDrawn` | node_app/src/abci_interface/consensus/epoch.rs:30-44 | Through every run of staking and epoch selection, addresses stay distinct and active validators stay drawn from the candidates. |
| `ValidatorSet.RunsHashBothLists` | node_app/src/app_state/envelope.rs:95-115 | Two nodes reached by any such runs and alike otherwise have one preimage if and only if both validator lists agree. |
| `AppState.FilterInfrastructure` | node_app/src/app_state/committed_cado_cache.rs:50-63 | The filter loop keeps exactly the objects that are not node-local. |
| `AppState.AppState.TakeSnapshot` | node_app/src/app_state/app_state_snapshot.rs:40-58 | A snapshot of every listed field; it fails only while the app hash is unset. |
| `AppState.AppState.ApplySnapshot` | node_app/src/app_state/app_state_snapshot.rs:80-137 | Every listed field is replaced and the trie rebuilt, also when the snapshot is then refused; each of the two errors exactly when its root differs. |
| `AppState.RestoreSucceedsExactly` | node_app/src/app_state/app_state_snapshot.rs:97-136 | Restoring a node's own snapshot passes both root checks if and only if its trie agreed with its filtered cache (roots of the two tries not colliding). |
| `AppState.RestoreRoundTrip` | node_app/src/app_state/app_state_snapshot.rs:40-137 | From a consistent source, restoring passes and gives every committed field back except the failure counts; a snapshot of the result is the same snapshot. |
| `AppState.AppHashRestoredExactly` | node_app/src/app_state/app_state_snapshot.rs:44-57 | The restored node computes the source's app hash if and only if its own failure counts equal the source's (no digest collision between the two). |
| `AppState.FreshNodeDiverges` | node_app/src/app_state/envelope.rs:90-113 | One recorded failure suffices for a fresh node to compute another hash than the one it restored. |
| `AppState.UpdatesKeepAppHash` | common/src/cado.rs:341-428 | No run of mutable-object updates changes the app hash. |
| `AppState.TwoBalancesOneAppHash` | common/src/cado.rs:341-428 | An instance: one account with two different balances, two consistent states, one app hash. |

## Left out

- SHA-256, Blake3, Ed25519, the seeded generator and the trie's node encoding: abstract functions; where a theorem needs more, the hypothesis is in its `requires`. The trie is a map from nibble keys to digests with a root function.
- bincode, JSON and UTF-8 encodings: a record serialiser and a path encoder with left inverses; cache keys are strings, so keys that are not UTF-8 do not occur.
- RocksDB, file persistence, save failures, locks and tasks: storage outcomes are parameters of the commit, saves succeed, and methods run one at a time.
- Clock, network and on-chain submission of a new root: times are parameters, submission is not modelled.
- Signatures of challenge responses: not modelled.
- Error texts and logging: only success or failure, and which failure where the source distinguishes it.
- Four-part CADO paths: the list of types that use them is empty, so that branch never applies.
- Tip and snapshot objects and the pinboard writes within a commit: they touch none of the modelled fields; whether they and the storage transaction go through is the parameter `rest`. Epoch selection, which a commit may run first, changes only the validator lists and is a step of `ValidatorSet.Run`; its priority order is not modelled.
- Balance and fee arithmetic of a namespace registration: its outcome is the parameter `debit`.
- Genesis: the run theorems about validators start from any lists with distinct addresses.
- Fee calculation, payload validation, HTTP handlers beyond selection logic, wallet files, configuration, client facade, indexer and peer sync: flat or plumbing.
- The typed identifier wrappers: they repeat the fixed-width hex codec, proved once for every width.
- The lookup of each selected epoch's record: it can only shorten a page when storage has lost a record.
- Platforms that are not little-endian with 64-bit words: the app-hash layout is that of such a machine.
