# Verified models of nyksnode

These Dafny modules model the consensus and state code of nyksnode and prove what that code is meant
to guarantee. `dafny verify dfyconfig.toml` checks all of it.

## What is modelled

**The mutator set.** The UTXO set is a list of commitments and a Bloom filter with a sliding window.
Behind all its representations stands a pair: the sequence of commitments and the multiset of absolute
filter indices. `Stores(ms, indices)` says that chunks and window hold exactly these indices, and
`RepresentationUnique` that there is one way to do so. The accumulator (peaks, leaf counts, window), the
archival mutator set (vectors on disk), removal records and membership proofs are all tied to that pair:
additions append a commitment and change no index, also when the window slides; removals add exactly the
record's indices; rollbacks are exact. Membership proofs come back unchanged from any number of additions
and from a removal, and can be restored from the archival form, also without naming the item.

**Packed removal records.** Blocks carry removal records without redundant authentication data: chunks in
twelve bits an index, and for each tree of the mountain range only the digests beside and not on the paths.
For records in step, unpacking gives back exactly what was packed.

**Mountain ranges.** `MountainRange` defines them by halving. `PostOrder` gives the flat vector in which
the archival form keeps all nodes, and `ArchivalMmr` is a class over that vector whose index arithmetic
is proved to keep the layout.

**Blocks and reorganisations.** `Tree` holds the stored blocks. The archival state follows a tip by
walking to the latest common ancestor, rolling back and applying forward. `ImportBlocks` puts everything
together: whatever blocks come in, the mutator set is the fold of all updates along a valid chain from
genesis, and the block mountain range lists that chain.

**Proof of work.** The guesser's five in-place passes, the buffer swaps, the bit reversal and the
heap-shaped tree produce exactly the leafs that the validator recomputes one by one.

**Difficulty, hashes, mempool, synchronization masks.** Limb arithmetic against numbers, the controller
and the bound on cumulative work over whole chains; block hashes by four routes with the digest cache;
the two indexes of the mempool and its no-conflict rule; bit masks against sets of naturals.

## How to read the model

- Digests are free terms: equal digests come from equal inputs. That is where collision resistance
  enters. Where digests are compared or reduced to numbers, their five field elements are a parameter
  (`DigestValues`), and they denote a number to the base of the field's size.
- Asynchronous methods are sequential, as all state sits behind one write lock.
- Objects that the code updates in place are classes with the same fields. Their ghost fields
  (`leafs`, `value`, `indices`) name the abstract value that `Valid()` ties to the real fields.
- A removal record is *in step* (`Synced`) with a mutator set if none of its indices lies beyond the
  window, its dictionary's keys are exactly the inactive chunks its indices touch, and each entry is the
  current chunk with its path. A membership proof is in step (`InStep`) in the same sense.
- Chunk indices are truncated to 64 bits where the code casts them. `Fits` says that nothing is lost. It is
  part of being in step, and unpacking a block's inputs refuses anything else (`UnpackedRecord`).
- Nodes of a sparse mountain range are named by level and position instead of by tree and index in the tree.
- Words are lists of 32 bits, and u64 wrap-around, truncating casts, saturation and field subtraction
  are written out where the code has them.

## Where the code differs from what it says

- `bloom_filter_contains` truncates the position in the window to 32 bits, so an index 2^32 above a set
  one is reported as set. `LookupIsMembershipIff` gives the exact condition.
- The block time enters the difficulty controller as an i64. From 2^63 milliseconds above the target on it
  counts as negative and the difficulty rises (`HugeBlockTimeRaisesDifficulty`). `NonIncreasingIff` says
  exactly when a longer block time never raises it. Just below that, from 2^63 milliseconds on, the
  subtraction overflows: builds with overflow checks panic there, others wrap around to the right value.
- The bound on cumulative work does not hold for such block times (`BoundFailsForHugeBlockTime`), nor for
  block times of 0, which the minimum-time rule lets through where its sum wraps around
  (`BoundFailsForWrappedTime`).
  `BoundHoldsIffModerate` gives the exact condition, which `HonestWorkWithinBound` asks of every step.
- Cumulative work wraps around at 2^192 without notice (`WorkWrapsAround`). `WorkGrows` says exactly when
  it still grows.
- A record with indices of 2^76 and above can pass `can_remove`, because its chunk indices are truncated to 64
  bits (`OversizedIndexAccepted`). `CanRemove` says exactly what is looked up; below 2^76 it is exact.
- A difficulty reset can exceed the bound on work, as on the mock test network (`MockNetworkReset`);
  `ResetWithinBoundIff` gives the exact condition.
- `reconcile` does not report all items that the other side has and we do not: `limb` treats a complete mask as
  having no bits in the limb of its bound (`ReconcileMisses`). `Reconcile` says exactly which are missed.
- Equality of masks skips a limb for some bounds, so that different sets compare equal (`EqualMasksDiffer`), and
  compares bits below the lower bound for others, so that equal sets compare unequal (`SameMasksUnequal`).
  `EqualIsSameSetIff` and `SameSetIsEqualIff` give the bounds.
- `RemovalRecordList::try_unpack` is said never to panic, but `convert_to_vec` asserts that no digest starts with
  the hexadecimal digits be450642. `ConvertToVec` panics exactly for such digests, given records in step. Nor is the
  order of trees checked that have no chunk, before it is asserted (`UnsortedTreesPanic`); `DecodeFromVec` says
  exactly when.
- The inputs of a merge are cached so that they can come back after a block. One of them can get lost all the same,
  if it loses against the merge before the other one replaces it (`RestoredInputLost`). `UpdateWithBlock` says what the
  pool is afterwards, and `UndisputedComesBack` which transactions are sure to come back.
- Two conflicting transactions can replace each other again and again, if one pays more and the other has the better
  proof (`ReplaceEachOtherIff`).
- `estimate_num_leafs_aocl` returns 1 where 0 would do, if there are no chunks (`AoclEstimateIsMinimal`).
- `AbsoluteIndexSet::new` panics already if two indices are exactly a window apart (`New`).
- `set_range` panics for ranges with whole limbs below the stored ones (`RangeBelowUnderflows`); `SetRange`
  says exactly when.
- The uniqueness rule for inputs rejects nothing that the double-spend rule after it would accept
  (`RepeatsSpendTwice`).
- `MTree::verify` compares the index with `>` where `>=` is meant (`OneIndexTooMany`). Indices come reduced
  modulo the number of leafs, so nothing depends on it.

## Model

| member | source | states |
|---|---|---|
| MountainRange.VerifyIffPath | consensus/src/mutator_set/mutator_set_accumulator.rs:270-278 | a membership proof verifies against the peaks if and only if the leaf is the one in the list and the path is its own |
| MountainRange.PeaksInjective | consensus/src/mutator_set/mutator_set_accumulator.rs:367-377 | peaks and leaf count determine the leafs, so equal bagged peaks mean equal lists |
| MountainRange.AppendCorrect | consensus/src/mutator_set/mutator_set_accumulator.rs:66-96 | appending to the peaks gives the peaks of the longer list, and the returned path is the new leaf's own |
| MountainRange.PathAfterAppendCorrect | consensus/src/mutator_set/ms_membership_proof.rs:289-295 | a path updated for an append is the leaf's path in the longer list |
| MountainRange.BatchMutationCorrect | node/src/util_types/archival_mmr.rs:124-153 | a batch of leaf mutations with authentic paths takes peaks and any path to those of the changed list |
| MountainRange.PathPrefix | node/src/util_types/archival_mmr.rs:243-294 | the path of a leaf in the range over the first m leafs is the prefix, of that leaf's tree height, of its path in the larger range |
| MountainRange.TreeHeightIsTopDifferingBit | consensus/src/mutator_set/ms_membership_proof.rs:395-396 | the tree height of leaf i among n leafs is the position of the highest bit of i XOR n |
| PostOrder.Relatives | node/src/util_types/archival_mmr.rs:250-281 | sibling and parent of a node in post-order are at the distances 2^(h+1) - 1, 2^(h+1) and 1 |
| PostOrder.LayoutPrefix | node/src/util_types/archival_mmr.rs:357-364 | the vector over the first m leafs is a prefix of the vector over all leafs |
| PostOrder.LayoutAt | node/src/util_types/archival_mmr.rs:61-83 | node k of height h sits at its post-order position in the vector |
| PostOrder.LocateInvertsNodeIndex | node/src/util_types/archival_mmr.rs:338-352 | height and index of a node can be read off its position in the vector |
| PostOrder.PeaksAt | node/src/util_types/archival_mmr.rs:42-46 | the positions read for the peaks hold the peaks |
| PostOrder.PathAt | node/src/util_types/archival_mmr.rs:284-293 | entry j of a path is the sibling of the leaf's j-th ancestor |
| ArchivalMmrs.ArchivalMmr.constructor | node/src/util_types/archival_mmr.rs:172-187 | storage that holds the layout of a leaf list, or nothing at all, becomes a valid vector with the dummy in front |
| ArchivalMmrs.ArchivalMmr.NumLeafs | node/src/util_types/archival_mmr.rs:56-58 | the leaf count is recovered from the length of the vector alone |
| ArchivalMmrs.ArchivalMmr.Append | node/src/util_types/archival_mmr.rs:61-83 | the vector becomes the layout of the list with one more leaf, and the new leaf's path is returned |
| ArchivalMmrs.ArchivalMmr.MutateLeaf | node/src/util_types/archival_mmr.rs:86-119 | the vector becomes the layout of the list with one leaf replaced |
| ArchivalMmrs.ArchivalMmr.BatchMutateLeafAndUpdateMps | node/src/util_types/archival_mmr.rs:124-153 | the vector becomes the layout of the list with all mutations applied; the proof at each position becomes that of the leaf mutated there, and the changed ones are reported |
| ArchivalMmrs.ArchivalMmr.ProveMembership | node/src/util_types/archival_mmr.rs:297-321 | the path read off the vector is the leaf's own |
| ArchivalMmrs.ArchivalMmr.TryGetLeaf | node/src/util_types/archival_mmr.rs:232-238 | the leaf at an index, if there is one |
| ArchivalMmrs.ArchivalMmr.GetLatestLeaf | node/src/util_types/archival_mmr.rs:325-335 | the last leaf, found by going down from the last node; none if there are no leafs |
| ArchivalMmrs.ArchivalMmr.RemoveLastLeaf | node/src/util_types/archival_mmr.rs:338-352 | the vector becomes the layout of the list without its last leaf, which undoes an append |
| ArchivalMmrs.ArchivalMmr.PruneToNumLeafs | node/src/util_types/archival_mmr.rs:357-364 | exactly the first n leafs are left |
| ArchivalMmrs.ArchivalMmr.PeakDigests | node/src/util_types/archival_mmr.rs:42-46 | the peaks of the current list |
| ArchivalMmrs.ArchivalMmr.ProveMembershipRelativeToSmallerMmr | node/src/util_types/archival_mmr.rs:243-294 | for every i < n <= N the path read from the N-leaf vector is that of leaf i among the first n leafs and verifies against their peaks |
| ArchivalMmrs.AuthPathNodeIndices | node/src/util_types/archival_mmr.rs:250-281 | the wrapping index walk lists the positions of the siblings, as many as the tree is high, all inside the vector |
| ActiveWindows.ActiveWindow.Zerofy | consensus/src/mutator_set/active_window.rs:60-73 | exactly the entries in the range are dropped, order and multiplicities of the others are kept |
| ActiveWindows.ActiveWindow.SlideWindow | consensus/src/mutator_set/active_window.rs:77-82 | the first chunk is dropped and everything else moves down by one chunk |
| ActiveWindows.ActiveWindow.HasSet | consensus/src/mutator_set/active_window.rs:85-92 | whether some entry lies in the range |
| ActiveWindows.ActiveWindow.SlideWindowBack | consensus/src/mutator_set/active_window.rs:95-105 | everything moves up by one chunk and the given chunk comes in below |
| ActiveWindows.ActiveWindow.Insert | consensus/src/mutator_set/active_window.rs:110-119 | one more occurrence of the index, still sorted |
| ActiveWindows.ActiveWindow.Remove | consensus/src/mutator_set/active_window.rs:121-146 | one occurrence less of an index that is present, still sorted |
| ActiveWindows.ActiveWindow.Contains | consensus/src/mutator_set/active_window.rs:148-162 | whether the index occurs |
| MutatorSets.SlideStartsBatch | consensus/src/mutator_set/mod.rs:71-73 | the window slides on an addition exactly when the number of inactive chunks goes up |
| MutatorSets.RepresentationUnique | node/src/util_types/archival_mutator_set.rs:69-161 | commitments and the multiset of absolute indices determine every chunk and the window |
| MutatorSets.IndicesUnique | node/src/util_types/archival_mutator_set.rs:439-457 | chunks and window determine the multiset of absolute indices |
| MutatorSets.CoversSlide | consensus/src/mutator_set/active_window.rs:77-82 | a slide moves the first chunk to the inactive part and loses no index |
| MutatorSets.CoversSlideBack | consensus/src/mutator_set/active_window.rs:95-105 | sliding back restores the earlier window |
| RemovalRecords.GroupsPartition | consensus/src/mutator_set/shared.rs:21-29 | grouping indices by truncated chunk index keeps every index with its multiplicity, in one group |
| RemovalRecords.FittingGroups | consensus/src/mutator_set/shared.rs:21-29 | if all chunk indices fit 64 bits, the group of an index is that of the chunk it lies in |
| MutatorSetAccumulators.MutatorSetAccumulator.Add | consensus/src/mutator_set/mutator_set_accumulator.rs:66-96 | one commitment more and the same indices, also when the window slides |
| MutatorSetAccumulators.MutatorSetAccumulator.ValidateInner | consensus/src/mutator_set/removal_record.rs:201-250 | valid exactly if no truncated chunk index lies beyond the window, the keys are the truncated inactive ones, and each entry is the current chunk with its path; if all chunk indices fit 64 bits, exactly for records in step |
| MutatorSetAccumulators.MutatorSetAccumulator.CanRemove | consensus/src/mutator_set/mutator_set_accumulator.rs:187-222 | if all chunk indices fit 64 bits, true exactly for records in step that set some index not set before; otherwise true or panicking exactly as the first truncated lookup that finds nothing is inside or outside the window |
| MutatorSetAccumulators.OversizedIndexAccepted | consensus/src/mutator_set/mutator_set_accumulator.rs:187-222 | a record of 45 times index 2^76 can be removed from the empty mutator set although it is not in step |
| MutatorSetAccumulators.MutatorSetAccumulator.Remove | consensus/src/mutator_set/mutator_set_accumulator.rs:124-182 | exactly the record's indices are added |
| MutatorSetAccumulators.MutatorSetAccumulator.ConsistentWhenValid | consensus/src/mutator_set/mutator_set_accumulator.rs:512-524 | leaf counts and numbers of peaks always fit together |
| MutatorSetAccumulators.HashInjective | consensus/src/mutator_set/mutator_set_accumulator.rs:367-377 | equal accumulator hashes mean equal mutator sets |
| RecordUpdates.BatchUpdateFromAddition | consensus/src/mutator_set/removal_record.rs:48-162 | records in step with a mutator set come out in step with it after one more addition; any others keep their indices |
| RecordUpdates.MutateChunk | consensus/src/mutator_set/shared.rs:65-118 | one chunk's indices go into every dictionary that has the chunk, its new content is noted once, and the dictionaries touched are reported |
| RecordUpdates.BatchMutationArgument | consensus/src/mutator_set/shared.rs:54-128 | all dictionaries have the applied indices inserted, the mutation argument is the set of chunks changed with their paths from before, and exactly the dictionaries with such a chunk are reported |
| RecordUpdates.BatchUpdateFromRemove | consensus/src/mutator_set/removal_record.rs:164-199 | records in step with a mutator set come out in step with it after the removal of another record; any others keep their indices |
| RecordUpdates.RemovalDeterminesChunks | consensus/src/mutator_set/shared.rs:65-75 | whatever mutator set results from a removal, its chunks are the old ones with the indices inserted |
| MutatorSetUpdates.ApplyToAccumulatorAndRecords | consensus/src/block/mutator_set_update.rs:107-153 | for any records, success means that nothing is spent twice, additions and indices are added, and other records and membership proofs are in step; for records in step it succeeds if and only if nothing is spent twice, and the rest holds either way |
| MutatorSetUpdates.ApplyRemoval | consensus/src/block/mutator_set_update.rs:133-150 | one round of the reversed stack: goes through exactly if the record is in step, and then remaining records, other records and proofs follow the removal |
| MutatorSetUpdates.IndicesGrow | consensus/src/mutator_set/mutator_set_accumulator.rs:124-182 | in every run of additions and removals the multiset of indices only grows |
| MutatorSetUpdates.SpentForever | consensus/src/mutator_set/mutator_set_accumulator.rs:187-222 | once a record has been applied, no record with its indices is removable at any later point of any run, whatever chunks and paths it carries |
| BatchRemovals.BatchRemoveFromAccumulator | consensus/src/mutator_set/mutator_set_accumulator.rs:381-490 | all records' indices are added at once, the preserved membership proofs stay in step, and the returned dictionary covers exactly the inactive indices added |
| MembershipProofs.MsMembershipProof.UpdateFromAddition | consensus/src/mutator_set/ms_membership_proof.rs:279-380 | a proof in step stays in step over an addition; the errors name a touched chunk that is missing or one that is already there |
| MembershipProofs.MsMembershipProof.RevertUpdateFromBatchAddition | consensus/src/mutator_set/ms_membership_proof.rs:385-418 | paths are trimmed to the height given by XOR and later chunks dropped, which brings a proof back in step with any earlier mutator set |
| MembershipProofs.MsMembershipProof.UpdateFromRemove | consensus/src/mutator_set/ms_membership_proof.rs:475-516 | a proof in step stays in step over a removal |
| MembershipProofs.MsMembershipProof.RevertUpdateFromRemove | consensus/src/mutator_set/ms_membership_proof.rs:522-562 | a proof in step with the mutator set after a removal comes back in step with the one before it, given the record as it was then |
| MembershipProofs.RemoveAndBack | consensus/src/mutator_set/ms_membership_proof.rs:475-562 | rolling a proof forward over a removal and back with the same record gives the original proof |
| RemovalReversions.BatchReversionArgument | consensus/src/mutator_set/shared.rs:154-224 | every dictionary gets its chunks from before the removal back, the argument has all chunks changed, each with its path from before or from after, and exactly the dictionaries with such a chunk are reported |
| RemovalReversions.InsertedThenRemoved | consensus/src/mutator_set/removal_record/chunk.rs:94-111 | removing indices once each after inserting them restores the very list |
| RemovalReversions.PathsFollowReversion | consensus/src/mutator_set/ms_membership_proof.rs:545-559 | the batch takes every path from after the removal back to the one from before it |
| MixedPaths.RestoringBatch | consensus/src/mutator_set/shared.rs:154-224 | mutations that restore their leafs bring every path to that of the restored list, whichever of the two lists each of their own paths is from |
| MembershipProofs.BatchUpdateProofsFromAddition | consensus/src/mutator_set/ms_membership_proof.rs:74-275 | all proofs in step stay in step over an addition |
| MembershipProofs.BatchUpdateProofsFromRemove | consensus/src/mutator_set/ms_membership_proof.rs:422-473 | all proofs in step stay in step over a removal |
| MembershipProofs.TrimmedIsPath | consensus/src/mutator_set/ms_membership_proof.rs:395-401 | trimming a path to the XOR height gives the path in the smaller mountain range |
| MembershipProofs.TrimmedDictionarySynced | consensus/src/mutator_set/ms_membership_proof.rs:403-417 | dropping later chunks and trimming paths gives the dictionary from before the slides |
| MembershipProofs.ForwardAndBack | consensus/src/mutator_set/ms_membership_proof.rs:279-418 | rolling a proof forward over any number of additions and back gives the original proof |
| MembershipProofs.VerifyMembership | consensus/src/mutator_set/mutator_set_accumulator.rs:252-339 | accepts exactly when the commitment is in the list with that path, every touched inactive chunk is authentic, and some index is not set |
| MembershipProofs.Drop | consensus/src/mutator_set/mutator_set_accumulator.rs:342-354 | a proof in step yields a removal record in step |
| MembershipProofs.CommitmentBinds | consensus/src/mutator_set/mod.rs:46-51 | a commitment binds item, sender randomness and receiver preimage |
| ArchivalMutatorSets.ArchivalMutatorSet.Add | node/src/util_types/archival_mutator_set.rs:69-83 | one commitment more and the same indices, also when the window slides |
| ArchivalMutatorSets.ArchivalMutatorSet.Remove | node/src/util_types/archival_mutator_set.rs:559-608 | exactly the record's indices are added |
| ArchivalMutatorSets.ArchivalMutatorSet.BatchRemove | node/src/util_types/archival_mutator_set.rs:96-161 | exactly the indices of all records are added |
| ArchivalMutatorSets.ArchivalMutatorSet.AddIsReversible | node/src/util_types/archival_mutator_set.rs:399-403 | whether the last commitment is the given one |
| ArchivalMutatorSets.ArchivalMutatorSet.RevertAdd | node/src/util_types/archival_mutator_set.rs:411-431 | the last commitment is taken back, and the window slides back with its empty-last-chunk assertion met |
| ArchivalMutatorSets.ArchivalMutatorSet.RevertRemove | node/src/util_types/archival_mutator_set.rs:358-395 | exactly the record's indices are taken out, none of them missing |
| ArchivalMutatorSets.ArchivalMutatorSet.BloomFilterContains | node/src/util_types/archival_mutator_set.rs:439-457 | looks up the index after its position in the window has been truncated to 32 bits |
| ArchivalMutatorSets.LookupIsMembershipIff | node/src/util_types/archival_mutator_set.rs:439-457 | the lookup of an index agrees with membership, whatever is stored, if and only if the index lies below window start + 2^32 or its truncated position outside the window |
| ArchivalMutatorSets.FutureIndexReportedSet | node/src/util_types/archival_mutator_set.rs:439-457 | after one item has been added and removed, with whatever positions, the index 2^32 above its first one is reported as set although it is not |
| ArchivalMutatorSets.ArchivalMutatorSet.AbsoluteIndexSetWasApplied | node/src/util_types/archival_mutator_set.rs:463-479 | whether every index of the set is reported as set |
| ArchivalMutatorSets.ArchivalMutatorSet.Accumulator | node/src/util_types/archival_mutator_set.rs:491-500 | an accumulator of the same commitments, chunks, window and indices |
| ArchivalMutatorSets.ArchivalMutatorSet.Clear | node/src/util_types/archival_mutator_set.rs:165-170 | the brand new state |
| ArchivalMutatorSets.Subtract | consensus/src/mutator_set/removal_record/chunk.rs:142-154 | the multiset difference, still sorted |
| ArchivalMutatorSets.DifferenceStep | node/src/util_types/archival_mutator_set.rs:110-121 | the difference dictionary covers exactly the inactive indices seen so far |
| Blocks.Validate | consensus/src/block/mod.rs:553-621 | the mutator set rules accept a block if and only if its records are in step, nothing is spent twice, its body commits to the result and its fee is not negative; each refusal names the first rule that is broken |
| Blocks.RepeatsIff | consensus/src/block/mod.rs:570-578 | after sorting out duplicates there are fewer index sets than inputs if and only if two inputs have the same one |
| Blocks.RepeatsSpendTwice | consensus/src/block/mod.rs:570-581 | a repeated index set is always a double spend, so the uniqueness rule rejects nothing that the later rule would let through |
| Blocks.BodyCommitsIffEqual | consensus/src/block/mod.rs:593-596 | the hash comparison decides equality of mutator sets |
| Blocks.MutatorSetAccumulatorAfter | consensus/src/block/block_body.rs:138-147 | the body's mutator set with the guesser fees added and no index changed |
| BlockTree.FindPath | node/src/state/archival_state.rs:188-245 | terminates on every well-formed tree with the latest common ancestor and exactly the two connecting chains |
| BlockTree.StoringKeepsFolds | node/src/state/archival_state.rs:342-466 | storing a block changes no chain and no fold of the blocks already known |
| ArchivalStates.ApplyUpdate | node/src/state/archival_state.rs:1254-1284 | all additions, with the block's records kept in step, and then all removals |
| ArchivalStates.RevertUpdate | node/src/state/archival_state.rs:1208-1229 | removals and then additions in reverse order are undone, no assertion on the way fails |
| ArchivalStates.ApplyThenRevert | node/src/state/archival_state.rs:1188-1285 | applying a block and reverting it restores the exact earlier commitments, chunks, window and vectors |
| ArchivalStates.ThreeWaysAgree | node/src/state/archival_state.rs:1254-1295 | body plus guesser fees, update on the accumulator, and update on the archival mutator set end in the same mutator set and hash for every valid block |
| ArchivalStates.ArchivalState.constructor | node/src/state/archival_state.rs:261-309 | the mutator set and the block mountain range follow genesis |
| ArchivalStates.ArchivalState.RollBack | node/src/state/archival_state.rs:1188-1230 | the mutator set of a block's predecessor |
| ArchivalStates.ArchivalState.Apply | node/src/state/archival_state.rs:1232-1285 | the mutator set of the block |
| ArchivalStates.ArchivalState.UpdateMutatorSet | node/src/state/archival_state.rs:1137-1304 | for every stored block, across any reorganisation, the mutator set becomes the fold of all updates from genesis to that block; fails without a change if the block has no update |
| ArchivalStates.ArchivalState.SanityCheck | node/src/state/archival_state.rs:1289-1295 | the comparison with what the block commits to always succeeds |
| ArchivalStates.ArchivalState.AppendToArchivalBlockMmr | node/src/state/archival_state.rs:540-610 | the leafs become the chain of the new block in height order, across any reorganisation |
| ArchivalStates.ArchivalState.IsCanonicalBlock | node/src/state/archival_state.rs:902-915 | true exactly for the tip and its ancestors |
| ArchivalStates.ArchivalState.StoreBlock | node/src/state/archival_state.rs:468-496 | the tree with one more valid block; nothing known before changes |
| ArchivalStates.ArchivalState.SetNewTip | node/src/state/archival_state.rs:510-516 | stores the block if new and then follows it with mutator set and block mountain range |
| ArchivalStates.ArchivalState.AccumulatorAfter | consensus/src/block/mod.rs:335-344 | the fold of updates up to any known block, computed from that block alone |
| ArchivalStates.ArchivalState.ImportBlock | node/src/state/mod.rs:978-1034 | a block becomes the tip exactly if it is new, one above a known block, valid on top of it and passes the other rules when blocks are validated; a known block is skipped and any other refused, without a change |
| ArchivalStates.ArchivalState.ImportBlocks | node/src/state/mod.rs:956-1049 | for every list of blocks, valid or not and in any order: the tree grows by exactly the blocks accepted in turn, the tip becomes the last of them, their number is returned, success means that every block is known, and the state stays the fold of a valid chain from genesis with the matching block mountain range; without validation the same holds if each block is valid in its turn |
| ArchivalStates.AcceptedAreNew | node/src/state/mod.rs:978-1034 | each block accepted in turn is new, has another hash than those before it and is valid on top of the tree that holds them |
| MerkleTrees.ParMerkleZip | consensus/src/block/pow.rs:107-125 | whole stretches of the checkpoint distance cover all parents of a layer, since both are powers of two |
| MerkleTrees.MTree.BuildInplace | consensus/src/block/pow.rs:69-98 | every depth of the heap-shaped vector holds the corresponding level of the tree, and the leafs are unchanged |
| MerkleTrees.MTree.GetRoot | consensus/src/block/pow.rs:127-129 | the root of the tree |
| MerkleTrees.MTree.Path | consensus/src/block/pow.rs:131-139 | the leaf's authentication path, of the tree's height |
| MerkleTrees.VerifyPath | consensus/src/block/pow.rs:141-159 | accepts exactly if hashing up the path gives the root and the index is at most 2^length |
| MerkleTrees.OneIndexTooMany | consensus/src/block/pow.rs:142-145 | index 2 passes for a tree of two leafs with the proof of leaf 0 |
| MerkleTrees.ClimbIffPath | consensus/src/block/pow.rs:141-159 | hashing up leads to the root if and only if leaf and path are those of the tree |
| Bitreversals.BitreverseBit | consensus/src/block/pow.rs:321-328 | bit i of the result is bit n - 1 - i of the word and all further bits are clear |
| Bitreversals.ReversedInvolutive | consensus/src/block/pow.rs:321-328 | on the indices below 2^h, for h from 1 to 32, the reversal stays below 2^h and undoes itself |
| Bitreversals.Masks | consensus/src/block/pow.rs:321-325 | a mask m with m + 2^s m = 2^32 - 1 and its complement, like those in the code, are the alternating blocks of s bits |
| ProofsOfWork.Indices | consensus/src/block/pow.rs:310-319 | the two indices come from 63 hash applications and lie below 2^h |
| ProofsOfWork.Leaf | consensus/src/block/pow.rs:301-308 | the slow leaf is the root over 32 buds from the index on, going round |
| ProofsOfWork.BudLayer | consensus/src/block/pow.rs:371-381 | one pass takes roots over 2^i buds to roots over 2^(i+1) buds, for every position |
| ProofsOfWork.SwapIndices | consensus/src/block/pow.rs:330-340 | each position with a larger reversal is paired with it |
| ProofsOfWork.SwapLeafs | consensus/src/block/pow.rs:395-400 | the swaps move every leaf to its bit-reversed position |
| ProofsOfWork.Preprocess | consensus/src/block/pow.rs:342-407 | five passes, swap parity and bit reversal make leaf k of the tree the slow leaf of the reversed index, for every height from 1 to 32 |
| ProofsOfWork.Guess | consensus/src/block/pow.rs:409-441 | returns the one answer of the nonce exactly if the number of its hash is at most that of the target |
| ProofsOfWork.Validate | consensus/src/block/pow.rs:443-481 | accepts exactly if both paths lead from the picked slow leafs to the root and the number of the hash is at most that of the target |
| ProofsOfWork.ExceedsIffGreater | consensus/src/block/pow.rs:475-475 | comparing digests element by element from the last one on is comparing the numbers that they denote |
| ProofsOfWork.ExceedsIsTotal | consensus/src/block/pow.rs:475-475 | of two different digests exactly one exceeds the other |
| ProofsOfWork.AnyPicks | consensus/src/block/pow.rs:310-319 | the picked leafs are the first two elements of the last hash, in that order, and any two leafs can be picked |
| ProofsOfWork.IndexerInjective | consensus/src/block/pow.rs:310-319 | the last of the repeated hashes commits to preimage and nonce |
| ProofsOfWork.PreimageBinds | consensus/src/block/pow.rs:267-272 | what picks the leafs is the same if and only if root and mast paths are |
| ProofsOfWork.LeafsBind | consensus/src/block/pow.rs:297-308 | the leafs of a buffer are all different, and each commits to the previous block |
| ProofsOfWork.AcceptedIffAnswer | consensus/src/block/pow.rs:443-481 | among proofs with the guesser's root, exactly the one that guessing with the same nonce returns is accepted |
| ProofsOfWork.AnswerAccepted | consensus/src/block/pow.rs:409-481 | whatever guessing returns on the preprocessed buffer passes validation |
| ProofsOfWork.GuessAndValidate | consensus/src/block/pow.rs:342-481 | preprocessing, guessing and validating in a row: a proof that is found is accepted, and one is found exactly if the answer meets the target |
| BlockHashes.PadLeafs | consensus/src/proof_abstractions/mast_hash.rs:22-35 | padding stops at the smallest power of two, found with n AND (n - 1) |
| BlockHashes.MastPathLeads | consensus/src/proof_abstractions/mast_hash.rs:37-45 | a field's path leads to the root, does not depend on the field, and gives the root for any other value of the field |
| BlockHashes.PathsIgnorePow | consensus/src/block/mod.rs:728-744 | the mast paths of a block do not depend on its proof of work |
| BlockHashes.FastMastHashIsBlockHash | consensus/src/block/pow.rs:201-221 | the fast hash over a block's paths is the hash of the block with that proof of work installed |
| BlockHashes.WitnessHashIsBlockHash | consensus/src/block/block_header.rs:252-266 | the hash of a header with its witness is the block hash |
| BlockHashes.Block.Hash | consensus/src/block/mod.rs:279-281 | the cached digest is the hash of the current content |
| BlockHashes.BlockHashCommits | consensus/src/block/mod.rs:279-281 | blocks have the same hash if and only if header, body, appendix and proof are the same |
| BlockHashes.MastHashInjective | consensus/src/proof_abstractions/mast_hash.rs:22-35 | the root over the padded fields determines every field |
| BlockHashes.Block.SetHeaderPow | consensus/src/block/mod.rs:776-779 | sets the field and leaves no stale digest |
| BlockHashes.Block.SetHeaderGuesserReceiverData | consensus/src/block/mod.rs:293-301 | sets both fields and leaves no stale digest |
| BlockHashes.Block.SetHeaderTimestampAndDifficulty | consensus/src/block/mod.rs:310-319 | sets both fields and leaves no stale digest |
| BlockHashes.Block.SetBlock | consensus/src/block/mod.rs:353-355 | takes over the other block with a digest that fits |
| BlockHashes.Block.HasProofOfWork | consensus/src/block/mod.rs:698-724 | true exactly after a difficulty reset, for a mock proof where allowed, or for an accepted proof whose hash meets the target of the previous difficulty, and otherwise false |
| BlockHashes.TargetMetIff | consensus/src/block/difficulty_control.rs:66-75 | a hash meets the target of a difficulty if and only if its number times the difficulty is at most the largest digest |
| BlockHashes.TargetsDescend | consensus/src/block/difficulty_control.rs:66-75 | what meets the target of a difficulty meets those of all lower ones |
| BlockHashes.ResetWhen | consensus/src/block/mod.rs:681-691 | the difficulty is reset exactly if the network has an interval and the time since the previous block, modulo the field, reaches it |
| BlockHashes.InstalledGuessSolves | consensus/src/block/mod.rs:698-779 | installing what guessing returned for the block's own paths and target gives the block proof of work |
| Difficulties.Compare | consensus/src/block/difficulty_control.rs:153-164 | the fold over the limbs decides the order of the numbers |
| Difficulties.NewDifficulty | consensus/src/block/difficulty_control.rs:50-64 | a number below the minimum is raised to it, any other is kept |
| Difficulties.SumFits | consensus/src/block/difficulty_control.rs:89-103 | no 64-bit sum overflows, and the carry of the second pass stays below 2^32 |
| Difficulties.SafeMulFixedPointRational | consensus/src/block/difficulty_control.rs:81-108 | limbs and overflow are remainder and quotient of the rounded down product by 2^160 |
| Difficulties.FactorInRange | consensus/src/block/difficulty_control.rs:455-471 | the adjustment factor lies between 3/4 and 17/16 |
| Difficulties.DifficultyControl | consensus/src/block/difficulty_control.rs:437-482 | the old difficulty times a factor of 1 minus a sixteenth of the relative error, clamped to 4 and rounded, within minimum and maximum, unchanged right after genesis; builds with overflow checks panic exactly if the i64 subtraction overflows, others wrap around |
| Difficulties.NoI64OverflowIff | consensus/src/block/difficulty_control.rs:455-455 | for targets below 2^63 the subtraction overflows exactly for block times from 2^63 up to 2^63 + target |
| Difficulties.FactorLaw | consensus/src/block/difficulty_control.rs:455-471 | up to 2^63 above the target, 16 times the factor plus the relative error is 16, up to one unit of rounding, unless the error exceeds 4, where the factor is 3/4 |
| Difficulties.ScaledLaw | consensus/src/block/difficulty_control.rs:473-481 | the next difficulty is the rounded down product with the factor, or the minimum above it, or the maximum below it |
| Difficulties.LongBlocksLowerDifficulty | consensus/src/block/difficulty_control.rs:437-482 | the difficulty falls if and only if the block took longer than the target and the difficulty is above the minimum |
| Difficulties.LongBlockTimeLowersDifficulty | consensus/src/block/difficulty_control.rs:437-482 | ten times the target takes a difficulty of 16000 to 12000 |
| Difficulties.ScalesWithinBounds | consensus/src/block/difficulty_control.rs:437-482 | between 3/4 and 17/16 of the old difficulty apart from rounding, minimum and maximum |
| Difficulties.NonIncreasingIff | consensus/src/block/difficulty_control.rs:437-482 | a longer block time b never means a higher difficulty than a, whatever the old difficulty, if and only if b < 2^63 + target, or 2^63 + target <= a, or target > 2^32, or a is 0 and target divides 2^32 |
| Difficulties.HugeBlockTimeRaisesDifficulty | consensus/src/block/difficulty_control.rs:455-455 | a block time of 2^63 milliseconds above the target counts as negative and raises the difficulty from 16000 to 17000 |
| ChainWork.AddWork | consensus/src/block/difficulty_control.rs:262-278 | addition modulo 2^192 |
| ChainWork.ValidateHeader | consensus/src/block/mod.rs:486-537 | accepts exactly successors in height, time, difficulty and cumulative work; panics exactly if the difficulty rule is reached, overflow is checked and the i64 subtraction overflows |
| ChainWork.DifficultyAboveMinimum | consensus/src/block/mod.rs:510-530 | no chain of valid headers ever falls below the minimum difficulty |
| ChainWork.WorkGrows | consensus/src/block/mod.rs:532-537 | work grows strictly from block to block if and only if the sum stays below 2^192 |
| ChainWork.WorkWrapsAround | consensus/src/block/mod.rs:532-537 | a valid step over which work falls from 2^192 - 1 to 15999 |
| ChainWork.MaxCumulativePowAfter | consensus/src/block/difficulty_control.rs:488-524 | the loop with its early exit computes the work, raised by one millionth, plus the difficulty times f + f^2 + ... + f^n for n blocks and the largest factor f, rounded down and capped |
| ChainWork.MaxWorkIsMostWork | consensus/src/block/difficulty_control.rs:488-524 | for every start and every number of blocks the step by step bound is that sum of powers, rounded down and capped |
| ChainWork.SumOfPowersClosed | consensus/src/block/difficulty_control.rs:488-524 | (f - 1) times the sum of powers is f^(n+1) - f |
| ChainWork.MaxFactorIs | consensus/src/block/difficulty_control.rs:500-508 | the largest factor is that of a block of the minimum time, plus one millionth |
| ChainWork.StepBound | consensus/src/block/difficulty_control.rs:437-482 | one block of moderate time multiplies the difficulty by at most the factor that the bound uses |
| ChainWork.BoundHoldsIffModerate | consensus/src/block/difficulty_control.rs:488-524 | one more block keeps the work within the bound, whatever work and difficulty were before, if and only if its adjustment factor is at most the factor of the bound |
| ChainWork.ModerateWhen | consensus/src/block/difficulty_control.rs:437-524 | that is so for every block time from the minimum up to 2^63 + target, and for longer ones if and only if 10^6 times the minimum is at most 16 times the target |
| ChainWork.OrdinaryTimesAreModerate | consensus/src/block/difficulty_control.rs:437-524 | a chain of valid headers is within the condition of the bound if every block time lies between the minimum and 2^63 + target |
| ChainWork.ResetWithinBoundIff | consensus/src/block/mod.rs:510-530 | a block that resets the difficulty stays within the bound, whatever work and difficulty were before, if and only if the difficulty it resets to is at most the minimum times the factor of the bound |
| ChainWork.MockNetworkReset | consensus/src/block/mod.rs:681-691 | on the mock test network a reset from 6000 to 100000 takes the work above the bound |
| ChainWork.BoundFailsForHugeBlockTime | consensus/src/block/difficulty_control.rs:488-524 | on the main network a valid block with a time of 2^63 milliseconds above the target takes the work from 0 to 17000, above the bound |
| ChainWork.BoundFailsForWrappedTime | consensus/src/block/mod.rs:503-508 | near the largest timestamp the minimum-time sum wraps around, so that a block time of 0 is valid and takes the work above the bound |
| ChainWork.HonestWorkWithinBound | consensus/src/block/difficulty_control.rs:488-524 | for every chain of valid headers with moderate block times the final work is at most the bound computed from its start |
| ChainWork.EvolutionOkay | p2p/src/peer.rs:839-854 | true exactly if, from each claim to the next, the work has not fallen and has not grown by more than one millionth of it and the difficulty times the sum of powers for the blocks in between |
| ChainWork.WithinMostWork | p2p/src/peer.rs:839-854 | neither rounding nor cap changes the answer for any claim that fits its limbs |
| ChainWork.ImplausibleClaim | p2p/src/peer.rs:839-854 | on the main network one block of difficulty 16000 is believed to take a work of 1000000 to at most 1016844 |
| ChainWork.HonestClaimsPlausible | p2p/src/peer.rs:839-854 | claims taken from a valid chain with moderate block times, at any heights, pass the evolution check as long as work has not wrapped around |
| Mempools.Mempool.constructor | node/src/state/mempool.rs:172-191 | an empty pool that follows the given tip |
| Mempools.Mempool.Remove | node/src/state/mempool.rs:467-473 | the transaction is gone from dictionary and queue |
| Mempools.Mempool.PopMin | node/src/state/mempool.rs:632-643 | a transaction of the lowest fee density is removed; none exactly if the pool is empty |
| Mempools.Mempool.ShrinkToMaxSize | node/src/state/mempool.rs:790-818 | what is left comes from a run of single steps, each dropping the oldest cache element while the cache takes more than a third and a transaction of the lowest fee density otherwise, that ends as soon as the pool is small enough or empty; the last thing dropped had to go, and transactions dropped pay no more than any that stay |
| Mempools.Mempool.RunLaws | node/src/state/mempool.rs:790-818 | every state of every such run holds a part of the pool, has dropped only the cheapest and has not dropped more than it had to |
| Mempools.Mempool.Insert | node/src/state/mempool.rs:338-462 | goes ahead exactly under the replacement policy and then leaves the transaction in place of its conflicts, replaced merge inputs in the cache, and what a shrinking run makes of that; no conflict, matching indexes and a pool within its size |
| Mempools.Mempool.ReplaceConflicts | node/src/state/mempool.rs:403-444 | everything in conflict is replaced, and exactly the merge inputs with a single proof go to the cache, in some order |
| Mempools.InsertedTwice | node/src/state/mempool.rs:338-462 | inserting a transaction a second time changes nothing |
| Mempools.HigherFeeWins | node/src/state/mempool.rs:338-462 | of two conflicting transactions with proofs of the same quality the one that pays more stays, whichever came first, and the first one if they pay the same |
| Mempools.MergeReplacesBoth | node/src/state/mempool.rs:338-462 | a merge replaces both its inputs exactly if it pays more than the cheaper of them |
| Mempools.UpdateReplacesStale | node/src/state/mempool.rs:338-462 | a transaction updated to the current mutator set replaces the stale one, whatever the fee |
| Mempools.UnprovedGivesWay | node/src/state/mempool.rs:338-462 | one conflict without a single proof is enough for a transaction with one to replace all of them, whatever they pay |
| Mempools.ProvedStays | node/src/state/mempool.rs:338-462 | one conflict with a single proof is enough to keep out a transaction without one that pays no more than any of them |
| Mempools.ReplaceEachOtherIff | node/src/state/mempool.rs:338-462 | two conflicting transactions replace each other if and only if one pays more and the other has the better proof |
| Mempools.ConflictIffShared | node/src/state/mempool.rs:403-444 | transactions conflict if and only if they have an input in common |
| Mempools.CacheWithIs | node/src/state/mempool/merge_input_cache.rs:75-91 | the transaction takes the place of a cached one with the same identifier, and comes last if there is none |
| Mempools.Mempool.Retain | node/src/state/mempool.rs:650-674 | exactly the transactions that satisfy the predicate stay |
| Mempools.Mempool.PruneStaleTransactions | node/src/state/mempool.rs:680-688 | exactly the transactions after the cutoff stay |
| Mempools.Mempool.UpdateWithBlock | node/src/state/mempool.rs:696-784 | the pool is what inserting in turn the spendable cached transactions, oldest first, makes of the spendable ones in the pool, with shrinking in between; so only transactions with a spendable index left in each input remain, with an empty cache all of them if they fit; after a reorganisation pool and cache are empty |
| Mempools.UndisputedComesBack | node/src/state/mempool.rs:696-784 | without a size limit, a spendable transaction that conflicts with no other one in pool or cache is in the pool afterwards |
| Mempools.RestoredInputLost | node/src/state/mempool.rs:696-784 | two cached inputs of a merge paying 1 and 3 with the merge paying 2: only the second comes back, although the first does not conflict with it |
| Mempools.ConflictIsUnspendable | node/src/state/mempool.rs:696-784 | whatever conflicts with a transaction of the block is not spendable after it |
| Mempools.StillValidIsSpendable | node/src/state/mempool.rs:696-784 | spendable means what removal from the mutator set asks for: each input has an index that is not set |
| Mempools.RestorableFromCache | node/src/state/mempool/merge_input_cache.rs:98-125 | exactly the cached transactions that the block has left spendable, oldest first |
| Mempools.Mempool.GetTransactionsForBlockComposition | node/src/state/mempool.rs:588-626 | synced, single-proof, pairwise non-conflicting transactions by descending fee density within both limits; nothing ready that was passed over still fits, and without limits it is all of them |
| Mempools.Mempool.WithMatchingPuts | node/src/state/mempool.rs:497-547 | every matching transaction once; a reported position is the index in the unlimited composition list, and is reported exactly for transactions with a single proof for the current mutator set |
| Mempools.ReadyListHas | node/src/state/mempool.rs:588-626 | the ready transactions are exactly those with a single proof for the current mutator set |
| SynchronizationBitMasks.SynchronizationBitMask.constructor | p2p/src/peer/synchronization_bit_mask.rs:196-220 | contains exactly what lies below the lower bound |
| SynchronizationBitMasks.SynchronizationBitMask.Canonize | p2p/src/peer/synchronization_bit_mask.rs:152-166 | the lower bound becomes the least missing index or the upper bound; no membership changes |
| SynchronizationBitMasks.SynchronizationBitMask.Set | p2p/src/peer/synchronization_bit_mask.rs:299-320 | exactly one more member |
| SynchronizationBitMasks.SynchronizationBitMask.SetRange | p2p/src/peer/synchronization_bit_mask.rs:422-441 | exactly the range is added, whole limbs and single bits together; panics without a change exactly if a whole limb lies below the stored ones |
| SynchronizationBitMasks.RangeBelowUnderflows | p2p/src/peer/synchronization_bit_mask.rs:427-434 | with lower bound 64 and upper bound 200, setting 0 to 70 underflows |
| SynchronizationBitMasks.SynchronizationBitMask.Not | p2p/src/peer/synchronization_bit_mask.rs:86-106 | membership is inverted between the bounds only |
| SynchronizationBitMasks.SynchronizationBitMask.BitOr | p2p/src/peer/synchronization_bit_mask.rs:112-145 | the union |
| SynchronizationBitMasks.SynchronizationBitMask.Expand | p2p/src/peer/synchronization_bit_mask.rs:248-270 | a higher upper bound and the same members |
| SynchronizationBitMasks.SynchronizationBitMask.Reconcile | p2p/src/peer/synchronization_bit_mask.rs:224-239 | a missing index of the result is held by the other side and not by us; such an index is reported if and only if it is not below the other side's lower bound in the same limb, or the other side is incomplete and has the bit set there; a filled, incomplete other side misses nothing |
| SynchronizationBitMasks.ReconcileMisses | p2p/src/peer/synchronization_bit_mask.rs:222-239 | with own bounds 33 and 64 and the other side complete at 40, index 35 is missing here, held there and not reported |
| MaskEqualities.EqualIsSameSetIff | p2p/src/peer/synchronization_bit_mask.rs:51-78 | equal masks are the same set, for all masks with given bounds, if and only if not lower < 32 <= upper with upper no multiple of 32, apart from lower = 31 with upper < 64 |
| MaskEqualities.SameSetIsEqualIff | p2p/src/peer/synchronization_bit_mask.rs:51-78 | masks that are the same set compare equal, for all masks with given bounds, if and only if the lower bound is a multiple of 32, or lower < 32 <= upper < 64 with upper no multiple of 32 |
| MaskEqualities.SameSetIsEqual | p2p/src/peer/synchronization_bit_mask.rs:51-78 | masks with the same bounds and the same set compare equal if the stored bits below the lower bound are set in both |
| MaskEqualities.CompleteEqualIff | p2p/src/peer/synchronization_bit_mask.rs:53-58 | complete masks compare equal if and only if they are the same set |
| MaskEqualities.EqualMasksDiffer | p2p/src/peer/synchronization_bit_mask.rs:63-73 | two masks from 0 to 40 that differ at 31 compare equal |
| MaskEqualities.SameMasksUnequal | p2p/src/peer/synchronization_bit_mask.rs:59-61 | a mask complete at 40 and expanded to 64 is the same set as a new one from 40 to 64 and compares unequal |
| SynchronizationBitMasks.SynchronizationBitMask.PopCount | p2p/src/peer/synchronization_bit_mask.rs:396-414 | the number of members between the bounds |
| SynchronizationBitMasks.SynchronizationBitMask.CompleteIff | p2p/src/peer/synchronization_bit_mask.rs:387-392 | complete means that nothing below the upper bound is missing |
| SynchronizationBitMasks.SynchronizationBitMask.ToVecComplement | p2p/src/peer/synchronization_bit_mask.rs:324-328 | exactly the unset indices between the bounds, in ascending order |
| SynchronizationBitMasks.SynchronizationBitMask.SampleMany | p2p/src/peer/synchronization_bit_mask.rs:349-374 | terminates for any random numbers with the requested number of unset indices |
| AbsoluteIndexSets.New | consensus/src/mutator_set/removal_record/absolute_index_set.rs:57-78 | fails exactly if two indices are a window or more apart, and otherwise stores the very indices |
| AbsoluteIndexSets.NewOfArray | consensus/src/mutator_set/removal_record/absolute_index_set.rs:57-125 | reading a set made by the constructors and constructing it again gives the same set |
| AbsoluteIndexSets.Compute | consensus/src/mutator_set/removal_record/absolute_index_set.rs:81-113 | the indices are the sampled positions in the window of the item's batch |
| AbsoluteIndexSets.AoclRangeExact | consensus/src/mutator_set/removal_record/absolute_index_set.rs:176-218 | a leaf index is in the returned range if and only if the index set can have been drawn for that leaf; an error is returned exactly if the distances exceed a window or the range exceeds 64 bits |
| RestoredProofs.TargetChunks | node/src/util_types/archival_mutator_set.rs:252-278 | exactly the inactive chunks that the indices touch, as they are now, with their paths |
| RestoredProofs.RestoreMembershipProof | node/src/util_types/archival_mutator_set.rs:239-287 | a proof in step for every leaf there is, and the right error otherwise |
| RestoredProofs.RestorePrivately | node/src/util_types/archival_mutator_set.rs:291-347 | the paths of exactly the leafs that the indices can stem from, and the touched chunks in step |
| RestoredProofs.Extract | standards/src/mutator_set.rs:28-54 | the proof with the path of the leaf, exactly if its path was sent |
| RestoredProofs.RestoreThenExtract | standards/src/mutator_set.rs:28-54 | without naming the leaf a proof in step is obtained for exactly the leafs that the indices can have been drawn for |
| RestoredProofs.RestoredProofVerifies | node/src/util_types/archival_mutator_set.rs:239-287 | a restored proof verifies if and only if the commitment is the one in the list and some index is not set |
| ChunkPackings.PackDigits | consensus/src/mutator_set/removal_record/chunk.rs:224-254 | the words are the digits bit for bit, padded with zeros |
| ChunkPackings.UnpackDigits | consensus/src/mutator_set/removal_record/chunk.rs:304-361 | the digits are the words' first bits, and what follows is shorter than a word |
| ChunkPackings.Pack | consensus/src/mutator_set/removal_record/chunk.rs:195-220 | the one packed form, for exactly the chunks that are short enough and have small enough indices |
| ChunkPackings.LengthIndicated | consensus/src/mutator_set/removal_record/chunk.rs:195-220 | the length indicator has one digit below the flag and two from it on, and the length can be read off it |
| ChunkPackings.TryUnpack | consensus/src/mutator_set/removal_record/chunk.rs:257-382 | accepts exactly what packing produces, and gives back what was packed |
| ChunkPackings.PackedFormUnique | consensus/src/mutator_set/removal_record/chunk.rs:195-220 | a chunk has one packed form |
| ChunkPackings.UnpackedFormUnique | consensus/src/mutator_set/removal_record/chunk.rs:257-382 | words are the packed form of at most one chunk |
| ChunkPackings.PackThenUnpack | consensus/src/mutator_set/removal_record/chunk.rs:195-382 | unpacking gives back the chunk that was packed |
| ChunkPackings.UnpackThenPack | consensus/src/mutator_set/removal_record/chunk.rs:195-382 | whatever unpacks is, word for word, what packing makes of the result |
| LeafCountEstimates.EstimateNumLeafs | consensus/src/mutator_set/removal_record/removal_record_list.rs:283-316 | from the largest index and the path lengths of a mountain range the loop computes its leaf count with the bits below the largest leaf's tree cleared |
| LeafCountEstimates.EstimateHasBits | consensus/src/mutator_set/removal_record/removal_record_list.rs:283-316 | for any largest index, the estimate from descending lengths has the bits of all of them set |
| LeafCountEstimates.EstimateIsViable | consensus/src/mutator_set/removal_record/removal_record_list.rs:266-275 | with that many leafs all observed leafs exist, in trees of the same height |
| LeafCountEstimates.EstimateIsMinimal | consensus/src/mutator_set/removal_record/removal_record_list.rs:266-275 | with fewer leafs the largest leaf has another path length |
| LeafCountEstimates.AoclEstimateIsMinimal | consensus/src/mutator_set/removal_record/removal_record_list.rs:266-315 | the returned number of commitments has that many chunks, and is the smallest one if and only if there are chunks |
| SparseMountainRanges.AddPath | consensus/src/mutator_set/removal_record/removal_record_list.rs:173-208 | all nodes on and beside a path are added, none contradicting what is known |
| SparseMountainRanges.Complete | consensus/src/mutator_set/removal_record/removal_record_list.rs:797-837 | parents are added until families are complete, terminating, and all nodes stay those of the mountain range |
| SparseMountainRanges.ReachesSibling | consensus/src/mutator_set/removal_record/removal_record_list.rs:797-837 | completion from leafs and authentication structure reaches every node beside a path |
| SparseMountainRanges.ReadPath | consensus/src/mutator_set/removal_record/removal_record_list.rs:855-880 | the path read off the completed nodes is the leaf's own |
| RemovalRecordLists.LengthsAreHeights | consensus/src/mutator_set/removal_record/removal_record_list.rs:694-703 | path lengths of records in step are heights of trees, down to that of the largest chunk index |
| RemovalRecordLists.ConvertFromVec | consensus/src/mutator_set/removal_record/removal_record_list.rs:687-709 | the list has the index sets, every touched chunk once, and for each tree the digests beside and not on the paths |
| RemovalRecordLists.FromRemovalRecords | consensus/src/mutator_set/removal_record/removal_record_list.rs:124-264 | the same, with no assertion on the way failing |
| PackedRecords.Pack | consensus/src/mutator_set/removal_record/removal_record_list.rs:328-420 | the packed form of records in step, with their index sets, exactly if every touched chunk can be packed |
| PackedRecords.EncodeAsVec | consensus/src/mutator_set/removal_record/removal_record_list.rs:328-420 | for any list with a structure for every tree: the packed form, exactly if every chunk can be packed |
| PackedRecords.PackedListUnique | consensus/src/mutator_set/removal_record/removal_record_list.rs:328-420 | a list has one packed form |
| PackedRecords.DecodeEntries | consensus/src/mutator_set/removal_record/removal_record_list.rs:561-606 | succeeds exactly if every entry is a tree or has a chunk, all chunks unpack, the heights differ, and each tree before a chunk is in order; heights, structures and chunks are then those named by the entries, and each error names its reason |
| PackedRecords.ListIsConsistent | consensus/src/mutator_set/removal_record/removal_record_list.rs:453-545 | the list of records in step passes the consistency check |
| PackedRecords.DecodeFromVec | consensus/src/mutator_set/removal_record/removal_record_list.rs:550-653 | for any packed records, a list comes out exactly if the entries decode, the chunk indices fit 64 bits, the tree heights ascend, the estimated number of leafs fits 64 bits and the list is consistent, and it is the list they name; panics exactly if otherwise the heights do not ascend or the estimate exceeds 64 bits; the packed form of records in step decodes to the very list |
| PackedRecords.UnsortedTreesPanic | consensus/src/mutator_set/removal_record/removal_record_list.rs:283-316 | two trees without a chunk, the larger height first, make decoding panic |
| PackedRecords.TreesOfConsistent | consensus/src/mutator_set/removal_record/removal_record_list.rs:453-545 | the trees of a list that passes the consistency check are exactly those that the entries name |
| PackedRecords.DecodeThenEncode | consensus/src/mutator_set/removal_record/removal_record_list.rs:328-653 | whatever decodes can be encoded again, and gives back the same records if and only if they are in canonical form: trees first, in order, and nothing in unused places |
| UnpackedRecords.ConvertToVec | consensus/src/mutator_set/removal_record/removal_record_list.rs:718-898 | the list of records in step gives back the records; panics exactly if a digest has the forbidden prefix |
| UnpackedRecords.TryUnpack | consensus/src/mutator_set/removal_record/removal_record_list.rs:666-671 | the packed form of records in step gives back the records; any error but a panic means that the entries hold no consistent list; whatever is unpacked keeps its index sets, and their chunk indices fit 64 bits |
| UnpackedRecords.PackThenUnpack | consensus/src/mutator_set/removal_record/removal_record_list.rs:657-671 | packing and unpacking gives back any records in step with one mutator set, unless a chunk cannot be packed or a digest has the forbidden prefix |

## Left out

- Storage, file formats, serialization, locks, networking, RPC and the command line are not modelled.
- STARK verification and the remaining rules of `Block::validate` (proof, size, coinbase, future dating, the mutator set hash of the transaction, counts) are a predicate that may refuse more blocks; rules 0.b and 0.c about the predecessor's digest and block accumulator are not modelled.
- The sponge that samples positions for an item is not modelled; any positions in the window are allowed.
- Blocks carry the unpacked records, or none if unpacking fails.
- `mutator_set_to_tip_internal` is not modelled.
- The library's mountain range accumulator and its batch updates are modelled by what they do to a list of leafs: one mutation after the other, each bringing the paths of the others up to date.
- MembershipProofs.MsMembershipProof.UpdateFromAddition: does not return whether something changed, because the library decides that for its paths.
- MembershipProofs.MsMembershipProof.UpdateFromRemove: does not return whether something changed, for the same reason.
- MembershipProofs.MsMembershipProof.RevertUpdateFromRemove: does not return whether something changed, for the same reason.
- MembershipProofs.BatchUpdateProofsFromAddition: does not return which proofs changed, for the same reason.
- MembershipProofs.BatchUpdateProofsFromRemove: does not return which proofs changed, for the same reason.
- MutatorSetUpdates.ApplyToAccumulatorAndRecords: does not say what the accumulator holds once a record was out of step at its turn, because the code declares it invalid then; the model stops there, where the code goes on and may panic.
- RecordUpdates.BatchUpdateFromAddition: does not model panics of the mountain range library on paths of the wrong length, because paths of records in step have the right one.
- UnpackedRecords.TryUnpack: does not say which chunks and paths come out of a consistent list that is not the list of records in step, nor for which of these a panic follows, because the records are validated after unpacking.
- AbsoluteIndexSets.AoclRangeExact: does not model what builds without overflow checks do when the largest index exceeds 128 bits, because no set made by the constructors has such an index.
- ProofsOfWork.Preprocess: does not model that the passes run in parallel, because every position is written once per pass and read only in the next.
- ArchivalStates.ArchivalState.constructor: does not cover databases that already have content, because what they hold is whatever an earlier run has stored.
- ArchivalStates.ArchivalState.ImportBlock: does not model the remaining validation rules, because they only refuse more blocks; they are a parameter.
- ArchivalStates.ArchivalState.ImportBlocks: does not model the remaining validation rules either.
- ArchivalStates.ArchivalState.SetNewTip: does not model the files in which a block is stored, because the tree of known blocks is all that later steps read.
- ChainWork.MaxCumulativePowAfter: does not model f64 rounding, because the bound is stated in exact real arithmetic.
- ChainWork.EvolutionOkay: does not model the heuristic about difficulties above the mean, because it says what is likely and not what is possible.
- ChainWork.ValidateHeader: does not model networks with a difficulty reset, because the chains that the bound is proved for have none; `ResetWithinBoundIff` says what a reset does to the bound.
- Difficulties.Compare: does not cover the right shift of difficulties, because no rule of the chain uses it.
- Mempools.Mempool.Insert: does not model the events returned to listeners, because pool and queue are what the guarantees are about.
- Mempools.Mempool.ShrinkToMaxSize: does not compute memory sizes, because they come from a library; an empty cache is taken to make up at most a third of the pool.
- Subsidies, coinbase rules, peer standing, wallets and mining loops are not modelled.
