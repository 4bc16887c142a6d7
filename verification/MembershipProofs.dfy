/** Membership proofs of items in the mutator set, kept in step with it and rolled back again. */
module MembershipProofs {
  import opened Digests
  import opened MountainRange
  import opened Sorting
  import opened ActiveWindows
  import opened MutatorSets
  import opened RemovalRecords
  import opened MutatorSetAccumulators
  import opened RecordUpdates
  import opened RemovalReversions

  /** commit, with the receiver digest derived from its preimage */
  function Commitment(item: Digest, senderRandomness: Digest, receiverPreimage: Digest): Digest {
    HashPair(HashPair(item, senderRandomness), HashPair(receiverPreimage, Default))
  }

  /** A commitment binds item and secrets. */
  lemma CommitmentBinds(item: Digest, senderRandomness: Digest, receiverPreimage: Digest, item': Digest, senderRandomness': Digest, receiverPreimage': Digest)
    ensures Commitment(item, senderRandomness, receiverPreimage) == Commitment(item', senderRandomness', receiverPreimage') <==>
            item == item' && senderRandomness == senderRandomness' && receiverPreimage == receiverPreimage'
  {
  }

  /** What AbsoluteIndexSet::compute draws for an item: positions in the window as of the item's batch. */
  predicate DrawnFor(indices: seq<nat>, aoclLeafIndex: nat) {
    aoclLeafIndex < LEAF_INDICES && forall i | i in indices ::
      aoclLeafIndex / BATCH_SIZE * CHUNK_SIZE <= i < aoclLeafIndex / BATCH_SIZE * CHUNK_SIZE + WINDOW_SIZE
  }

  lemma DrawnIsNoFuture(indices: seq<nat>, aoclLeafIndex: nat, ms: MutatorSet)
    requires DrawnFor(indices, aoclLeafIndex) && aoclLeafIndex < |ms.aocl|
    ensures NoFutureIndex(indices, ms.WindowStart())
  {
    assert aoclLeafIndex / BATCH_SIZE <= BatchIndex(|ms.aocl|);
  }

  /** One mutator set arises from the other by additions only. */
  ghost predicate Extends(later: MutatorSet, earlier: MutatorSet) {
    earlier.aocl <= later.aocl && earlier.chunks <= later.chunks
  }

  // ---------- trimming ----------

  function Trimmed(path: seq<Digest>, height: nat): seq<Digest> {
    if |path| > height then path[..height] else path
  }

  /** The tree height of a leaf, as the code computes it. */
  function HeightByXor(leafCount: nat, leafIndex: nat): nat
    requires leafIndex < leafCount
  {
    TreeHeightIsTopDifferingBit(leafCount, leafIndex);
    ILog2(Xor(leafIndex, leafCount))
  }

  method Trim(path: seq<Digest>, height: nat) returns (r: seq<Digest>)
    ensures r == Trimmed(path, height)
  {
    r := path;
    while |r| > height
      invariant |r| <= |path| && r == path[..|r|] && (|path| <= height ==> |r| == |path|)
      invariant |path| > height ==> |r| >= height
    {
      r := r[..|r| - 1];
    }
  }

  function TrimmedDictionary(dictionary: ChunkDictionary, leafCount: nat): ChunkDictionary {
    map c | c in dictionary && c < leafCount :: AuthChunk(Trimmed(dictionary[c].path, HeightByXor(leafCount, c)), dictionary[c].chunk)
  }

  /** Trimming a path to the tree height in a smaller mountain range gives the path there. */
  lemma TrimmedIsPath(leafs: seq<Digest>, m: nat, i: nat)
    requires i < m <= |leafs|
    ensures Trimmed(Path(leafs, i), HeightByXor(m, i)) == Path(leafs[..m], i)
  {
    TreeHeightIsTopDifferingBit(m, i);
    PathPrefix(leafs, m, i);
  }

  /** Trimming a dictionary undoes all window slides since. */
  lemma TrimmedDictionarySynced(indices: seq<nat>, dictionary: ChunkDictionary, later: MutatorSet, earlier: MutatorSet)
    requires DictionarySynced(indices, dictionary, later) && Extends(later, earlier)
    ensures DictionarySynced(indices, TrimmedDictionary(dictionary, |earlier.chunks|), earlier)
  {
    hide Path, Trimmed, HeightByXor;
    var n := |earlier.chunks|;
    var r := TrimmedDictionary(dictionary, n);
    assert earlier.ChunkDigests() == later.ChunkDigests()[..n];
    forall c | c in r ensures r[c] == AuthChunk(Path(earlier.ChunkDigests(), c), earlier.chunks[c]) {
      TrimmedIsPath(later.ChunkDigests(), n, c);
    }
    assert forall c :: c in InactiveChunks(indices, n) <==> c in InactiveChunks(indices, |later.chunks|) && c < n;
  }

  datatype UpdateResult = Updated | MissingChunkOnUpdateFromAdd(chunkIndex: nat) | AlreadyExistingChunk(chunkIndex: nat)

  class MsMembershipProof {
    const senderRandomness: Digest
    const receiverPreimage: Digest
    const aoclLeafIndex: nat
    var authPathAocl: seq<Digest>
    var targetChunks: ChunkDictionary

    constructor (senderRandomness: Digest, receiverPreimage: Digest, authPathAocl: seq<Digest>, aoclLeafIndex: nat, targetChunks: ChunkDictionary)
      ensures this.senderRandomness == senderRandomness && this.receiverPreimage == receiverPreimage
      ensures this.authPathAocl == authPathAocl && this.aoclLeafIndex == aoclLeafIndex && this.targetChunks == targetChunks
    {
      this.senderRandomness, this.receiverPreimage := senderRandomness, receiverPreimage;
      this.authPathAocl, this.aoclLeafIndex, this.targetChunks := authPathAocl, aoclLeafIndex, targetChunks;
    }

    /** The proof is the one that this mutator set calls for. */
    ghost predicate InStep(indices: seq<nat>, ms: MutatorSet)
      reads this
    {
      && aoclLeafIndex < |ms.aocl|
      && authPathAocl == Path(ms.aocl, aoclLeafIndex)
      && DictionarySynced(indices, targetChunks, ms)
    }

    /** In anticipation of one addition to the mutator set. */
    method UpdateFromAddition(indices: seq<nat>, mutatorSet: MutatorSetAccumulator, commitment: Digest) returns (r: UpdateResult)
      requires mutatorSet.Valid() && aoclLeafIndex < mutatorSet.aocl.numLeafs
      modifies this
      ensures old(InStep(indices, mutatorSet.value)) ==>
                r.Updated? && InStep(indices, SyncTarget(mutatorSet.value.aocl + [commitment], ChunksAfterAddition(mutatorSet.value)))
      ensures r.MissingChunkOnUpdateFromAdd? ==>
                r.chunkIndex in InactiveChunks(indices, mutatorSet.swbfInactive.numLeafs) && r.chunkIndex !in old(targetChunks)
      ensures r.AlreadyExistingChunk? ==> r.chunkIndex == mutatorSet.swbfInactive.numLeafs && r.chunkIndex in old(targetChunks)
    {
      hide Path, PathAfterAppend, NewLeafPath, Stores;
      ghost var ms, wasInStep := mutatorSet.value, InStep(indices, mutatorSet.value);
      var newItemIndex := mutatorSet.aocl.numLeafs;
      PathAfterAppendCorrect(ms.aocl, aoclLeafIndex, commitment);
      authPathAocl := PathAfterAppend(authPathAocl, aoclLeafIndex, newItemIndex, commitment, mutatorSet.aocl.peaks);
      if !WindowSlides(newItemIndex) {
        ghost var same := SyncTarget(ms.aocl + [commitment], ms.chunks);
        assert same.ChunkDigests() == ms.ChunkDigests();
        return Updated;
      }
      var newChunk := mutatorSet.swbfActive.SlidChunk();
      ghost var before := targetChunks;
      ghost var next := SyncTarget(ms.aocl + [commitment], ChunksAfterAddition(ms));
      assert next.chunks[..|ms.chunks|] == ms.chunks && next.chunks[|ms.chunks|] == newChunk;
      r := SlideDictionary(indices, newChunk, mutatorSet.swbfInactive);
      if wasInStep {
        SlidEntriesSynced(indices, before, targetChunks, ms, next);
      }
    }

    /** The loop over the chunks that the item's indices touch. */
    method SlideDictionary(indices: seq<nat>, newChunk: Chunk, swbfInactive: Mmra) returns (r: UpdateResult)
      modifies this`targetChunks
      ensures old(targetChunks).Keys == InactiveChunks(indices, swbfInactive.numLeafs) ==>
                r.Updated? && SlidEntries(indices, old(targetChunks), targetChunks, newChunk, swbfInactive)
      ensures r.MissingChunkOnUpdateFromAdd? ==>
                r.chunkIndex in InactiveChunks(indices, swbfInactive.numLeafs) && r.chunkIndex !in old(targetChunks)
      ensures r.AlreadyExistingChunk? ==> r.chunkIndex == swbfInactive.numLeafs && r.chunkIndex in old(targetChunks)
    {
      hide PathAfterAppend, NewLeafPath;
      var n := swbfInactive.numLeafs;
      ghost var before := targetChunks;
      var chunks := set i | i in indices :: i / CHUNK_SIZE;
      var todo := chunks;
      while todo != {}
        invariant todo <= chunks
        invariant targetChunks.Keys == before.Keys + if n in chunks - todo then {n} else {}
        invariant n in chunks - todo ==> n !in before && targetChunks[n] == AuthChunk(NewLeafPath(swbfInactive.peaks, n), newChunk)
        invariant forall c | c in before && !(c < n && c in chunks - todo) :: targetChunks[c] == before[c]
        invariant forall c | c in chunks - todo && c < n :: c in before && targetChunks[c] ==
                    AuthChunk(PathAfterAppend(before[c].path, c, n, HashNats(newChunk), swbfInactive.peaks), before[c].chunk)
      {
        var c :| c in todo;
        if c < n {
          if c !in targetChunks { return MissingChunkOnUpdateFromAdd(c); }
          var entry := targetChunks[c];
          targetChunks := targetChunks[c := AuthChunk(PathAfterAppend(entry.path, c, n, HashNats(newChunk), swbfInactive.peaks), entry.chunk)];
        } else if c == n {
          if c in targetChunks { return AlreadyExistingChunk(c); }
          targetChunks := targetChunks[c := AuthChunk(NewLeafPath(swbfInactive.peaks, n), newChunk)];
        }
        todo := todo - {c};
      }
      assert chunks - todo == chunks;
      assert forall c :: c in InactiveChunks(indices, n + 1) <==> c in chunks && c <= n;
      r := Updated;
    }

    /** Back to the state before any number of additions, given only the mutator set from before them. */
    method RevertUpdateFromBatchAddition(previous: MutatorSetAccumulator, ghost indices: seq<nat>, ghost later: MutatorSet)
      requires previous.Valid() && aoclLeafIndex < previous.aocl.numLeafs
      modifies this
      ensures authPathAocl == Trimmed(old(authPathAocl), HeightByXor(previous.aocl.numLeafs, aoclLeafIndex))
      ensures targetChunks == TrimmedDictionary(old(targetChunks), previous.swbfInactive.numLeafs)
      ensures old(InStep(indices, later)) && Extends(later, previous.value) ==> InStep(indices, previous.value)
    {
      hide Path, Trimmed, HeightByXor, Stores, TrimmedDictionary, DictionarySynced;
      ghost var wasInStep, before := InStep(indices, later), targetChunks;
      authPathAocl := Trim(authPathAocl, HeightByXor(previous.aocl.numLeafs, aoclLeafIndex));
      TrimDictionary(previous.swbfInactive.numLeafs);
      if wasInStep && Extends(later, previous.value) {
        assert later.aocl[..|previous.value.aocl|] == previous.value.aocl;
        TrimmedIsPath(later.aocl, |previous.value.aocl|, aoclLeafIndex);
        TrimmedDictionarySynced(indices, before, later, previous.value);
      }
    }

    /** Drop the chunks of later windows and trim the paths of the others. */
    method TrimDictionary(leafCount: nat)
      modifies this`targetChunks
      ensures targetChunks == TrimmedDictionary(old(targetChunks), leafCount)
    {
      hide Trimmed, HeightByXor;
      ghost var before := targetChunks;
      targetChunks := map c | c in targetChunks && c < leafCount :: targetChunks[c];
      var todo := targetChunks.Keys;
      while todo != {}
        invariant todo <= targetChunks.Keys && targetChunks.Keys == (set c | c in before && c < leafCount)
        invariant forall c | c in targetChunks :: targetChunks[c] == if c in todo then before[c]
                    else AuthChunk(Trimmed(before[c].path, HeightByXor(leafCount, c)), before[c].chunk)
      {
        var c :| c in todo;
        var path := Trim(targetChunks[c].path, HeightByXor(leafCount, c));
        targetChunks := targetChunks[c := AuthChunk(path, targetChunks[c].chunk)];
        todo := todo - {c};
      }
    }

    /** In anticipation of one removal from the mutator set. */
    method UpdateFromRemove(rr: RemovalRecord, ghost indices: seq<nat>, ghost ms: MutatorSet)
      requires |ms.chunks| == BatchIndex(|ms.aocl|) && Synced(rr, ms) && InStep(indices, ms)
      modifies this`targetChunks
      ensures InStep(indices, SyncTarget(ms.aocl, ChunksAfterRemoval(ms, rr.absoluteIndices)))
    {
      var changed, modifications, _ := BatchMutationArgument(rr, [targetChunks], ms);
      var mutations := MutationsOf(modifications);
      DictionaryFollowsRemoval(indices, targetChunks, rr, ms, modifications, mutations);
      targetChunks := PathsRefreshed(changed[0], mutations);
    }

    /** Back to the state before a removal, given the record as it was then. */
    method RevertUpdateFromRemove(rr: RemovalRecord, ghost indices: seq<nat>, ghost before: MutatorSet, ghost stored: multiset<nat>)
      requires Stores(before, stored) && Synced(rr, before) && InStep(indices, AfterRemoval(before, rr))
      modifies this`targetChunks
      ensures InStep(indices, before)
    {
      hide Stores, Synced, Path, Restoring, Removed, PathsRefreshed, MutationsFor;
      var changed, modifications, _ := BatchReversionArgument(rr, [targetChunks], before, stored);
      var mutations := MutationsOf(modifications);
      DictionaryFollowsReversion(indices, targetChunks, rr, before, stored, modifications, mutations);
      targetChunks := PathsRefreshed(changed[0], mutations);
    }
  }

  // ---------- many proofs at once ----------

  ghost predicate AllInStep(proofs: seq<MsMembershipProof>, indicesOf: seq<seq<nat>>, ms: MutatorSet)
    requires |proofs| == |indicesOf|
    reads proofs
  {
    forall k | 0 <= k < |proofs| :: proofs[k].InStep(indicesOf[k], ms)
  }

  ghost predicate Distinct(proofs: seq<MsMembershipProof>) {
    forall j, k | 0 <= j < k < |proofs| :: proofs[j] != proofs[k]
  }

  /** Being in step does not depend on the window's content. */
  lemma InStepToTarget(proofs: seq<MsMembershipProof>, indicesOf: seq<seq<nat>>, ms: MutatorSet)
    requires |proofs| == |indicesOf|
    ensures AllInStep(proofs, indicesOf, ms) <==> AllInStep(proofs, indicesOf, SyncTarget(ms.aocl, ms.chunks))
  {
    hide DictionarySynced, Path;
    forall k | 0 <= k < |proofs|
      ensures proofs[k].InStep(indicesOf[k], ms) <==> proofs[k].InStep(indicesOf[k], SyncTarget(ms.aocl, ms.chunks))
    {
      OtherCommitments(proofs[k].targetChunks, indicesOf[k], ms, SyncTarget(ms.aocl, ms.chunks));
    }
  }

  /** MsMembershipProof::batch_update_from_addition */
  method BatchUpdateProofsFromAddition(proofs: seq<MsMembershipProof>, indicesOf: seq<seq<nat>>, mutatorSet: MutatorSetAccumulator, commitment: Digest)
    requires mutatorSet.Valid() && |proofs| == |indicesOf| && Distinct(proofs) && AllInStep(proofs, indicesOf, mutatorSet.value)
    modifies proofs
    ensures AllInStep(proofs, indicesOf, SyncTarget(mutatorSet.value.aocl + [commitment], ChunksAfterAddition(mutatorSet.value)))
  {
    hide Path, PathAfterAppend, Stores, DictionarySynced, DictionaryAfterSlide;
    ghost var ms := mutatorSet.value;
    ghost var next := SyncTarget(ms.aocl + [commitment], ChunksAfterAddition(ms));
    var newItemIndex := mutatorSet.aocl.numLeafs;
    var slides := WindowSlides(newItemIndex);
    var newChunk := mutatorSet.swbfActive.SlidChunk();
    for k := 0 to |proofs|
      invariant forall j | 0 <= j < k :: proofs[j].InStep(indicesOf[j], next)
      invariant forall j | k <= j < |proofs| :: proofs[j].InStep(indicesOf[j], ms)
    {
      var proof := proofs[k];
      PathAfterAppendCorrect(ms.aocl, proof.aoclLeafIndex, commitment);
      proof.authPathAocl := PathAfterAppend(proof.authPathAocl, proof.aoclLeafIndex, newItemIndex, commitment, mutatorSet.aocl.peaks);
      if slides {
        assert next.chunks[..|ms.chunks|] == ms.chunks && next.chunks[|ms.chunks|] == newChunk;
        DictionaryAfterSlideSynced(indicesOf[k], proof.targetChunks, ms, next);
        proof.targetChunks := DictionaryAfterSlide(indicesOf[k], proof.targetChunks, newChunk, mutatorSet.swbfInactive);
      } else {
        OtherCommitments(proof.targetChunks, indicesOf[k], ms, next);
      }
    }
  }

  lemma OtherCommitments(dictionary: ChunkDictionary, indices: seq<nat>, a: MutatorSet, b: MutatorSet)
    requires a.chunks == b.chunks
    ensures DictionarySynced(indices, dictionary, a) <==> DictionarySynced(indices, dictionary, b)
  {
    assert a.ChunkDigests() == b.ChunkDigests();
  }

  /** MsMembershipProof::batch_update_from_remove */
  method BatchUpdateProofsFromRemove(proofs: seq<MsMembershipProof>, rr: RemovalRecord, ghost indicesOf: seq<seq<nat>>, ghost ms: MutatorSet)
    requires |ms.chunks| == BatchIndex(|ms.aocl|) && Synced(rr, ms)
    requires |proofs| == |indicesOf| && Distinct(proofs) && AllInStep(proofs, indicesOf, ms)
    modifies proofs
    ensures AllInStep(proofs, indicesOf, SyncTarget(ms.aocl, ChunksAfterRemoval(ms, rr.absoluteIndices)))
  {
    hide Path, PathsRefreshed, Inserted, ChunksAfterRemoval, MutationsFor;
    ghost var next := SyncTarget(ms.aocl, ChunksAfterRemoval(ms, rr.absoluteIndices));
    var dictionaries := DictionariesOf(proofs);
    var changed, modifications, _ := BatchMutationArgument(rr, dictionaries, ms);
    var mutations := MutationsOf(modifications);
    for k := 0 to |proofs|
      invariant forall j | 0 <= j < k :: proofs[j].InStep(indicesOf[j], next)
      invariant forall j | k <= j < |proofs| :: proofs[j].InStep(indicesOf[j], ms) && dictionaries[j] == proofs[j].targetChunks
    {
      DictionaryFollowsRemoval(indicesOf[k], dictionaries[k], rr, ms, modifications, mutations);
      proofs[k].targetChunks := PathsRefreshed(changed[k], mutations);
    }
  }

  function DictionariesOf(proofs: seq<MsMembershipProof>): (r: seq<ChunkDictionary>)
    reads proofs
    ensures |r| == |proofs| && forall k | 0 <= k < |r| :: r[k] == proofs[k].targetChunks
  {
    if proofs == [] then [] else DictionariesOf(proofs[..|proofs| - 1]) + [proofs[|proofs| - 1].targetChunks]
  }

  /** A proof that is in step is determined by item and mutator set. */
  lemma InStepUnique(path: seq<Digest>, dictionary: ChunkDictionary, path': seq<Digest>, dictionary': ChunkDictionary,
                     i: nat, indices: seq<nat>, ms: MutatorSet)
    requires i < |ms.aocl| && path == Path(ms.aocl, i) == path'
    requires DictionarySynced(indices, dictionary, ms) && DictionarySynced(indices, dictionary', ms)
    ensures path == path' && dictionary == dictionary'
  {
  }

  /** Roll a proof forward over any number of additions and back: it is the original proof again. */
  method ForwardAndBack(proof: MsMembershipProof, indices: seq<nat>, acc: MutatorSetAccumulator, additions: seq<Digest>)
    requires acc.Valid() && proof.InStep(indices, acc.value)
    modifies proof, acc, acc.swbfActive
    ensures proof.authPathAocl == old(proof.authPathAocl) && proof.targetChunks == old(proof.targetChunks)
    ensures acc.Valid() && acc.value.aocl == old(acc.value).aocl + additions
  {
    hide Stores, Path, DictionarySynced;
    var previous := new MutatorSetAccumulator.Clone(acc);
    ghost var first := acc.value;
    for k := 0 to |additions|
      invariant acc.Valid() && previous.Valid() && previous.value == first && previous.swbfActive != acc.swbfActive
      invariant acc.value.aocl == first.aocl + additions[..k] && first.chunks <= acc.value.chunks
      invariant proof.InStep(indices, acc.value)
    {
      var r := proof.UpdateFromAddition(indices, acc, additions[k]);
      ghost var was := acc.value;
      acc.Add(additions[k]);
      OtherCommitments(proof.targetChunks, indices, acc.value, SyncTarget(was.aocl + [additions[k]], ChunksAfterAddition(was)));
      assert additions[..k + 1] == additions[..k] + [additions[k]];
    }
    assert additions[..|additions|] == additions;
    proof.RevertUpdateFromBatchAddition(previous, indices, acc.value);
    InStepUnique(proof.authPathAocl, proof.targetChunks, old(proof.authPathAocl), old(proof.targetChunks), proof.aoclLeafIndex, indices, first);
  }

  /** Roll a proof forward over a removal and back with the same record: it is the original proof again. */
  method RemoveAndBack(proof: MsMembershipProof, indices: seq<nat>, acc: MutatorSetAccumulator, rr: RemovalRecord)
    requires acc.Valid() && proof.InStep(indices, acc.value) && Synced(rr, acc.value)
    modifies proof, acc, acc.swbfActive
    ensures proof.authPathAocl == old(proof.authPathAocl) && proof.targetChunks == old(proof.targetChunks)
    ensures acc.Valid() && acc.indices == old(acc.indices) + multiset(rr.absoluteIndices)
  {
    hide Stores, Synced, Path, DictionarySynced;
    ghost var before, stored := acc.value, acc.indices;
    ChunkCount(before, stored);
    proof.UpdateFromRemove(rr, indices, before);
    var _ := acc.Remove(rr);
    proof.RevertUpdateFromRemove(rr, indices, before, stored);
    InStepUnique(proof.authPathAocl, proof.targetChunks, old(proof.authPathAocl), old(proof.targetChunks), proof.aoclLeafIndex, indices, before);
  }

  // ---------- verification ----------

  lemma GroupMembers(indices: seq<nat>, c: nat, i: nat)
    requires Fits(indices)
    ensures c in IndicesToMap(indices) ==> (i in IndicesToMap(indices)[c] <==> i in indices && i / CHUNK_SIZE == c)
    ensures i in indices ==> i / CHUNK_SIZE in IndicesToMap(indices)
  {
    FittingGroups(indices, c, i);
    FittingGroups(indices, i / CHUNK_SIZE, i);
    CountIsMembership(indices, i);
    if c in IndicesToMap(indices) { CountIsMembership(IndicesToMap(indices)[c], i); }
  }

  /** Every inactive chunk that the indices touch is in the dictionary as it is now, with its path. */
  ghost predicate Authenticates(dictionary: ChunkDictionary, chunks: set<nat>, ms: MutatorSet) {
    forall c | c in chunks :: c in dictionary && c < |ms.chunks| &&
      dictionary[c] == AuthChunk(Path(ms.ChunkDigests(), c), ms.chunks[c])
  }

  /** Some index in these chunks is not set, going by the dictionary. */
  ghost predicate AbsentIn(indices: seq<nat>, chunks: set<nat>, dictionary: ChunkDictionary) {
    exists i | i in indices && i / CHUNK_SIZE in chunks && i / CHUNK_SIZE in dictionary ::
      i % CHUNK_SIZE !in dictionary[i / CHUNK_SIZE].chunk
  }

  /** The inactive part: whether all touched chunks are authentic, and whether one lacks an index. */
  method CheckInactive(acc: MutatorSetAccumulator, dictionary: ChunkDictionary, indices: seq<nat>)
    returns (authentic: bool, absent: bool)
    requires acc.Valid() && Fits(indices)
    ensures authentic <==> Authenticates(dictionary, InactiveChunks(indices, |acc.value.chunks|), acc.value)
    ensures authentic ==> (absent <==> AbsentIn(indices, InactiveChunks(indices, |acc.value.chunks|), dictionary))
  {
    hide Stores, Path, Verify, IndicesToMap;
    var groups, n := IndicesToMap(indices), BatchIndex(acc.aocl.numLeafs);
    ChunkCount(acc.value, acc.indices);
    InactiveChunksAreGroups(indices, n);
    var todo := set c | c in groups && c < n;
    assert todo == InactiveChunks(indices, n);
    ghost var done: set<nat> := {};
    authentic, absent := true, false;
    while todo != {}
      invariant todo !! done && todo + done == InactiveChunks(indices, n)
      invariant done <= dictionary.Keys
      invariant authentic <==> Authenticates(dictionary, done, acc.value)
      invariant absent <==> AbsentIn(indices, done, dictionary)
    {
      var c :| c in todo;
      if c !in dictionary {
        assert !Authenticates(dictionary, InactiveChunks(indices, n), acc.value);
        return false, absent;
      }
      var entry := dictionary[c];
      VerifyIffPath(entry.path, c, HashNats(entry.chunk), acc.value.ChunkDigests());
      authentic := authentic && Verify(entry.path, c, HashNats(entry.chunk), acc.swbfInactive.peaks, acc.swbfInactive.numLeafs);
      assert forall d | d in done + {c} :: d in done || d == c;
      AbsentStep(indices, done, dictionary, c);
      absent := absent || exists i | i in groups[c] :: i % CHUNK_SIZE !in entry.chunk;
      todo, done := todo - {c}, done + {c};
    }
    assert done == InactiveChunks(indices, n);
  }

  lemma AbsentStep(indices: seq<nat>, done: set<nat>, dictionary: ChunkDictionary, c: nat)
    requires c in dictionary && c in IndicesToMap(indices) && Fits(indices)
    ensures AbsentIn(indices, done + {c}, dictionary) <==>
            AbsentIn(indices, done, dictionary) || exists i | i in IndicesToMap(indices)[c] :: i % CHUNK_SIZE !in dictionary[c].chunk
  {
    forall i: nat ensures i in IndicesToMap(indices)[c] <==> i in indices && i / CHUNK_SIZE == c { GroupMembers(indices, c, i); }
  }

  /** MutatorSetAccumulator::verify. The indices are those computed from the item. */
  method VerifyMembership(acc: MutatorSetAccumulator, item: Digest, proof: MsMembershipProof, indices: seq<nat>) returns (ok: bool)
    requires acc.Valid() && Fits(indices)
    ensures ok <==>
            && proof.aoclLeafIndex < |acc.value.aocl|
            && acc.value.aocl[proof.aoclLeafIndex] == Commitment(item, proof.senderRandomness, proof.receiverPreimage)
            && proof.authPathAocl == Path(acc.value.aocl, proof.aoclLeafIndex)
            && NoFutureIndex(indices, acc.value.WindowStart())
            && Authenticates(proof.targetChunks, InactiveChunks(indices, |acc.value.chunks|), acc.value)
            && SpendsSomething(indices, acc.indices)
  {
    hide Stores, Path, Verify, Covers, AbsentIn, Authenticates, SpendsSomething;
    if acc.aocl.numLeafs <= proof.aoclLeafIndex { return false; }
    var leaf := Commitment(item, proof.senderRandomness, proof.receiverPreimage);
    VerifyIffPath(proof.authPathAocl, proof.aoclLeafIndex, leaf, acc.value.aocl);
    if !Verify(proof.authPathAocl, proof.aoclLeafIndex, leaf, acc.aocl.peaks, acc.aocl.numLeafs) { return false; }
    SplitsIffNoFuture(indices, BatchIndex(acc.aocl.numLeafs));
    if !SplitsByActivity(indices, BatchIndex(acc.aocl.numLeafs)) { return false; }
    var authentic, absent := CheckInactive(acc, proof.targetChunks, indices);
    var windowStart := BatchIndex(acc.aocl.numLeafs) * CHUNK_SIZE;
    var absentActive := exists i | i in indices :: i >= windowStart && i - windowStart !in acc.swbfActive.sbf;
    if authentic {
      AbsentMeansUnset(indices, proof.targetChunks, acc.value, acc.indices);
    }
    ok := authentic && (absent || absentActive);
  }

  lemma AbsentMeansUnset(indices: seq<nat>, dictionary: ChunkDictionary, ms: MutatorSet, stored: multiset<nat>)
    requires Stores(ms, stored) && NoFutureIndex(indices, ms.WindowStart())
    requires Authenticates(dictionary, InactiveChunks(indices, |ms.chunks|), ms)
    ensures SpendsSomething(indices, stored) <==>
            || AbsentIn(indices, InactiveChunks(indices, |ms.chunks|), dictionary)
            || exists i | i in indices :: i >= ms.WindowStart() && i - ms.WindowStart() !in ms.window
  {
    hide Stores, Path, Covers;
    ChunkCount(ms, stored);
    forall i | i in indices
      ensures stored[i] == 0 <==> if i < ms.WindowStart()
                then i / CHUNK_SIZE in InactiveChunks(indices, |ms.chunks|) && i % CHUNK_SIZE !in dictionary[i / CHUNK_SIZE].chunk
                else i - ms.WindowStart() !in ms.window
    {
      UnsetAt(indices, dictionary, ms, stored, i);
    }
  }

  lemma UnsetAt(indices: seq<nat>, dictionary: ChunkDictionary, ms: MutatorSet, stored: multiset<nat>, i: nat)
    requires Stores(ms, stored) && NoFutureIndex(indices, ms.WindowStart()) && i in indices
    requires Authenticates(dictionary, InactiveChunks(indices, |ms.chunks|), ms)
    ensures if i < ms.WindowStart()
            then i / CHUNK_SIZE in InactiveChunks(indices, |ms.chunks|) && i / CHUNK_SIZE in dictionary &&
                 (stored[i] == 0 <==> i % CHUNK_SIZE !in dictionary[i / CHUNK_SIZE].chunk)
            else stored[i] == 0 <==> i - ms.WindowStart() !in ms.window
  {
    hide Path, Covers;
    IndexLookup(ms, stored, i);
    if i < ms.WindowStart() {
      CountIsMembership(ms.chunks[i / CHUNK_SIZE], i % CHUNK_SIZE);
    } else {
      CountIsMembership(ms.window, i - ms.WindowStart());
    }
  }

  /** MutatorSetAccumulator::drop: a proof that is in step gives a record that is in step. */
  method Drop(proof: MsMembershipProof, indices: seq<nat>, ghost ms: MutatorSet) returns (rr: RemovalRecord)
    requires proof.InStep(indices, ms) && DrawnFor(indices, proof.aoclLeafIndex)
    ensures rr.absoluteIndices == indices && Synced(rr, ms)
  {
    DrawnIsNoFuture(indices, proof.aoclLeafIndex, ms);
    rr := RemovalRecord(indices, proof.targetChunks);
  }
}
