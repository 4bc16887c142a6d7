/** Membership proofs made anew from the archival mutator set, with or without giving away which item they are for. */
module RestoredProofs {
  import opened Options
  import opened Digests
  import opened MountainRange
  import opened ActiveWindows
  import opened MutatorSets
  import opened RemovalRecords
  import opened MutatorSetAccumulators
  import opened RecordUpdates
  import opened MembershipProofs
  import opened AbsoluteIndexSets
  import opened ArchivalMutatorSets

  datatype RestoreError = MutatorSetIsEmpty | AoclAuthPathOutOfBounds | IndexExceedsBound | IndexOverflows

  /** The chunks below the window that the indices touch, with their paths. */
  method TargetChunks(ams: ArchivalMutatorSet, indices: seq<nat>) returns (dictionary: ChunkDictionary)
    requires ams.Valid()
    ensures DictionarySynced(indices, dictionary, ams.Value())
  {
    hide Path, Stores, DictionarySynced;
    ghost var ms := ams.Value();
    var batchIndex := ams.GetBatchIndex();
    dictionary := map[];
    NothingTouched(ms);
    for k := 0 to |indices|
      invariant DictionarySynced(indices[..k], dictionary, ms)
    {
      assert indices[..k + 1] == indices[..k] + [indices[k]];
      var c := indices[k] / CHUNK_SIZE;
      MoreTouched(indices[..k], indices[k], dictionary, ms);
      if indices[k] < batchIndex * CHUNK_SIZE {
        var path := ams.swbfInactive.ProveMembership(c);
        dictionary := dictionary[c := AuthChunk(path, ams.chunks[c])];
      }
    }
    assert indices[..|indices|] == indices;
  }

  lemma NothingTouched(ms: MutatorSet)
    ensures DictionarySynced([], map[], ms)
  {
  }

  lemma MoreTouched(indices: seq<nat>, index: nat, dictionary: ChunkDictionary, ms: MutatorSet)
    requires DictionarySynced(indices, dictionary, ms)
    ensures var c := index / CHUNK_SIZE;
            if index < |ms.chunks| * CHUNK_SIZE
            then c < |ms.chunks| && DictionarySynced(indices + [index], dictionary[c := AuthChunk(Path(ms.ChunkDigests(), c), ms.chunks[c])], ms)
            else DictionarySynced(indices + [index], dictionary, ms)
  {
    hide Path;
    InactiveChunksOfConcat(indices, [index], |ms.chunks|);
    InactiveChunksOfOne(index, |ms.chunks|);
  }

  datatype Restored = Proof(proof: MsMembershipProof) | Failed(error: RestoreError)

  /** ArchivalMutatorSet::restore_membership_proof. The indices are those computed from the item. */
  method RestoreMembershipProof(ams: ArchivalMutatorSet, indices: seq<nat>, senderRandomness: Digest, receiverPreimage: Digest, aoclLeafIndex: nat)
    returns (r: Restored)
    requires ams.Valid()
    ensures r.Proof? <==> aoclLeafIndex < |ams.aocl.leafs|
    ensures r.Proof? ==> fresh(r.proof) && r.proof.InStep(indices, ams.Value()) && r.proof.aoclLeafIndex == aoclLeafIndex
    ensures r.Proof? ==> r.proof.senderRandomness == senderRandomness && r.proof.receiverPreimage == receiverPreimage
    ensures r.Failed? ==> r.error == if ams.aocl.leafs == [] then MutatorSetIsEmpty else AoclAuthPathOutOfBounds
  {
    hide Path, Stores, DictionarySynced;
    var numLeafs := ams.aocl.NumLeafs();
    if numLeafs == 0 { return Failed(MutatorSetIsEmpty); }
    if numLeafs <= aoclLeafIndex { return Failed(AoclAuthPathOutOfBounds); }
    var path := ams.aocl.ProveMembership(aoclLeafIndex);
    var dictionary := TargetChunks(ams, indices);
    var proof := new MsMembershipProof(senderRandomness, receiverPreimage, path, aoclLeafIndex, dictionary);
    r := Proof(proof);
  }

  // ---------- without giving away the leaf index ----------

  datatype IndexedPath = IndexedPath(leafIndex: nat, path: seq<Digest>)
  datatype PrivateProof = PrivateProof(aoclAuthPaths: seq<IndexedPath>, targetChunks: ChunkDictionary)
  datatype PrivatelyRestored = PrivatelyRestored(proof: PrivateProof) | PrivateFailure(error: RestoreError)

  /** The paths of a run of leafs. */
  ghost predicate PathsOf(paths: seq<IndexedPath>, first: nat, leafs: seq<Digest>) {
    forall k | 0 <= k < |paths| ::
      first + k < |leafs| && paths[k] == IndexedPath(first + k, Path(leafs, first + k))
  }

  /** ArchivalMutatorSet::restore_membership_proof_privacy_preserving: the paths of all leafs that the indices can stem from. */
  method RestorePrivately(ams: ArchivalMutatorSet, indexSet: AbsoluteIndexSet) returns (r: PrivatelyRestored)
    requires ams.Valid()
    ensures var origin := AoclRangeOf(indexSet);
            && (r.PrivatelyRestored? <==> origin.Range? && origin.first < |ams.aocl.leafs|)
            && (r.PrivatelyRestored? ==>
                  && PathsOf(r.proof.aoclAuthPaths, origin.first, ams.aocl.leafs)
                  && |r.proof.aoclAuthPaths| ==
                       SaturatingSub(if origin.last < |ams.aocl.leafs| then origin.last + 1 else |ams.aocl.leafs|, origin.first))
            && (r.PrivateFailure? ==>
                  r.error == match origin
                             case Range(_, _) => AoclAuthPathOutOfBounds
                             case ExceedsTheoreticalBound => IndexExceedsBound
                             case Overflow => IndexOverflows)
    ensures r.PrivatelyRestored? ==> DictionarySynced(indexSet.ToArray(), r.proof.targetChunks, ams.Value())
  {
    hide Path, Stores, DictionarySynced, AoclRangeOf;
    var origin := AoclRangeOf(indexSet);
    if origin.ExceedsTheoreticalBound? { return PrivateFailure(IndexExceedsBound); }
    if origin.Overflow? { return PrivateFailure(IndexOverflows); }
    var numLeafs := ams.aocl.NumLeafs();
    if origin.first >= numLeafs { return PrivateFailure(AoclAuthPathOutOfBounds); }
    var last := if origin.last < numLeafs - 1 then origin.last else numLeafs - 1;
    var paths: seq<IndexedPath> := [];
    var leafIndex := origin.first;
    while leafIndex <= last
      invariant leafIndex == origin.first + |paths| && PathsOf(paths, origin.first, ams.aocl.leafs)
      invariant leafIndex <= last + 1 || paths == []
      decreases last + 1 - leafIndex
    {
      var path := ams.aocl.ProveMembership(leafIndex);
      paths, leafIndex := paths + [IndexedPath(leafIndex, path)], leafIndex + 1;
    }
    var dictionary := TargetChunks(ams, indexSet.ToArray());
    r := PrivatelyRestored(PrivateProof(paths, dictionary));
  }

  /** MsMembershipProofPrivacyPreserving::extract_ms_membership_proof. None if the leaf index is not among the paths. */
  method Extract(private: PrivateProof, aoclLeafIndex: nat, senderRandomness: Digest, receiverPreimage: Digest)
    returns (r: Option<MsMembershipProof>)
    ensures r.Some? <==> exists k | 0 <= k < |private.aoclAuthPaths| :: private.aoclAuthPaths[k].leafIndex == aoclLeafIndex
    ensures r.Some? ==>
              && fresh(r.value) && r.value.aoclLeafIndex == aoclLeafIndex && r.value.targetChunks == private.targetChunks
              && r.value.senderRandomness == senderRandomness && r.value.receiverPreimage == receiverPreimage
              && IndexedPath(aoclLeafIndex, r.value.authPathAocl) in private.aoclAuthPaths
  {
    for k := 0 to |private.aoclAuthPaths|
      invariant forall j | 0 <= j < k :: private.aoclAuthPaths[j].leafIndex != aoclLeafIndex
    {
      if private.aoclAuthPaths[k].leafIndex == aoclLeafIndex {
        var proof := new MsMembershipProof(senderRandomness, receiverPreimage, private.aoclAuthPaths[k].path, aoclLeafIndex, private.targetChunks);
        return Some(proof);
      }
    }
    r := None;
  }

  /** Restoring in private and then extracting gives the proof of any leaf that the indices can stem from: the one
      that restoring with the leaf index would give. No other leaf can be extracted. */
  method RestoreThenExtract(ams: ArchivalMutatorSet, indexSet: AbsoluteIndexSet, aoclLeafIndex: nat, senderRandomness: Digest, receiverPreimage: Digest)
    returns (r: Option<MsMembershipProof>)
    requires ams.Valid() && indexSet.Normal() && InBounds(indexSet)
    ensures r.Some? <==> aoclLeafIndex < |ams.aocl.leafs| && DrawnFor(indexSet.ToArray(), aoclLeafIndex)
    ensures r.Some? ==> fresh(r.value) && r.value.InStep(indexSet.ToArray(), ams.Value()) && r.value.aoclLeafIndex == aoclLeafIndex
  {
    hide Path, Stores, DictionarySynced, AoclRangeOf, DrawnFor;
    AoclRangeExact(indexSet);
    var private := RestorePrivately(ams, indexSet);
    if private.PrivateFailure? { return None; }
    r := Extract(private.proof, aoclLeafIndex, senderRandomness, receiverPreimage);
    ghost var first, paths := AoclRangeOf(indexSet).first, private.proof.aoclAuthPaths;
    ghost var at := aoclLeafIndex - first;
    assert 0 <= at < |paths| ==> paths[at].leafIndex == aoclLeafIndex;
    if r.Some? {
      ghost var k :| 0 <= k < |paths| && paths[k] == IndexedPath(aoclLeafIndex, r.value.authPathAocl);
      assert aoclLeafIndex == first + k;
    }
  }

  /** A restored proof verifies against the accumulator exactly if the item is there and has not been removed. */
  method RestoredProofVerifies(ams: ArchivalMutatorSet, item: Digest, indices: seq<nat>, senderRandomness: Digest, receiverPreimage: Digest,
                               aoclLeafIndex: nat)
    returns (ok: bool)
    requires ams.Valid() && DrawnFor(indices, aoclLeafIndex)
    ensures ok <==>
            && aoclLeafIndex < |ams.aocl.leafs|
            && ams.aocl.leafs[aoclLeafIndex] == Commitment(item, senderRandomness, receiverPreimage)
            && SpendsSomething(indices, ams.indices)
  {
    hide Path, Stores, DrawnFor, SpendsSomething, Authenticates, DictionarySynced;
    var r := RestoreMembershipProof(ams, indices, senderRandomness, receiverPreimage, aoclLeafIndex);
    if r.Failed? { return false; }
    var acc := ams.Accumulator();
    DrawnIsNoFuture(indices, aoclLeafIndex, ams.Value());
    SyncedAuthenticates(indices, r.proof.targetChunks, ams.Value());
    ok := VerifyMembership(acc, item, r.proof, indices);
  }

  lemma SyncedAuthenticates(indices: seq<nat>, dictionary: ChunkDictionary, ms: MutatorSet)
    requires DictionarySynced(indices, dictionary, ms)
    ensures Authenticates(dictionary, InactiveChunks(indices, |ms.chunks|), ms)
  {
  }
}
