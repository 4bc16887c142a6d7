/** Removing many items from the accumulator at once, while keeping membership proofs in step. */
module BatchRemovals {
  import opened MountainRange
  import opened ActiveWindows
  import opened MutatorSets
  import opened RemovalRecords
  import opened MutatorSetAccumulators
  import opened RecordUpdates
  import opened MutatorSetUpdates
  import opened ArchivalMutatorSets
  import opened MembershipProofs

  /** The entries of all records' dictionaries. Records in step agree on them. */
  method CollectEntries(records: seq<RemovalRecord>, ghost ms: MutatorSet) returns (found: ChunkDictionary)
    requires AllSynced(records, ms)
    ensures forall c: nat :: c in found <==> Mentioned(records, c)
    ensures IsPartOf(found, ms)
  {
    hide Mentioned, AllSynced, IsPartOf;
    found := map[];
    NoEntries(records, ms);
    for k := 0 to |records|
      invariant forall c: nat :: c in found <==> Mentioned(records[..k], c)
      invariant IsPartOf(found, ms)
    {
      var rr := records[k];
      MoreEntries(found, records, k, ms);
      forall c: nat ensures Mentioned(records[..k + 1], c) <==> Mentioned(records[..k], c) || c in rr.targetChunks {
        MentionedSnoc(records, k, c);
      }
      found := found + rr.targetChunks;
    }
    assert records[..|records|] == records;
  }

  lemma NoEntries(records: seq<RemovalRecord>, ms: MutatorSet)
    ensures IsPartOf(map[], ms) && forall c: nat :: !Mentioned(records[..0], c)
  {
  }

  lemma MoreEntries(found: ChunkDictionary, records: seq<RemovalRecord>, k: nat, ms: MutatorSet)
    requires IsPartOf(found, ms) && AllSynced(records, ms) && k < |records|
    ensures IsPartOf(found + records[k].targetChunks, ms)
  {
    assert Synced(records[k], ms);
  }

  /** The entries with the differences added to their chunks. */
  function CombinedEntries(entries: ChunkDictionary, diff: map<nat, Chunk>): ChunkDictionary
    requires entries.Keys == diff.Keys
  {
    map c | c in entries :: AuthChunk(entries[c].path, Combine(entries[c].chunk, diff[c]))
  }

  lemma EntriesStore(ms: MutatorSet, before: multiset<nat>, all: seq<nat>, diff: map<nat, Chunk>, entries: ChunkDictionary, window: seq<nat>)
    requires Stores(ms, before) && IsDifference(diff, all, |ms.chunks|) && NoFutureIndex(all, ms.WindowStart())
    requires entries.Keys == diff.Keys && IsPartOf(entries, ms)
    requires Covers(window, before + multiset(all), |ms.chunks| * CHUNK_SIZE, WINDOW_SIZE)
    ensures Stores(MutatorSet(ms.aocl, Overlay(ms.chunks, CombinedEntries(entries, diff)), window), before + multiset(all))
    ensures forall c | c in CombinedEntries(entries, diff) ::
              c < |ms.chunks| && CombinedEntries(entries, diff)[c].path == Path(ms.ChunkDigests(), c)
  {
    hide Covers, IsDifference, Stores, NoFutureIndex, Combine, Path;
    var newEntries := CombinedEntries(entries, diff);
    var newChunks := map c | c in newEntries :: newEntries[c].chunk;
    CombinedStores(ms, before, all, diff, newChunks, window);
    assert ChunksWith(ms.chunks, newChunks) == Overlay(ms.chunks, newEntries);
  }

  /** A proof's dictionary after the batch: the new chunks where it has them, and every path refreshed. */
  function DictionaryAfterBatch(dictionary: ChunkDictionary, newEntries: ChunkDictionary, mutations: seq<LeafMutation>): ChunkDictionary {
    map c | c in dictionary ::
      AuthChunk(BatchPath(dictionary[c].path, c, mutations), if c in newEntries then newEntries[c].chunk else dictionary[c].chunk)
  }

  lemma DictionaryFollowsBatch(indices: seq<nat>, dictionary: ChunkDictionary, newEntries: ChunkDictionary,
                               mutations: seq<LeafMutation>, ms: MutatorSet, after: MutatorSet)
    requires DictionarySynced(indices, dictionary, ms) && MutationsFor(mutations, newEntries)
    requires forall c | c in newEntries :: c < |ms.chunks| && newEntries[c].path == Path(ms.ChunkDigests(), c)
    requires after.chunks == Overlay(ms.chunks, newEntries)
    ensures DictionarySynced(indices, DictionaryAfterBatch(dictionary, newEntries, mutations), after)
  {
    hide BatchPath, Path;
    OverlayPeaks(ms.chunks, newEntries, mutations);
    var r := DictionaryAfterBatch(dictionary, newEntries, mutations);
    forall c | c in r ensures c < |after.chunks| && r[c] == AuthChunk(Path(after.ChunkDigests(), c), after.chunks[c]) {
      BatchMutationCorrect(ms.ChunkDigests(), mutations, c);
    }
  }

  /** MutatorSetAccumulator::batch_remove */
  method BatchRemoveFromAccumulator(acc: MutatorSetAccumulator, records: seq<RemovalRecord>, preserved: seq<MsMembershipProof>,
                                    ghost indicesOf: seq<seq<nat>>)
    returns (diff: map<nat, Chunk>)
    requires acc.Valid() && AllSynced(records, acc.value)
    requires |indicesOf| == |preserved| && forall k | 0 <= k < |preserved| :: preserved[k].InStep(indicesOf[k], acc.value)
    requires forall j, k | 0 <= j < k < |preserved| :: preserved[j] != preserved[k]
    modifies acc, acc.swbfActive, preserved
    ensures acc.Valid() && acc.value.aocl == old(acc.value).aocl
    ensures acc.indices == old(acc.indices) + IndicesOf(records)
    ensures IsDifference(diff, Concatenated(records), |old(acc.value).chunks|)
    ensures forall k | 0 <= k < |preserved| :: preserved[k].InStep(indicesOf[k], acc.value)
  {
    hide DictionarySynced, Stores, AllSynced, IndicesOf, Path, MutationsFor, Overlay, IsDifference, Concatenated;
    ghost var was := acc.value;
    var newEntries, mutations;
    newEntries, mutations, diff := RemoveAllRecords(acc, records);
    for k := 0 to |preserved|
      invariant acc.Valid() && acc.value.aocl == was.aocl && acc.value.chunks == Overlay(was.chunks, newEntries)
      invariant acc.indices == old(acc.indices) + IndicesOf(records)
      invariant forall j | 0 <= j < k :: preserved[j].InStep(indicesOf[j], acc.value)
      invariant forall j | k <= j < |preserved| :: preserved[j].InStep(indicesOf[j], was)
    {
      var proof := preserved[k];
      DictionaryFollowsBatch(indicesOf[k], proof.targetChunks, newEntries, mutations, was, acc.value);
      proof.targetChunks := DictionaryAfterBatch(proof.targetChunks, newEntries, mutations);
    }
  }

  /** Window, chunks and peaks of the accumulator. */
  method RemoveAllRecords(acc: MutatorSetAccumulator, records: seq<RemovalRecord>)
    returns (newEntries: ChunkDictionary, mutations: seq<LeafMutation>, diff: map<nat, Chunk>)
    requires acc.Valid() && AllSynced(records, acc.value)
    modifies acc, acc.swbfActive
    ensures acc.Valid() && acc.value.aocl == old(acc.value).aocl
    ensures acc.indices == old(acc.indices) + IndicesOf(records)
    ensures acc.value.chunks == Overlay(old(acc.value).chunks, newEntries) && MutationsFor(mutations, newEntries)
    ensures IsDifference(diff, Concatenated(records), |old(acc.value).chunks|)
    ensures forall c | c in newEntries ::
              c < |old(acc.value).chunks| && newEntries[c].path == Path(old(acc.value).ChunkDigests(), c)
  {
    hide Covers, IsDifference, Stores, AllSynced, NoFutureIndex, IndicesOf, Mentioned, Path, MutationsFor, CombinedEntries, IsPartOf;
    ghost var was := acc.value;
    StoresParts(was, acc.indices);
    NoFutureInAny(records, was);
    var all := Concatenated(records);
    diff := SplitAndInsert(acc.swbfActive, all, BatchIndex(acc.aocl.numLeafs), acc.indices);
    var entries := CollectEntries(records, was);
    DifferenceKeys(records, diff, map c | c in entries :: entries[c].chunk, was);
    newEntries := CombinedEntries(entries, diff);
    mutations := MutationsOf(newEntries);
    EntriesStore(was, acc.indices, all, diff, entries, acc.swbfActive.sbf);
    OverlayPeaks(was.chunks, newEntries, mutations);
    acc.swbfInactive := acc.swbfInactive.BatchMutate(mutations);
    acc.value := MutatorSet(was.aocl, Overlay(was.chunks, newEntries), acc.swbfActive.sbf);
    acc.indices := acc.indices + IndicesOf(records);
  }
}
