/** Keeping removal records in step with a mutator set that changes. */
module RecordUpdates {
  import opened Digests
  import opened MountainRange
  import opened ActiveWindows
  import opened MutatorSets
  import opened RemovalRecords
  import opened MutatorSetAccumulators

  ghost predicate AllSynced(records: seq<RemovalRecord>, ms: MutatorSet) {
    forall k | 0 <= k < |records| :: Synced(records[k], ms)
  }

  /** The updates change dictionaries only. */
  ghost predicate SameIndices(a: seq<RemovalRecord>, b: seq<RemovalRecord>) {
    |a| == |b| && forall k | 0 <= k < |a| :: a[k].absoluteIndices == b[k].absoluteIndices
  }

  /** Being in step does not depend on the window's content. */
  function SyncTarget(aocl: seq<Digest>, chunks: seq<Chunk>): MutatorSet {
    MutatorSet(aocl, chunks, [])
  }

  lemma SyncedToTarget(records: seq<RemovalRecord>, ms: MutatorSet)
    ensures AllSynced(records, ms) <==> AllSynced(records, SyncTarget(ms.aocl, ms.chunks))
  {
    assert ms.ChunkDigests() == SyncTarget(ms.aocl, ms.chunks).ChunkDigests();
    forall k | 0 <= k < |records| ensures Synced(records[k], ms) <==> Synced(records[k], SyncTarget(ms.aocl, ms.chunks)) {}
  }

  // ---------- additions ----------

  /** A dictionary in anticipation of a window slide: an entry for the new chunk if an index touches it,
      and paths extended by the new leaf. */
  function DictionaryAfterSlide(indices: seq<nat>, dictionary: ChunkDictionary, newChunk: Chunk, swbfInactive: Mmra): ChunkDictionary {
    var oldWindowStartBatchIndex := swbfInactive.numLeafs;
    var chunks := set i | i in indices :: i / CHUNK_SIZE;
    var entered :=
      if oldWindowStartBatchIndex in chunks then
        dictionary[oldWindowStartBatchIndex := AuthChunk(NewLeafPath(swbfInactive.peaks, swbfInactive.numLeafs), newChunk)]
      else dictionary;
    if exists c | c in chunks :: c < oldWindowStartBatchIndex then
      map c | c in entered ::
        if c != oldWindowStartBatchIndex then
          AuthChunk(PathAfterAppend(entered[c].path, c, swbfInactive.numLeafs, HashNats(newChunk), swbfInactive.peaks), entered[c].chunk)
        else entered[c]
    else entered
  }

  /** The dictionary after a window slide, entry by entry. */
  ghost predicate SlidEntries(indices: seq<nat>, before: ChunkDictionary, after: ChunkDictionary, newChunk: Chunk, swbfInactive: Mmra) {
    var n := swbfInactive.numLeafs;
    && after.Keys == InactiveChunks(indices, n + 1)
    && (forall c | c in before :: c in after && after[c] ==
          AuthChunk(PathAfterAppend(before[c].path, c, n, HashNats(newChunk), swbfInactive.peaks), before[c].chunk))
    && (n in after ==> after[n] == AuthChunk(NewLeafPath(swbfInactive.peaks, n), newChunk))
  }

  lemma EntriesAfterSlide(indices: seq<nat>, dictionary: ChunkDictionary, newChunk: Chunk, swbfInactive: Mmra)
    requires dictionary.Keys == InactiveChunks(indices, swbfInactive.numLeafs)
    ensures SlidEntries(indices, dictionary, DictionaryAfterSlide(indices, dictionary, newChunk, swbfInactive), newChunk, swbfInactive)
  {
    hide PathAfterAppend, NewLeafPath;
    var n := swbfInactive.numLeafs;
    var chunks := set i | i in indices :: i / CHUNK_SIZE;
    assert forall c | c in dictionary :: c in chunks && c < n;
    assert forall c :: c in InactiveChunks(indices, n + 1) <==> c in chunks && c < n + 1;
  }

  /** Such a dictionary is in step with the mutator set after the slide. */
  lemma SlidEntriesSynced(indices: seq<nat>, before: ChunkDictionary, after: ChunkDictionary, ms: MutatorSet, next: MutatorSet)
    requires DictionarySynced(indices, before, ms)
    requires |next.chunks| == |ms.chunks| + 1 && next.chunks[..|ms.chunks|] == ms.chunks
    requires SlidEntries(indices, before, after, next.chunks[|ms.chunks|], MmraOf(ms.ChunkDigests()))
    ensures DictionarySynced(indices, after, next)
  {
    hide PathAfterAppend, NewLeafPath;
    var n, leafs, newChunk := |ms.chunks|, ms.ChunkDigests(), next.chunks[|ms.chunks|];
    assert next.ChunkDigests() == leafs + [HashNats(newChunk)];
    AppendCorrect(leafs, HashNats(newChunk));
    forall c | c in after ensures c < |next.chunks| && after[c] == AuthChunk(Path(next.ChunkDigests(), c), next.chunks[c]) {
      if c != n {
        assert c in before;
        PathAfterAppendCorrect(leafs, c, HashNats(newChunk));
      }
    }
  }

  lemma DictionaryAfterSlideSynced(indices: seq<nat>, dictionary: ChunkDictionary, ms: MutatorSet, next: MutatorSet)
    requires DictionarySynced(indices, dictionary, ms)
    requires |next.chunks| == |ms.chunks| + 1 && next.chunks[..|ms.chunks|] == ms.chunks
    ensures DictionarySynced(indices,
              DictionaryAfterSlide(indices, dictionary, next.chunks[|ms.chunks|], MmraOf(ms.ChunkDigests())), next)
  {
    hide SlidEntries, DictionaryAfterSlide;
    var newChunk, swbfInactive := next.chunks[|ms.chunks|], MmraOf(ms.ChunkDigests());
    EntriesAfterSlide(indices, dictionary, newChunk, swbfInactive);
    SlidEntriesSynced(indices, dictionary, DictionaryAfterSlide(indices, dictionary, newChunk, swbfInactive), ms, next);
  }

  /** RemovalRecord::batch_update_from_addition, in anticipation of one addition to the mutator set. */
  method BatchUpdateFromAddition(records: seq<RemovalRecord>, mutatorSet: MutatorSetAccumulator, ghost commitment: Digest)
    returns (updated: seq<RemovalRecord>)
    requires mutatorSet.Valid()
    ensures SameIndices(records, updated)
    ensures AllSynced(records, mutatorSet.value) ==>
              AllSynced(updated, SyncTarget(mutatorSet.value.aocl + [commitment], ChunksAfterAddition(mutatorSet.value)))
  {
    ghost var ms := mutatorSet.value;
    ghost var next := SyncTarget(ms.aocl + [commitment], ChunksAfterAddition(ms));
    var newItemIndex := mutatorSet.aocl.numLeafs;
    SlideStartsBatch(newItemIndex);
    if !WindowSlides(newItemIndex) {
      return records;
    }
    var newChunk := mutatorSet.swbfActive.SlidChunk();
    assert next.chunks[..|ms.chunks|] == ms.chunks && next.chunks[|ms.chunks|] == newChunk;
    assert newItemIndex / BATCH_SIZE - 1 == mutatorSet.swbfInactive.numLeafs;
    updated := [];
    for k := 0 to |records|
      invariant |updated| == k
      invariant forall j | 0 <= j < k :: updated[j].absoluteIndices == records[j].absoluteIndices
      invariant AllSynced(records, ms) ==> forall j | 0 <= j < k :: Synced(updated[j], next)
    {
      var rr := records[k];
      if AllSynced(records, ms) { DictionaryAfterSlideSynced(rr.absoluteIndices, rr.targetChunks, ms, next); }
      updated := updated + [rr.(targetChunks :=
        DictionaryAfterSlide(rr.absoluteIndices, rr.targetChunks, newChunk, mutatorSet.swbfInactive))];
    }
  }

  // ---------- removals ----------

  /** A chunk once the groups' indices have been inserted. */
  function InsertedChunk(chunk: Chunk, groups: map<nat, seq<nat>>, c: nat): Chunk {
    if c in groups then ChunkInsertAll(chunk, groups[c]) else chunk
  }

  /** The inactive chunks once a record with these indices has been applied. */
  function ChunksAfterRemoval(ms: MutatorSet, applied: seq<nat>): (r: seq<Chunk>)
    ensures |r| == |ms.chunks|
  {
    seq(|ms.chunks|, c requires 0 <= c < |ms.chunks| => InsertedChunk(ms.chunks[c], IndicesToMap(applied), c))
  }

  lemma InsertedChunkCovers(chunk: Chunk, before: multiset<nat>, applied: seq<nat>, c: nat)
    requires Covers(chunk, before, c * CHUNK_SIZE, CHUNK_SIZE) && Fits(applied)
    ensures Covers(InsertedChunk(chunk, IndicesToMap(applied), c), before + multiset(applied), c * CHUNK_SIZE, CHUNK_SIZE)
  {
    hide Covers, ChunkInsertAll;
    var groups, base := IndicesToMap(applied), c * CHUNK_SIZE;
    var after: multiset<nat> := before + multiset(applied);
    if c in groups {
      GroupKeys(applied, c);
      ChunkInsertAllCovers(chunk, groups[c], before, c);
      forall i: nat | base <= i < base + CHUNK_SIZE ensures after[i] == (before + multiset(groups[c]))[i] {
        FittingGroups(applied, c, i);
      }
      CoversElsewhere(ChunkInsertAll(chunk, groups[c]), before + multiset(groups[c]), after, base, CHUNK_SIZE);
    } else {
      forall i: nat | base <= i < base + CHUNK_SIZE ensures after[i] == before[i] {
        FittingGroups(applied, c, i);
      }
      CoversElsewhere(chunk, before, after, base, CHUNK_SIZE);
    }
  }

  /** Whatever stores the old indices and the record's has exactly these chunks. */
  lemma RemovalDeterminesChunks(ms: MutatorSet, before: multiset<nat>, applied: seq<nat>, after: MutatorSet)
    requires Stores(ms, before) && Stores(after, before + multiset(applied)) && after.aocl == ms.aocl && Fits(applied)
    ensures after.chunks == ChunksAfterRemoval(ms, applied)
  {
    hide Covers, InsertedChunk;
    forall c | 0 <= c < |ms.chunks| ensures after.chunks[c] == ChunksAfterRemoval(ms, applied)[c] {
      InsertedChunkCovers(ms.chunks[c], before, applied, c);
      CoversUnique(after.chunks[c], ChunksAfterRemoval(ms, applied)[c], before + multiset(applied), c * CHUNK_SIZE, CHUNK_SIZE);
    }
  }

  /** A dictionary once the groups of the given chunks have been inserted. */
  function Inserted(dictionary: ChunkDictionary, groups: map<nat, seq<nat>>, chunks: set<nat>): ChunkDictionary {
    map c | c in dictionary ::
      if c in chunks then dictionary[c].(chunk := InsertedChunk(dictionary[c].chunk, groups, c)) else dictionary[c]
  }

  /** Wherever the chunk is found, it is the target's. */
  ghost predicate AllAgree(dictionaries: seq<ChunkDictionary>, target: ChunkDictionary, c: nat) {
    forall i | 0 <= i < |dictionaries| && c in dictionaries[i] :: c in target && dictionaries[i][c] == target[c]
  }

  /** One chunk index of the batch: insert its indices into every dictionary that has the chunk, and
      remember the new content with the path from before, taken from wherever the chunk is found first. */
  method MutateChunk(c: nat, group: seq<nat>, target: ChunkDictionary, dictionaries: seq<ChunkDictionary>, known: ChunkDictionary)
    returns (changed: seq<ChunkDictionary>, modifications: ChunkDictionary, mutated: set<nat>)
    requires c !in known
    ensures |changed| == |dictionaries|
    ensures forall i | 0 <= i < |changed| ::
              changed[i] == if c in dictionaries[i] then InsertIntoDictionary(dictionaries[i], c, group) else dictionaries[i]
    ensures known.Keys <= modifications.Keys <= known.Keys + {c}
    ensures AllAgree(dictionaries, target, c) ==>
              modifications ==
              if dictionaries != [] && c in target then known[c := InsertIntoDictionary(target, c, group)[c]] else known
    ensures forall i :: i in mutated <==> 0 <= i < |dictionaries| && c in dictionaries[i]
  {
    changed, modifications, mutated := dictionaries, known, {};
    for i := 0 to |changed|
      invariant |changed| == |dictionaries|
      invariant forall j | 0 <= j < i ::
                  changed[j] == if c in dictionaries[j] then InsertIntoDictionary(dictionaries[j], c, group) else dictionaries[j]
      invariant forall j | i <= j < |changed| :: changed[j] == dictionaries[j]
      invariant known.Keys <= modifications.Keys <= known.Keys + {c}
      invariant AllAgree(dictionaries, target, c) ==>
                  modifications == if i > 0 && c in target then known[c := InsertIntoDictionary(target, c, group)[c]] else known
      invariant forall j :: j in mutated <==> 0 <= j < i && c in dictionaries[j]
    {
      if c in changed[i] {
        // the chunk is in this dictionary: insert the indices there
        changed := changed[i := InsertIntoDictionary(changed[i], c, group)];
        mutated := mutated + {i};
        if c !in modifications {
          modifications := modifications[c := changed[i][c]];
        }
      } else if c in target && c !in modifications {
        // otherwise take it from the applied record
        modifications := modifications[c := AuthChunk(target[c].path, ChunkInsertAll(target[c].chunk, group))];
      }
    }
  }

  /** get_batch_mutation_argument_for_removal_record: insert the applied record's indices into every
      dictionary, and collect for each chunk touched its new content with the path from before. Reports which
      dictionaries were touched. */
  method BatchMutationArgument(applied: RemovalRecord, dictionaries: seq<ChunkDictionary>, ghost ms: MutatorSet)
    returns (changed: seq<ChunkDictionary>, modifications: ChunkDictionary, mutated: set<nat>)
    requires Fits(applied.absoluteIndices) && applied.targetChunks.Keys == InactiveChunks(applied.absoluteIndices, |ms.chunks|)
    requires IsPartOf(applied.targetChunks, ms)
    ensures |changed| == |dictionaries|
    ensures forall i | 0 <= i < |changed| ::
              changed[i] == Inserted(dictionaries[i], IndicesToMap(applied.absoluteIndices), IndicesToMap(applied.absoluteIndices).Keys)
    ensures dictionaries != [] && AreParts(dictionaries, ms) ==>
              modifications == Inserted(applied.targetChunks, IndicesToMap(applied.absoluteIndices), applied.targetChunks.Keys)
    ensures forall i :: i in mutated <==>
              0 <= i < |dictionaries| && Touches(dictionaries[i], IndicesToMap(applied.absoluteIndices).Keys)
  {
    var groups, target := IndicesToMap(applied.absoluteIndices), applied.targetChunks;
    changed, modifications, mutated := dictionaries, map[], {};
    InactiveChunksAreGroups(applied.absoluteIndices, |ms.chunks|);
    hide InsertIntoDictionary, Inserted, IndicesToMap, AllAgree, AreParts;
    ghost var agree := AreParts(dictionaries, ms);
    InsertedNone(dictionaries, groups);
    var todo := groups.Keys;
    ghost var done: set<nat> := {};
    while todo != {}
      invariant done !! todo && done + todo == groups.Keys
      invariant |changed| == |dictionaries|
      invariant forall i | 0 <= i < |changed| :: changed[i] == Inserted(dictionaries[i], groups, done)
      invariant modifications.Keys <= done
      invariant agree ==> modifications == if dictionaries == [] then map[] else Inserted(Restricted(target, done), groups, done)
      invariant forall i :: i in mutated <==> 0 <= i < |dictionaries| && Touches(dictionaries[i], done)
    {
      var c :| c in todo;
      forall i | 0 <= i < |changed|
        ensures c in changed[i] <==> c in dictionaries[i]
        ensures c in changed[i] ==> changed[i][c] == dictionaries[i][c]
      {
        InsertedElsewhere(dictionaries[i], groups, done, c);
      }
      if agree { PartsAgree(dictionaries, changed, target, c, ms); }
      forall i | 0 <= i < |changed| { InsertedStep(dictionaries[i], groups, done, c); }
      if dictionaries != [] { ModificationsStep(target, groups, done, c); }
      var touched;
      changed, modifications, touched := MutateChunk(c, groups[c], target, changed, modifications);
      mutated := mutated + touched;
      todo, done := todo - {c}, done + {c};
    }
    ModificationsDone(target, groups);
    assert done == groups.Keys;
  }

  ghost predicate AreParts(dictionaries: seq<ChunkDictionary>, ms: MutatorSet) {
    forall i | 0 <= i < |dictionaries| :: IsPartOf(dictionaries[i], ms)
  }

  /** Parts of the mutator set have the same chunk, and the applied record has it as well. */
  lemma PartsAgree(dictionaries: seq<ChunkDictionary>, changed: seq<ChunkDictionary>, target: ChunkDictionary, c: nat, ms: MutatorSet)
    requires AreParts(dictionaries, ms) && IsPartOf(target, ms) && (c < |ms.chunks| ==> c in target) && |changed| == |dictionaries|
    requires forall i | 0 <= i < |changed| && c in changed[i] :: c in dictionaries[i] && changed[i][c] == dictionaries[i][c]
    ensures AllAgree(changed, target, c)
  {
  }

  /** The dictionary has one of the chunks. */
  predicate Touches(dictionary: ChunkDictionary, chunks: set<nat>) {
    exists c | c in chunks :: c in dictionary
  }

  function Restricted(dictionary: ChunkDictionary, chunks: set<nat>): ChunkDictionary {
    map c | c in dictionary && c in chunks :: dictionary[c]
  }

  lemma InsertedNone(dictionaries: seq<ChunkDictionary>, groups: map<nat, seq<nat>>)
    ensures forall i | 0 <= i < |dictionaries| :: dictionaries[i] == Inserted(dictionaries[i], groups, {})
    ensures forall target: ChunkDictionary :: Inserted(Restricted(target, {}), groups, {}) == map[]
  {
  }

  lemma InsertedElsewhere(dictionary: ChunkDictionary, groups: map<nat, seq<nat>>, done: set<nat>, c: nat)
    requires c !in done
    ensures Inserted(dictionary, groups, done).Keys == dictionary.Keys
    ensures c in dictionary ==> Inserted(dictionary, groups, done)[c] == dictionary[c]
  {
  }

  lemma InsertedStep(dictionary: ChunkDictionary, groups: map<nat, seq<nat>>, done: set<nat>, c: nat)
    requires c !in done && c in groups
    ensures c in Inserted(dictionary, groups, done) <==> c in dictionary
    ensures Inserted(dictionary, groups, done + {c}) ==
            if c in dictionary then InsertIntoDictionary(Inserted(dictionary, groups, done), c, groups[c])
            else Inserted(dictionary, groups, done)
  {
  }

  lemma ModificationsStep(target: ChunkDictionary, groups: map<nat, seq<nat>>, done: set<nat>, c: nat)
    requires c !in done && c in groups
    ensures Inserted(Restricted(target, done + {c}), groups, done + {c}) ==
            if c in target then Inserted(Restricted(target, done), groups, done)[c := InsertIntoDictionary(target, c, groups[c])[c]]
            else Inserted(Restricted(target, done), groups, done)
  {
  }

  lemma ModificationsDone(target: ChunkDictionary, groups: map<nat, seq<nat>>)
    requires target.Keys <= groups.Keys
    ensures Inserted(Restricted(target, groups.Keys), groups, groups.Keys) == Inserted(target, groups, target.Keys)
  {
  }

  /** Every entry is the mutator set's current chunk with its path. */
  ghost predicate IsPartOf(dictionary: ChunkDictionary, ms: MutatorSet) {
    forall c | c in dictionary :: c < |ms.chunks| &&
      dictionary[c] == AuthChunk(Path(ms.ChunkDigests(), c), ms.chunks[c])
  }

  function PathsRefreshed(dictionary: ChunkDictionary, mutations: seq<LeafMutation>): ChunkDictionary {
    map c | c in dictionary :: AuthChunk(BatchPath(dictionary[c].path, c, mutations), dictionary[c].chunk)
  }

  /** RemovalRecord::batch_update_from_remove, in anticipation of one removal from the mutator set. */
  method BatchUpdateFromRemove(records: seq<RemovalRecord>, applied: RemovalRecord, ghost ms: MutatorSet)
    returns (updated: seq<RemovalRecord>)
    requires |ms.chunks| == BatchIndex(|ms.aocl|) && Synced(applied, ms)
    ensures SameIndices(records, updated)
    ensures AllSynced(records, ms) ==> AllSynced(updated, SyncTarget(ms.aocl, ChunksAfterRemoval(ms, applied.absoluteIndices)))
  {
    ghost var next := SyncTarget(ms.aocl, ChunksAfterRemoval(ms, applied.absoluteIndices));
    var dictionaries := seq(|records|, k requires 0 <= k < |records| => records[k].targetChunks);
    var changed, modifications, _ := BatchMutationArgument(applied, dictionaries, ms);
    var mutations := MutationsOf(modifications);
    updated := [];
    for k := 0 to |records|
      invariant |updated| == k
      invariant forall j | 0 <= j < k :: updated[j].absoluteIndices == records[j].absoluteIndices
      invariant AllSynced(records, ms) ==> forall j | 0 <= j < k :: Synced(updated[j], next)
    {
      if AllSynced(records, ms) {
        DictionaryFollowsRemoval(records[k].absoluteIndices, records[k].targetChunks, applied, ms, modifications, mutations);
      }
      updated := updated + [records[k].(targetChunks := PathsRefreshed(changed[k], mutations))];
    }
  }

  /** Inserting the applied indices and refreshing every path brings a dictionary in step. */
  lemma DictionaryFollowsRemoval(indices: seq<nat>, dictionary: ChunkDictionary, applied: RemovalRecord, ms: MutatorSet,
                                 modifications: ChunkDictionary, mutations: seq<LeafMutation>)
    requires DictionarySynced(indices, dictionary, ms) && Synced(applied, ms)
    requires modifications == Inserted(applied.targetChunks, IndicesToMap(applied.absoluteIndices), applied.targetChunks.Keys)
    requires MutationsFor(mutations, modifications)
    ensures var changed := Inserted(dictionary, IndicesToMap(applied.absoluteIndices), IndicesToMap(applied.absoluteIndices).Keys);
            DictionarySynced(indices, PathsRefreshed(changed, mutations), SyncTarget(ms.aocl, ChunksAfterRemoval(ms, applied.absoluteIndices)))
  {
    var next := SyncTarget(ms.aocl, ChunksAfterRemoval(ms, applied.absoluteIndices));
    var groups := IndicesToMap(applied.absoluteIndices);
    var refreshed := PathsRefreshed(Inserted(dictionary, groups, groups.Keys), mutations);
    forall c | c in dictionary ensures refreshed[c] == AuthChunk(Path(next.ChunkDigests(), c), next.chunks[c]) {
      PathsFollowRemoval(applied, ms, modifications, mutations, c);
    }
  }

  lemma PathsFollowRemoval(applied: RemovalRecord, ms: MutatorSet,
                           modifications: ChunkDictionary, mutations: seq<LeafMutation>, c: nat)
    requires Synced(applied, ms) && c < |ms.chunks|
    requires modifications == Inserted(applied.targetChunks, IndicesToMap(applied.absoluteIndices), applied.targetChunks.Keys)
    requires MutationsFor(mutations, modifications)
    ensures BatchPath(Path(ms.ChunkDigests(), c), c, mutations) ==
            Path(DigestsOf(ChunksAfterRemoval(ms, applied.absoluteIndices)), c)
  {
    InactiveChunksAreGroups(applied.absoluteIndices, |ms.chunks|);
    assert ChunksAfterRemoval(ms, applied.absoluteIndices) == Overlay(ms.chunks, modifications);
    OverlayPeaks(ms.chunks, modifications, mutations);
    BatchMutationCorrect(ms.ChunkDigests(), mutations, c);
  }
}
