/** Taking a removal record's indices out of chunk dictionaries again. */
module RemovalReversions {
  import opened MountainRange
  import opened MixedPaths
  import opened Sorting
  import opened ActiveWindows
  import opened MutatorSets
  import opened RemovalRecords
  import opened MutatorSetAccumulators
  import opened RecordUpdates

  // ---------- one chunk ----------

  function LastPosition(chunk: Chunk, x: nat): (k: nat)
    requires x in chunk
    ensures k < |chunk| && chunk[k] == x
  {
    var n := |chunk| - 1;
    if chunk[n] == x then n
    else
      assert chunk == chunk[..n] + [chunk[n]];
      LastPosition(chunk[..n], x)
  }

  /** Chunk::remove_once, which drops the last occurrence, if there is one. */
  function RemoveOnce(chunk: Chunk, x: nat): Chunk {
    if x in chunk then DropAt(chunk, LastPosition(chunk, x)) else chunk
  }

  /** Remove absolute indices one after the other. */
  function ChunkRemoveAll(chunk: Chunk, indices: seq<nat>): Chunk {
    if indices == [] then chunk
    else RemoveOnce(ChunkRemoveAll(chunk, indices[..|indices| - 1]), indices[|indices| - 1] % CHUNK_SIZE)
  }

  lemma RemoveOnceCovers(chunk: Chunk, i: nat, indices: multiset<nat>, c: nat)
    requires Covers(chunk, indices + multiset{i}, c * CHUNK_SIZE, CHUNK_SIZE) && i / CHUNK_SIZE == c
    ensures Covers(RemoveOnce(chunk, i % CHUNK_SIZE), indices, c * CHUNK_SIZE, CHUNK_SIZE)
  {
    hide Covers, Sorted;
    var base, x, all := c * CHUNK_SIZE, i % CHUNK_SIZE, indices + multiset{i};
    assert base + x == i;
    CoversElements(chunk, all, base, CHUNK_SIZE, x);
    CoversSorted(chunk, all, base, CHUNK_SIZE);
    var k := LastPosition(chunk, x);
    DropAtCounts(chunk, k);
    DropAtSorted(chunk, k);
    CoversRemove(chunk, DropAt(chunk, k), all, base, CHUNK_SIZE, x);
    assert all - multiset{i} == indices;
  }

  lemma CoversSorted(list: seq<nat>, indices: multiset<nat>, base: nat, size: nat)
    requires Covers(list, indices, base, size)
    ensures Sorted(list)
  {
  }

  lemma {:induction false} ChunkRemoveAllCovers(chunk: Chunk, group: seq<nat>, indices: multiset<nat>, c: nat)
    requires Covers(chunk, indices + multiset(group), c * CHUNK_SIZE, CHUNK_SIZE)
    requires InChunk(group, c)
    ensures Covers(ChunkRemoveAll(chunk, group), indices, c * CHUNK_SIZE, CHUNK_SIZE)
    decreases |group|
  {
    hide Covers, RemoveOnce;
    if group == [] {
      assert indices + multiset(group) == indices;
    } else {
      var init: seq<nat>, i: nat := group[..|group| - 1], group[|group| - 1];
      assert group == init + [i];
      assert indices + multiset{i} + multiset(init) == indices + multiset(group);
      ChunkRemoveAllCovers(chunk, init, indices + multiset{i}, c);
      RemoveOnceCovers(ChunkRemoveAll(chunk, init), i, indices, c);
    }
  }

  /** Removing what was inserted restores the very list. */
  lemma InsertedThenRemoved(chunk: Chunk, group: seq<nat>, indices: multiset<nat>, c: nat)
    requires Covers(chunk, indices, c * CHUNK_SIZE, CHUNK_SIZE) && InChunk(group, c)
    ensures ChunkRemoveAll(ChunkInsertAll(chunk, group), group) == chunk
  {
    hide Covers, ChunkInsertAll, ChunkRemoveAll;
    ChunkInsertAllCovers(chunk, group, indices, c);
    ChunkRemoveAllCovers(ChunkInsertAll(chunk, group), group, indices, c);
    CoversUnique(ChunkRemoveAll(ChunkInsertAll(chunk, group), group), chunk, indices, c * CHUNK_SIZE, CHUNK_SIZE);
  }

  // ---------- dictionaries ----------

  /** The mutator set that a removal has led to. */
  function AfterRemoval(before: MutatorSet, applied: RemovalRecord): MutatorSet {
    SyncTarget(before.aocl, ChunksAfterRemoval(before, applied.absoluteIndices))
  }

  /** A dictionary once the groups of the given chunks have been removed. */
  function Removed(dictionary: ChunkDictionary, groups: map<nat, seq<nat>>, chunks: set<nat>): ChunkDictionary {
    map c | c in dictionary ::
      if c in chunks && c in groups then dictionary[c].(chunk := ChunkRemoveAll(dictionary[c].chunk, groups[c])) else dictionary[c]
  }

  /** The chunk from before the removal, with its path from before or from after it. */
  ghost predicate Restoring(entry: AuthChunk, c: nat, before: MutatorSet, after: MutatorSet) {
    && c < |before.chunks| == |after.chunks| && entry.chunk == before.chunks[c]
    && (entry.path == Path(before.ChunkDigests(), c) || entry.path == Path(after.ChunkDigests(), c))
  }

  /** One chunk index of the batch: remove its indices from every dictionary that has the chunk, and remember the
      chunk to go back to, with whichever path is found first. */
  method RevertChunk(c: nat, group: seq<nat>, target: ChunkDictionary, dictionaries: seq<ChunkDictionary>, known: ChunkDictionary,
                     ghost before: MutatorSet, ghost after: MutatorSet)
    returns (changed: seq<ChunkDictionary>, modifications: ChunkDictionary, mutated: set<nat>)
    requires c !in known && (c in target ==> Restoring(target[c], c, before, after))
    requires forall i | 0 <= i < |dictionaries| && c in dictionaries[i] ::
               c in target && Restoring(dictionaries[i][c].(chunk := ChunkRemoveAll(dictionaries[i][c].chunk, group)), c, before, after)
    ensures |changed| == |dictionaries|
    ensures forall i | 0 <= i < |changed| :: changed[i] ==
              if c in dictionaries[i] then dictionaries[i][c := dictionaries[i][c].(chunk := ChunkRemoveAll(dictionaries[i][c].chunk, group))]
              else dictionaries[i]
    ensures if dictionaries != [] && c in target
            then modifications.Keys == known.Keys + {c} && Restoring(modifications[c], c, before, after)
            else modifications.Keys == known.Keys
    ensures forall d | d in known :: modifications[d] == known[d]
    ensures forall i :: i in mutated <==> 0 <= i < |dictionaries| && c in dictionaries[i]
  {
    hide Restoring, ChunkRemoveAll;
    changed, modifications, mutated := dictionaries, known, {};
    for i := 0 to |changed|
      invariant |changed| == |dictionaries|
      invariant forall j | 0 <= j < i :: changed[j] ==
                  if c in dictionaries[j] then dictionaries[j][c := dictionaries[j][c].(chunk := ChunkRemoveAll(dictionaries[j][c].chunk, group))]
                  else dictionaries[j]
      invariant forall j | i <= j < |changed| :: changed[j] == dictionaries[j]
      invariant if i > 0 && c in target
                then modifications.Keys == known.Keys + {c} && Restoring(modifications[c], c, before, after)
                else modifications.Keys == known.Keys
      invariant forall d | d in known :: modifications[d] == known[d]
      invariant forall j :: j in mutated <==> 0 <= j < i && c in dictionaries[j]
    {
      if c in changed[i] {
        var entry := changed[i][c].(chunk := ChunkRemoveAll(changed[i][c].chunk, group));
        var dictionary: ChunkDictionary := changed[i][c := entry];
        changed, mutated := changed[i := dictionary], mutated + {i};
        if c !in modifications { modifications := modifications[c := entry]; }
      } else if c in target && c !in modifications {
        modifications := modifications[c := target[c]];
      }
    }
  }

  /** Whatever a dictionary in step with the mutator set after the removal has, removing gives the chunk from before. */
  lemma RevertedEntry(dictionary: ChunkDictionary, applied: RemovalRecord, before: MutatorSet, stored: multiset<nat>, c: nat)
    requires Stores(before, stored) && c in dictionary && IsPartOf(dictionary, AfterRemoval(before, applied))
    requires Fits(applied.absoluteIndices)
    ensures var groups := IndicesToMap(applied.absoluteIndices);
            && c < |before.chunks|
            && (c in groups ==> Restoring(dictionary[c].(chunk := ChunkRemoveAll(dictionary[c].chunk, groups[c])), c, before, AfterRemoval(before, applied)))
            && (c !in groups ==> dictionary[c].chunk == before.chunks[c])
  {
    hide ChunkRemoveAll, ChunkInsertAll, Covers, Path;
    if c in IndicesToMap(applied.absoluteIndices) {
      GroupKeys(applied.absoluteIndices, c);
      InsertedThenRemoved(before.chunks[c], IndicesToMap(applied.absoluteIndices)[c], stored, c);
    }
  }

  lemma TargetRestores(applied: RemovalRecord, before: MutatorSet, c: nat)
    requires Synced(applied, before) && c in applied.targetChunks
    ensures Restoring(applied.targetChunks[c], c, before, AfterRemoval(before, applied))
  {
  }

  lemma RemovedStep(dictionary: ChunkDictionary, groups: map<nat, seq<nat>>, done: set<nat>, c: nat)
    requires c !in done && c in groups
    ensures Removed(dictionary, groups, done).Keys == dictionary.Keys
    ensures c in dictionary ==> Removed(dictionary, groups, done)[c] == dictionary[c]
    ensures Removed(dictionary, groups, done + {c}) ==
            if c in dictionary then Removed(dictionary, groups, done)[c := dictionary[c].(chunk := ChunkRemoveAll(dictionary[c].chunk, groups[c]))]
            else Removed(dictionary, groups, done)
  {
  }

  /** prepare_authenticated_batch_modification_for_removal_record_reversion. Reports which dictionaries were touched. */
  method BatchReversionArgument(applied: RemovalRecord, dictionaries: seq<ChunkDictionary>, ghost before: MutatorSet, ghost stored: multiset<nat>)
    returns (changed: seq<ChunkDictionary>, modifications: ChunkDictionary, mutated: set<nat>)
    requires Stores(before, stored) && Synced(applied, before)
    requires forall i | 0 <= i < |dictionaries| :: IsPartOf(dictionaries[i], AfterRemoval(before, applied))
    ensures |changed| == |dictionaries|
    ensures forall i | 0 <= i < |changed| ::
              changed[i] == Removed(dictionaries[i], IndicesToMap(applied.absoluteIndices), IndicesToMap(applied.absoluteIndices).Keys)
    ensures dictionaries != [] ==> modifications.Keys == applied.targetChunks.Keys
    ensures forall c | c in modifications :: Restoring(modifications[c], c, before, AfterRemoval(before, applied))
    ensures forall i :: i in mutated <==>
              0 <= i < |dictionaries| && Touches(dictionaries[i], IndicesToMap(applied.absoluteIndices).Keys)
  {
    hide Removed, Restoring, ChunkRemoveAll, IndicesToMap, AfterRemoval, IsPartOf, Stores, Synced;
    var groups, target := IndicesToMap(applied.absoluteIndices), applied.targetChunks;
    ghost var after := AfterRemoval(before, applied);
    TargetsAreGroups(applied, before);
    SyncedFits(applied, before);
    changed, modifications, mutated := dictionaries, map[], {};
    NothingRemoved(dictionaries, groups);
    var todo := groups.Keys;
    ghost var done: set<nat> := {};
    while todo != {}
      invariant done !! todo && done + todo == groups.Keys
      invariant |changed| == |dictionaries|
      invariant forall i | 0 <= i < |changed| :: changed[i] == Removed(dictionaries[i], groups, done)
      invariant modifications.Keys == if dictionaries == [] then {} else target.Keys * done
      invariant forall c | c in modifications :: Restoring(modifications[c], c, before, after)
      invariant forall i :: i in mutated <==> 0 <= i < |dictionaries| && Touches(dictionaries[i], done)
    {
      var c :| c in todo;
      if c in target { TargetRestores(applied, before, c); }
      forall i | 0 <= i < |changed|
        ensures c in changed[i] <==> c in dictionaries[i]
        ensures c in changed[i] ==> changed[i][c] == dictionaries[i][c] && c in target
        ensures c in changed[i] ==>
                  Restoring(dictionaries[i][c].(chunk := ChunkRemoveAll(dictionaries[i][c].chunk, groups[c])), c, before, after)
        ensures Removed(dictionaries[i], groups, done + {c}) ==
                  if c in dictionaries[i] then changed[i][c := dictionaries[i][c].(chunk := ChunkRemoveAll(dictionaries[i][c].chunk, groups[c]))]
                  else changed[i]
      {
        RemovedStep(dictionaries[i], groups, done, c);
        if c in dictionaries[i] { RevertedEntry(dictionaries[i], applied, before, stored, c); }
      }
      var touched;
      changed, modifications, touched := RevertChunk(c, groups[c], target, changed, modifications, before, after);
      mutated := mutated + touched;
      todo, done := todo - {c}, done + {c};
    }
    assert done == groups.Keys;
  }

  lemma NothingRemoved(dictionaries: seq<ChunkDictionary>, groups: map<nat, seq<nat>>)
    ensures forall i | 0 <= i < |dictionaries| :: dictionaries[i] == Removed(dictionaries[i], groups, {})
  {
  }

  lemma TargetsAreGroups(applied: RemovalRecord, before: MutatorSet)
    requires Synced(applied, before)
    ensures applied.targetChunks.Keys <= IndicesToMap(applied.absoluteIndices).Keys
    ensures forall c | c in IndicesToMap(applied.absoluteIndices) && c < |before.chunks| :: c in applied.targetChunks
  {
    InactiveChunksAreGroups(applied.absoluteIndices, |before.chunks|);
  }

  // ---------- paths ----------

  /** The batch takes every path from after the removal back to the one from before it. */
  lemma PathsFollowReversion(applied: RemovalRecord, before: MutatorSet, modifications: ChunkDictionary, mutations: seq<LeafMutation>, c: nat)
    requires Synced(applied, before) && c < |before.chunks|
    requires modifications.Keys == applied.targetChunks.Keys && MutationsFor(mutations, modifications)
    requires forall d | d in modifications :: Restoring(modifications[d], d, before, AfterRemoval(before, applied))
    ensures BatchPath(Path(AfterRemoval(before, applied).ChunkDigests(), c), c, mutations) == Path(before.ChunkDigests(), c)
  {
    hide Settled, Path, ChunkInsertAll;
    var leafs, other := before.ChunkDigests(), AfterRemoval(before, applied).ChunkDigests();
    var pending := Indices(mutations);
    TargetsAreGroups(applied, before);
    forall k | 0 <= k < |leafs| && k !in pending ensures other[k] == leafs[k] {
      if k in modifications {
        assert Mutates(mutations, k);
        IndicesAre(mutations, k);
      }
    }
    PathIsSettled(other, leafs, c, pending);
    forall k | 0 <= k < |mutations|
      ensures mutations[k].index < |leafs| && mutations[k].newLeaf == leafs[mutations[k].index]
      ensures Settled(mutations[k].path, leafs, mutations[k].index, pending)
    {
      var d := mutations[k].index;
      assert Restoring(modifications[d], d, before, AfterRemoval(before, applied));
      PathIsSettled(other, leafs, d, pending);
      PathIsSettled(leafs, leafs, d, pending);
    }
    RestoringBatch(leafs, Path(other, c), c, mutations);
  }

  lemma DictionaryFollowsReversion(indices: seq<nat>, dictionary: ChunkDictionary, applied: RemovalRecord, before: MutatorSet, stored: multiset<nat>,
                                   modifications: ChunkDictionary, mutations: seq<LeafMutation>)
    requires Stores(before, stored) && Synced(applied, before) && DictionarySynced(indices, dictionary, AfterRemoval(before, applied))
    requires modifications.Keys == applied.targetChunks.Keys && MutationsFor(mutations, modifications)
    requires forall d | d in modifications :: Restoring(modifications[d], d, before, AfterRemoval(before, applied))
    ensures var groups := IndicesToMap(applied.absoluteIndices);
            DictionarySynced(indices, PathsRefreshed(Removed(dictionary, groups, groups.Keys), mutations), before)
  {
    hide Path, BatchPath, ChunkRemoveAll, Stores, Synced, MutationsFor;
    var groups := IndicesToMap(applied.absoluteIndices);
    var r := PathsRefreshed(Removed(dictionary, groups, groups.Keys), mutations);
    SyncedFits(applied, before);
    forall c | c in r ensures c < |before.chunks| && r[c] == AuthChunk(Path(before.ChunkDigests(), c), before.chunks[c]) {
      RevertedEntry(dictionary, applied, before, stored, c);
      PathsFollowReversion(applied, before, modifications, mutations, c);
    }
  }
}
