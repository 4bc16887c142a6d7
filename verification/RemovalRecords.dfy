/** Removal records: the absolute indices that spend an item, and the inactive chunks they touch,
    each with its authentication path. */
module RemovalRecords {
  import opened Digests
  import opened MountainRange
  import opened Sorting
  import opened ActiveWindows
  import opened MutatorSets

  datatype AuthChunk = AuthChunk(path: seq<Digest>, chunk: Chunk)

  type ChunkDictionary = map<nat, AuthChunk>

  datatype RemovalRecord = RemovalRecord(absoluteIndices: seq<nat>, targetChunks: ChunkDictionary)

  // ---------- indices by chunk ----------

  /** The chunk that an index is taken to be in: `as u64` drops high bits. */
  function ChunkOf(i: nat): nat {
    i / CHUNK_SIZE % LEAF_INDICES
  }

  /** Every chunk index fits 64 bits, so none is truncated. */
  predicate Fits(indices: seq<nat>) {
    forall i | i in indices :: i / CHUNK_SIZE < LEAF_INDICES
  }

  lemma ChunkOfFitting(indices: seq<nat>, i: nat)
    requires Fits(indices) && i in indices
    ensures ChunkOf(i) == i / CHUNK_SIZE
  {
  }

  /** indices_to_hash_map */
  function IndicesToMap(indices: seq<nat>): map<nat, seq<nat>> {
    if indices == [] then map[]
    else
      var m, i := IndicesToMap(indices[..|indices| - 1]), indices[|indices| - 1];
      var c := ChunkOf(i);
      m[c := (if c in m then m[c] else []) + [i]]
  }

  lemma CountSnoc(s: seq<nat>, x: nat)
    requires s != []
    ensures multiset(s)[x] == multiset(s[..|s| - 1])[x] + if s[|s| - 1] == x then 1 else 0
  {
    assert s == s[..|s| - 1] + [s[|s| - 1]];
  }

  /** The groups partition the indices: each group is what is taken to be in its chunk, and no index is lost. */
  lemma {:induction false} GroupsPartition(indices: seq<nat>, c: nat, x: nat)
    ensures c in IndicesToMap(indices) ==>
              && multiset(IndicesToMap(indices)[c])[x] == (if ChunkOf(x) == c then multiset(indices)[x] else 0)
              && IndicesToMap(indices)[c] != []
    ensures c !in IndicesToMap(indices) && ChunkOf(x) == c ==> multiset(indices)[x] == 0
    decreases |indices|
  {
    hide ChunkOf;
    if indices != [] {
      var n := |indices|;
      var init, last := indices[..n - 1], indices[n - 1];
      GroupsPartition(init, c, x);
      CountSnoc(indices, x);
      var m, m' := IndicesToMap(init), IndicesToMap(indices);
      if c in m' && ChunkOf(last) == c {
        var g := if c in m then m[c] else [];
        assert m'[c] == g + [last];
        CountSnoc(m'[c], x);
        assert m'[c][..|m'[c]| - 1] == g;
      }
    }
  }

  /** What unpacking gives: no absolute index is so large that its chunk index exceeds 64 bits. */
  type UnpackedRecord = rr: RemovalRecord | Fits(rr.absoluteIndices) witness RemovalRecord([], map[])

  /** The inactive chunks that a list of indices touches. */
  function InactiveChunks(indices: seq<nat>, batchIndex: nat): set<nat> {
    set i | i in indices && i / CHUNK_SIZE < batchIndex :: i / CHUNK_SIZE
  }

  lemma InactiveChunksOfConcat(a: seq<nat>, b: seq<nat>, batchIndex: nat)
    ensures InactiveChunks(a + b, batchIndex) == InactiveChunks(a, batchIndex) + InactiveChunks(b, batchIndex)
  {
    assert forall i: nat :: i in a + b <==> i in a || i in b;
    forall c | c in InactiveChunks(a, batchIndex) + InactiveChunks(b, batchIndex)
      ensures c in InactiveChunks(a + b, batchIndex)
    {
      var i: nat :| (i in a || i in b) && i / CHUNK_SIZE < batchIndex && i / CHUNK_SIZE == c;
      assert i in a + b;
    }
  }

  lemma InactiveChunksOfOne(i: nat, batchIndex: nat)
    ensures InactiveChunks([i], batchIndex) == if i / CHUNK_SIZE < batchIndex then {i / CHUNK_SIZE} else {}
  {
    assert i in [i];
  }

  predicate InChunk(indices: seq<nat>, c: nat) {
    forall k | 0 <= k < |indices| :: indices[k] / CHUNK_SIZE == c
  }

  /** What fits is in the group of the chunk it is in. */
  lemma FittingGroups(indices: seq<nat>, c: nat, x: nat)
    requires Fits(indices)
    ensures c in IndicesToMap(indices) ==>
              && multiset(IndicesToMap(indices)[c])[x] == (if x / CHUNK_SIZE == c then multiset(indices)[x] else 0)
              && IndicesToMap(indices)[c] != []
    ensures c !in IndicesToMap(indices) && x / CHUNK_SIZE == c ==> multiset(indices)[x] == 0
  {
    GroupsPartition(indices, c, x);
    CountIsMembership(indices, x);
    if x in indices { ChunkOfFitting(indices, x); }
  }

  lemma GroupKeys(indices: seq<nat>, c: nat)
    requires Fits(indices)
    ensures c in IndicesToMap(indices) <==> exists i | i in indices :: i / CHUNK_SIZE == c
    ensures c in IndicesToMap(indices) ==> InChunk(IndicesToMap(indices)[c], c)
  {
    var m := IndicesToMap(indices);
    if c in m {
      FittingGroups(indices, c, 0);
      FittingGroups(indices, c, m[c][0]);
      CountIsMembership(m[c], m[c][0]);
      CountIsMembership(indices, m[c][0]);
      forall k | 0 <= k < |m[c]| ensures m[c][k] / CHUNK_SIZE == c {
        FittingGroups(indices, c, m[c][k]);
        CountIsMembership(m[c], m[c][k]);
      }
    } else {
      forall i | i in indices ensures i / CHUNK_SIZE != c {
        FittingGroups(indices, c, i);
        CountIsMembership(indices, i);
      }
    }
  }

  lemma InactiveChunksAreGroups(indices: seq<nat>, batchIndex: nat)
    requires Fits(indices)
    ensures forall c :: c in InactiveChunks(indices, batchIndex) <==> c in IndicesToMap(indices) && c < batchIndex
  {
    forall c: nat ensures c in InactiveChunks(indices, batchIndex) <==> c in IndicesToMap(indices) && c < batchIndex {
      GroupKeys(indices, c);
    }
  }

  // ---------- inserting into a chunk ----------

  /** Chunk::insert */
  function ChunkInsert(chunk: Chunk, relativeIndex: nat): Chunk {
    Sort(chunk + [relativeIndex])
  }

  /** Insert absolute indices one after the other. */
  function ChunkInsertAll(chunk: Chunk, indices: seq<nat>): Chunk {
    if indices == [] then chunk
    else ChunkInsert(ChunkInsertAll(chunk, indices[..|indices| - 1]), indices[|indices| - 1] % CHUNK_SIZE)
  }

  lemma ChunkInsertCovers(chunk: Chunk, i: nat, indices: multiset<nat>, c: nat)
    requires Covers(chunk, indices, c * CHUNK_SIZE, CHUNK_SIZE) && i / CHUNK_SIZE == c
    ensures Covers(ChunkInsert(chunk, i % CHUNK_SIZE), indices + multiset{i}, c * CHUNK_SIZE, CHUNK_SIZE)
  {
    hide Covers, Sorted;
    assert c * CHUNK_SIZE + i % CHUNK_SIZE == i;
    CoversInsert(chunk, ChunkInsert(chunk, i % CHUNK_SIZE), indices, c * CHUNK_SIZE, CHUNK_SIZE, i % CHUNK_SIZE);
  }

  lemma {:induction false} ChunkInsertAllCovers(chunk: Chunk, group: seq<nat>, indices: multiset<nat>, c: nat)
    requires Covers(chunk, indices, c * CHUNK_SIZE, CHUNK_SIZE)
    requires InChunk(group, c)
    ensures Covers(ChunkInsertAll(chunk, group), indices + multiset(group), c * CHUNK_SIZE, CHUNK_SIZE)
    decreases |group|
  {
    hide Covers, ChunkInsert;
    if group == [] {
      assert indices + multiset(group) == indices;
    } else {
      var init: seq<nat>, i: nat := group[..|group| - 1], group[|group| - 1];
      ChunkInsertAllCovers(chunk, init, indices, c);
      ChunkInsertCovers(ChunkInsertAll(chunk, init), i, indices + multiset(init), c);
      assert group == init + [i];
      assert indices + multiset(init) + multiset{i} == indices + multiset(group);
    }
  }

  // ---------- synchrony ----------

  /** No index lies beyond the active window, and none is truncated. */
  predicate NoFutureIndex(indices: seq<nat>, windowStart: nat) {
    Fits(indices) && forall i | i in indices :: i < windowStart + WINDOW_SIZE
  }

  /** A dictionary that holds exactly the inactive chunks touched, as they are now, with their paths. */
  ghost predicate DictionarySynced(indices: seq<nat>, dictionary: ChunkDictionary, ms: MutatorSet) {
    && dictionary.Keys == InactiveChunks(indices, |ms.chunks|)
    && forall c | c in dictionary :: c < |ms.chunks| &&
         dictionary[c] == AuthChunk(Path(ms.ChunkDigests(), c), ms.chunks[c])
  }

  ghost predicate Synced(rr: RemovalRecord, ms: MutatorSet) {
    && NoFutureIndex(rr.absoluteIndices, ms.WindowStart())
    && DictionarySynced(rr.absoluteIndices, rr.targetChunks, ms)
  }

  lemma SyncedFits(rr: RemovalRecord, ms: MutatorSet)
    requires Synced(rr, ms)
    ensures Fits(rr.absoluteIndices)
  {
  }

  /** Some index of the record is not yet set. */
  ghost predicate SpendsSomething(absoluteIndices: seq<nat>, indices: multiset<nat>) {
    exists i | i in absoluteIndices :: indices[i] == 0
  }

  // ---------- applying a record ----------

  /** Indices of chunk c do not show in a list that covers another range. */
  lemma CoversOtherGroup(list: seq<nat>, indices: multiset<nat>, group: seq<nat>, c: nat, base: nat, size: nat)
    requires Covers(list, indices, base, size) && InChunk(group, c)
    requires base + size <= c * CHUNK_SIZE || (c + 1) * CHUNK_SIZE <= base
    ensures Covers(list, indices + multiset(group), base, size)
  {
    hide Covers;
    forall i: nat | base <= i < base + size ensures (indices + multiset(group))[i] == indices[i] {
      CountIsMembership(group, i);
    }
    CoversElsewhere(list, indices, indices + multiset(group), base, size);
  }

  /** The part of the indices that lies in the given chunks. */
  ghost predicate PartInChunks(part: multiset<nat>, indices: seq<nat>, chunks: set<nat>) {
    forall x: nat :: part[x] == if x / CHUNK_SIZE in chunks then multiset(indices)[x] else 0
  }

  lemma PartGrows(part: multiset<nat>, indices: seq<nat>, chunks: set<nat>, c: nat)
    requires Fits(indices) && PartInChunks(part, indices, chunks) && c !in chunks && c in IndicesToMap(indices)
    ensures PartInChunks(part + multiset(IndicesToMap(indices)[c]), indices, chunks + {c})
  {
    forall x: nat
      ensures (part + multiset(IndicesToMap(indices)[c]))[x] ==
              if x / CHUNK_SIZE in chunks + {c} then multiset(indices)[x] else 0
    {
      FittingGroups(indices, c, x);
    }
  }

  lemma PartComplete(part: multiset<nat>, indices: seq<nat>)
    requires Fits(indices) && PartInChunks(part, indices, IndicesToMap(indices).Keys)
    ensures part == multiset(indices)
  {
    forall x: nat ensures part[x] == multiset(indices)[x] {
      FittingGroups(indices, x / CHUNK_SIZE, x);
    }
  }

  /** Every chunk of the dictionary covers its part of the filter. */
  ghost predicate DictionaryCovers(dictionary: ChunkDictionary, indices: multiset<nat>, batchIndex: nat) {
    forall c | c in dictionary :: c < batchIndex && Covers(dictionary[c].chunk, indices, c * CHUNK_SIZE, CHUNK_SIZE)
  }

  /** One group of active indices goes into the window. */
  method InsertActive(window: ActiveWindow, group: seq<nat>, start: nat, ghost before: multiset<nat>)
    requires Covers(window.sbf, before, start, WINDOW_SIZE)
    requires forall k | 0 <= k < |group| :: start <= group[k] < start + WINDOW_SIZE
    modifies window
    ensures Covers(window.sbf, before + multiset(group), start, WINDOW_SIZE)
  {
    hide Covers, Sorted;
    assert before + multiset(group[..0]) == before;
    for k := 0 to |group|
      invariant Covers(window.sbf, before + multiset(group[..k]), start, WINDOW_SIZE)
    {
      ghost var so: multiset<nat> := before + multiset(group[..k]);
      ghost var was := window.sbf;
      var relative: nat := group[k] - start;
      CoversMeansValid(window, so, start);
      window.Insert(relative);
      CoversInsert(was, window.sbf, so, start, WINDOW_SIZE, relative);
      assert group[..k + 1] == group[..k] + [group[k]];
      assert so + multiset{start + relative} == before + multiset(group[..k + 1]);
    }
    assert group[..|group|] == group;
  }

  lemma CoversMeansValid(window: ActiveWindow, indices: multiset<nat>, start: nat)
    requires Covers(window.sbf, indices, start, WINDOW_SIZE)
    ensures window.Valid()
  {
    WindowInRange(window.sbf, indices, start);
  }

  /** Insert the indices group by group, into the window or into the dictionary's chunks. */
  method InsertIndices(window: ActiveWindow, targetChunks: ChunkDictionary, indices: seq<nat>, batchIndex: nat,
                       ghost before: multiset<nat>)
    returns (newChunks: ChunkDictionary)
    requires Covers(window.sbf, before, batchIndex * CHUNK_SIZE, WINDOW_SIZE)
    requires NoFutureIndex(indices, batchIndex * CHUNK_SIZE)
    requires DictionaryCovers(targetChunks, before, batchIndex)
    requires targetChunks.Keys == InactiveChunks(indices, batchIndex)
    modifies window
    ensures Covers(window.sbf, before + multiset(indices), batchIndex * CHUNK_SIZE, WINDOW_SIZE)
    ensures newChunks.Keys == targetChunks.Keys
    ensures forall c | c in newChunks :: newChunks[c].path == targetChunks[c].path
    ensures DictionaryCovers(newChunks, before + multiset(indices), batchIndex)
  {
    hide Covers, PartInChunks, DictionaryCovers;
    newChunks := targetChunks;
    var groups := IndicesToMap(indices);
    var start := batchIndex * CHUNK_SIZE;
    var todo := groups.Keys;
    ghost var done: multiset<nat> := multiset{};
    assert before + done == before;
    PartEmpty(indices);
    InactiveChunksAreGroups(indices, batchIndex);
    assert groups.Keys - todo == {};
    while todo != {}
      invariant todo <= groups.Keys
      invariant PartInChunks(done, indices, groups.Keys - todo)
      invariant Covers(window.sbf, before + done, start, WINDOW_SIZE)
      invariant newChunks.Keys == targetChunks.Keys
      invariant forall c | c in newChunks :: newChunks[c].path == targetChunks[c].path
      invariant DictionaryCovers(newChunks, before + done, batchIndex)
    {
      var c :| c in todo;
      var group := groups[c];
      GroupKeys(indices, c);
      ghost var was: multiset<nat> := before + done;
      if c >= batchIndex {
        GroupInWindow(indices, c, batchIndex);
        InsertActive(window, group, start, was);
        OtherChunksKept(newChunks, was, group, c, batchIndex);
      } else {
        InsertIntoDictionaryCovers(newChunks, c, group, was, batchIndex);
        newChunks := InsertIntoDictionary(newChunks, c, group);
        CoversOtherGroup(window.sbf, was, group, c, start, WINDOW_SIZE);
      }
      PartGrows(done, indices, groups.Keys - todo, c);
      assert was + multiset(group) == before + (done + multiset(group));
      assert groups.Keys - (todo - {c}) == groups.Keys - todo + {c};
      done := done + multiset(group);
      todo := todo - {c};
    }
    assert groups.Keys - todo == groups.Keys;
    PartComplete(done, indices);
  }

  lemma PartEmpty(indices: seq<nat>)
    ensures PartInChunks(multiset{}, indices, {})
  {
  }

  lemma GroupInWindow(indices: seq<nat>, c: nat, batchIndex: nat)
    requires c in IndicesToMap(indices) && batchIndex <= c && NoFutureIndex(indices, batchIndex * CHUNK_SIZE)
    ensures var group := IndicesToMap(indices)[c];
            forall k | 0 <= k < |group| :: batchIndex * CHUNK_SIZE <= group[k] < batchIndex * CHUNK_SIZE + WINDOW_SIZE
  {
    var group := IndicesToMap(indices)[c];
    GroupKeys(indices, c);
    forall k | 0 <= k < |group|
      ensures batchIndex * CHUNK_SIZE <= group[k] < batchIndex * CHUNK_SIZE + WINDOW_SIZE
    {
      FittingGroups(indices, c, group[k]);
      CountIsMembership(group, group[k]);
      CountIsMembership(indices, group[k]);
    }
  }

  lemma OtherChunksKept(dictionary: ChunkDictionary, indices: multiset<nat>, group: seq<nat>, c: nat, batchIndex: nat)
    requires DictionaryCovers(dictionary, indices, batchIndex) && InChunk(group, c) && c !in dictionary
    ensures DictionaryCovers(dictionary, indices + multiset(group), batchIndex)
  {
    hide Covers, InChunk;
    forall d | d in dictionary
      ensures Covers(dictionary[d].chunk, indices + multiset(group), d * CHUNK_SIZE, CHUNK_SIZE)
    {
      CoversOtherGroup(dictionary[d].chunk, indices, group, c, d * CHUNK_SIZE, CHUNK_SIZE);
    }
  }

  /** One group of inactive indices goes into its chunk. */
  function InsertIntoDictionary(dictionary: ChunkDictionary, c: nat, group: seq<nat>): ChunkDictionary
    requires c in dictionary
  {
    dictionary[c := AuthChunk(dictionary[c].path, ChunkInsertAll(dictionary[c].chunk, group))]
  }

  lemma InsertIntoDictionaryCovers(dictionary: ChunkDictionary, c: nat, group: seq<nat>, indices: multiset<nat>, batchIndex: nat)
    requires c in dictionary && InChunk(group, c) && DictionaryCovers(dictionary, indices, batchIndex)
    ensures DictionaryCovers(InsertIntoDictionary(dictionary, c, group), indices + multiset(group), batchIndex)
  {
    hide Covers, InChunk, ChunkInsertAll;
    var r := InsertIntoDictionary(dictionary, c, group);
    forall d | d in r
      ensures d < batchIndex && Covers(r[d].chunk, indices + multiset(group), d * CHUNK_SIZE, CHUNK_SIZE)
    {
      if d == c {
        ChunkInsertAllCovers(dictionary[c].chunk, group, indices, c);
      } else {
        CoversOtherGroup(dictionary[d].chunk, indices, group, c, d * CHUNK_SIZE, CHUNK_SIZE);
      }
    }
  }
}
