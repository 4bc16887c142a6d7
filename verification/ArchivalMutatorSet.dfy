/** The archival mutator set: all nodes of both mountain ranges, all inactive chunks and the active window,
    updated in place by blocks and by their exact reversal. */
module ArchivalMutatorSets {
  import opened Digests
  import opened Sorting
  import opened ActiveWindows
  import opened MutatorSets
  import opened RemovalRecords
  import opened MutatorSetAccumulators
  import opened RecordUpdates
  import opened MutatorSetUpdates
  import opened MembershipProofs
  import opened AbsoluteIndexSets
  import opened ArchivalMmrs

  // ---------- chunk arithmetic ----------

  /** Chunk::combine */
  function Combine(a: Chunk, b: Chunk): Chunk {
    Sort(a + b)
  }

  lemma CombineCovers(a: Chunk, b: Chunk, i: multiset<nat>, j: multiset<nat>, base: nat, size: nat)
    requires Covers(a, i, base, size) && Covers(b, j, base, size)
    ensures Covers(Combine(a, b), i + j, base, size)
  {
    hide Sorted, Sort;
    var c: seq<nat> := Combine(a, b);
    assert multiset(c) == multiset(a) + multiset(b);
    forall r: nat ensures multiset(c)[r] == if r < size then (i + j)[base + r] else 0 {
      assert multiset(a)[r] == if r < size then i[base + r] else 0;
      assert multiset(b)[r] == if r < size then j[base + r] else 0;
    }
  }

  /** Drop the first occurrence of x. */
  function DropFirst(s: seq<nat>, x: nat): (r: seq<nat>)
    requires x in s
    ensures multiset(r) == multiset(s) - multiset{x}
    ensures Sorted(s) ==> Sorted(r)
  {
    var k := FirstPosition(s, x);
    DropAtCounts(s, k);
    if Sorted(s) then
      DropAtSorted(s, k);
      DropAt(s, k)
    else DropAt(s, k)
  }

  function FirstPosition(s: seq<nat>, x: nat): (k: nat)
    requires x in s
    ensures k < |s| && s[k] == x
  {
    if s[0] == x then 0 else 1 + FirstPosition(s[1..], x)
  }

  /** Chunk::subtract. Every subtracted index must be present. */
  function Subtract(a: Chunk, b: Chunk): (r: Chunk)
    requires multiset(b) <= multiset(a)
    ensures multiset(r) == multiset(a) - multiset(b)
    ensures Sorted(a) ==> Sorted(r)
    decreases |b|
  {
    if b == [] then a
    else
      assert b == [b[0]] + b[1..];
      assert b[0] in multiset(b);
      Subtract(DropFirst(a, b[0]), b[1..])
  }

  lemma SubtractCovers(a: Chunk, b: Chunk, i: multiset<nat>, j: multiset<nat>, base: nat, size: nat)
    requires Covers(a, i, base, size) && Covers(b, j, base, size) && j <= i
    ensures multiset(b) <= multiset(a)
    ensures Covers(Subtract(a, b), i - j, base, size)
  {
    hide Sorted, Subtract;
    forall r: nat ensures multiset(b)[r] <= multiset(a)[r] {
      assert multiset(a)[r] == if r < size then i[base + r] else 0;
      assert multiset(b)[r] == if r < size then j[base + r] else 0;
    }
    var c: seq<nat> := Subtract(a, b);
    forall r: nat ensures multiset(c)[r] == if r < size then (i - j)[base + r] else 0 {
      assert multiset(a)[r] == if r < size then i[base + r] else 0;
      assert multiset(b)[r] == if r < size then j[base + r] else 0;
    }
  }

  // ---------- difference dictionaries ----------

  /** For each inactive chunk touched, the relative indices that fall into it. */
  ghost predicate IsDifference(diff: map<nat, Chunk>, indices: seq<nat>, batchIndex: nat) {
    && diff.Keys == InactiveChunks(indices, batchIndex)
    && forall c | c in diff :: Covers(diff[c], multiset(indices), c * CHUNK_SIZE, CHUNK_SIZE)
  }

  /** The dictionary's entry for one more inactive index. */
  function InsertDifference(diff: map<nat, Chunk>, index: nat): map<nat, Chunk> {
    var c := index / CHUNK_SIZE;
    diff[c := ChunkInsert(if c in diff then diff[c] else [], index % CHUNK_SIZE)]
  }

  lemma EmptyCovers(indices: seq<nat>, c: nat)
    requires forall i | i in indices :: i / CHUNK_SIZE != c
    ensures Covers([], multiset(indices), c * CHUNK_SIZE, CHUNK_SIZE)
  {
    var base := c * CHUNK_SIZE;
    forall r: nat ensures multiset([])[r] == if r < CHUNK_SIZE then multiset(indices)[base + r] else 0 {
      CountIsMembership(indices, base + r);
      if r < CHUNK_SIZE { assert (base + r) / CHUNK_SIZE == c; }
    }
  }

  /** One more inactive index goes into the difference; an active one leaves it as it is. */
  lemma DifferenceStep(diff: map<nat, Chunk>, done: seq<nat>, index: nat, batchIndex: nat)
    requires IsDifference(diff, done, batchIndex)
    ensures index < batchIndex * CHUNK_SIZE ==> IsDifference(InsertDifference(diff, index), done + [index], batchIndex)
    ensures batchIndex * CHUNK_SIZE <= index ==> IsDifference(diff, done + [index], batchIndex)
  {
    hide Covers, ChunkInsert;
    var done': seq<nat> := done + [index];
    var here := index / CHUNK_SIZE;
    InactiveChunksOfConcat(done, [index], batchIndex);
    InactiveChunksOfOne(index, batchIndex);
    assert multiset(done') == multiset(done) + multiset{index};
    forall c | c in diff && c != here ensures Covers(diff[c], multiset(done'), c * CHUNK_SIZE, CHUNK_SIZE) {
      forall i: nat | c * CHUNK_SIZE <= i < c * CHUNK_SIZE + CHUNK_SIZE ensures multiset(done')[i] == multiset(done)[i] {
        assert i != index;
      }
      CoversElsewhere(diff[c], multiset(done), multiset(done'), c * CHUNK_SIZE, CHUNK_SIZE);
    }
    if index < batchIndex * CHUNK_SIZE {
      assert here < batchIndex;
      var chunk: seq<nat> := if here in diff then diff[here] else [];
      if here !in diff { EmptyCovers(done, here); }
      ChunkInsertCovers(chunk, index, multiset(done), here);
    } else {
      assert here >= batchIndex;
    }
  }

  lemma NoDifference(batchIndex: nat)
    ensures IsDifference(map[], [], batchIndex)
  {
  }

  /** All absolute indices of the records, in order. */
  function Concatenated(records: seq<RemovalRecord>): (r: seq<nat>)
    ensures multiset(r) == IndicesOf(records)
  {
    if records == [] then []
    else Concatenated(records[..|records| - 1]) + records[|records| - 1].absoluteIndices
  }

  lemma {:induction false} ConcatenatedMembers(records: seq<RemovalRecord>, i: nat)
    ensures i in Concatenated(records) <==> exists k | 0 <= k < |records| :: i in records[k].absoluteIndices
    decreases |records|
  {
    if records != [] { ConcatenatedMembers(records[..|records| - 1], i); }
  }

  // ---------- the archival mutator set ----------

  /** A lookup of an index answers membership, whatever is stored, exactly when the window position fits
      32 bits or the truncated position lies outside the window. */
  lemma LookupIsMembershipIff(windowStart: nat, index: nat)
    ensures (forall indices: multiset<nat> | NoneBeyond(indices, windowStart + WINDOW_SIZE) ::
               TruncatedIndex(index, windowStart) in indices <==> index in indices) <==>
            index < windowStart + TWO_TO_THE_32 || (index - windowStart) % TWO_TO_THE_32 >= WINDOW_SIZE
  {
    var truncated: nat := TruncatedIndex(index, windowStart);
    if index >= windowStart + TWO_TO_THE_32 && (index - windowStart) % TWO_TO_THE_32 < WINDOW_SIZE {
      var one: multiset<nat> := multiset{truncated};
      assert NoneBeyond(one, windowStart + WINDOW_SIZE);
      assert truncated in one && index !in one;
    } else if index < windowStart + TWO_TO_THE_32 {
      assert truncated == index;
    } else {
      forall indices: multiset<nat> | NoneBeyond(indices, windowStart + WINDOW_SIZE) ensures truncated !in indices && index !in indices {
        assert indices[truncated] == 0 && indices[index] == 0;
      }
    }
  }

  class ArchivalMutatorSet {
    const aocl: ArchivalMmr
    const swbfInactive: ArchivalMmr
    const swbfActive: ActiveWindow
    var chunks: seq<Chunk>
    ghost var indices: multiset<nat>

    ghost function Value(): MutatorSet
      reads this, aocl, swbfActive
    {
      MutatorSet(aocl.leafs, chunks, swbfActive.sbf)
    }

    ghost predicate Valid()
      reads this, aocl, swbfInactive, swbfActive
    {
      && aocl != swbfInactive && aocl.Valid() && swbfInactive.Valid()
      && swbfInactive.leafs == DigestsOf(chunks)
      && Stores(Value(), indices)
    }

    constructor ()
      ensures Valid() && fresh(aocl) && fresh(swbfInactive) && fresh(swbfActive)
      ensures aocl.leafs == [] && indices == multiset{}
    {
      aocl := new ArchivalMmr([], []);
      swbfInactive := new ArchivalMmr([], []);
      swbfActive := new ActiveWindow([]);
      chunks, indices := [], multiset{};
    }

    /** The number of times the window has slid. */
    method GetBatchIndex() returns (batchIndex: nat)
      requires Valid()
      ensures batchIndex == BatchIndex(|aocl.leafs|) == |chunks|
    {
      var n := aocl.NumLeafs();
      batchIndex := BatchIndex(n);
    }

    /** Append a commitment. The stored indices do not change, even when the window slides. */
    method Add(commitment: Digest)
      requires Valid()
      modifies this, aocl, swbfInactive, swbfActive
      ensures Valid() && indices == old(indices)
      ensures aocl.leafs == old(aocl.leafs) + [commitment]
      ensures chunks == ChunksAfterAddition(old(Value()))
    {
      ghost var was := Value();
      var itemIndex := aocl.NumLeafs();
      var _ := aocl.Append(commitment);
      SlideStartsBatch(itemIndex);
      if WindowSlides(itemIndex) {
        var newChunk := swbfActive.SlidChunk();
        var newChunkIndex := swbfInactive.NumLeafs();
        var _ := swbfInactive.Append(HashNats(newChunk));
        CoversMeansValid(swbfActive, indices, was.WindowStart());
        swbfActive.SlideWindow();
        assert newChunkIndex == |chunks|;
        SlideStores(was, indices, swbfActive.sbf, commitment);
        assert DigestsOf(was.chunks) + [HashNats(newChunk)] == DigestsOf(was.chunks + [newChunk]);
        chunks := chunks + [newChunk];
      }
    }

    /** The latest commitment is the given one. */
    method AddIsReversible(commitment: Digest) returns (reversible: bool)
      requires Valid() && aocl.leafs != []
      ensures reversible <==> aocl.leafs[|aocl.leafs| - 1] == commitment
    {
      var n := aocl.NumLeafs();
      var last := aocl.GetLeaf(n - 1);
      reversible := commitment == last;
    }

    /** Undo the latest addition. No stored index may lie beyond the window of before. */
    method RevertAdd(commitment: Digest)
      requires Valid() && aocl.leafs != [] && aocl.leafs[|aocl.leafs| - 1] == commitment
      requires NoneBeyond(indices, BatchIndex(|aocl.leafs| - 1) * CHUNK_SIZE + WINDOW_SIZE)
      modifies this, aocl, swbfInactive, swbfActive
      ensures Valid() && indices == old(indices)
      ensures aocl.leafs == old(aocl.leafs)[..|old(aocl.leafs)| - 1]
    {
      hide Covers, SlidBack, Stores;
      ghost var was := Value();
      StoresParts(was, indices);
      var numLeafs := aocl.NumLeafs();
      var removedAddIndex := numLeafs - 1;
      SlideStartsBatch(removedAddIndex);
      var digest := aocl.RemoveLastLeaf();
      assert commitment == digest.value;
      if WindowSlides(removedAddIndex) {
        var _ := swbfInactive.RemoveLastLeaf();
        var lastInactiveChunk := chunks[|chunks| - 1];
        chunks := chunks[..|chunks| - 1];
        assert DigestsOf(was.chunks)[..|was.chunks| - 1] == DigestsOf(chunks);
        SlideBackAllowed(was, indices);
        CoversMeansValid(swbfActive, indices, was.WindowStart());
        swbfActive.SlideWindowBack(lastInactiveChunk);
        SlideBackStores(was, indices, swbfActive.sbf);
      } else {
        NoSlideBackStores(was, indices);
      }
    }

    /** Apply one record, taking the chunks from the record. */
    method Remove(rr: RemovalRecord)
      requires Valid() && Synced(rr, Value())
      modifies this, swbfInactive, swbfActive
      ensures Valid() && aocl.leafs == old(aocl.leafs)
      ensures indices == old(indices) + multiset(rr.absoluteIndices)
    {
      ghost var was := Value();
      SyncedCovers(rr, was, indices);
      var batchIndex := GetBatchIndex();
      var updated := InsertIndices(swbfActive, rr.targetChunks, rr.absoluteIndices, batchIndex, indices);
      OverlayStores(was, indices, rr.absoluteIndices, updated, swbfActive.sbf);
      indices := indices + multiset(rr.absoluteIndices);
      WriteChunks(map c | c in updated :: updated[c].chunk);
      assert chunks == Overlay(was.chunks, updated);
    }

    /** Apply many records at once. */
    method BatchRemove(records: seq<RemovalRecord>)
      requires Valid() && AllSynced(records, Value())
      modifies this, swbfInactive, swbfActive
      ensures Valid() && aocl.leafs == old(aocl.leafs)
      ensures indices == old(indices) + IndicesOf(records)
    {
      hide Covers, IsDifference, Stores, AllSynced, NoFutureIndex, DigestsOf, Combine, IndicesOf, ChunksWith, Mentioned;
      ghost var was := Value();
      StoresParts(was, indices);
      NoFutureInAny(records, was);
      var batchIndex := GetBatchIndex();
      var all := Concatenated(records);
      var diff := SplitAndInsert(swbfActive, all, batchIndex, indices);
      var newChunks := CollectChunks(records, was);
      DifferenceKeys(records, diff, newChunks, was);
      newChunks := map c | c in newChunks :: Combine(newChunks[c], diff[c]);
      CombinedStores(was, indices, all, diff, newChunks, swbfActive.sbf);
      WriteChunks(newChunks);
      indices := indices + IndicesOf(records);
    }

    /** Undo a record: take its indices out of the window and out of the chunks. They must all be set. */
    method RevertRemove(rr: RemovalRecord)
      requires Valid() && multiset(rr.absoluteIndices) <= indices
      modifies this, swbfInactive, swbfActive
      ensures Valid() && aocl.leafs == old(aocl.leafs)
      ensures indices == old(indices) - multiset(rr.absoluteIndices)
    {
      hide Covers, IsDifference, Stores, DigestsOf, Subtract, ChunksWith;
      ghost var was := Value();
      StoresParts(was, indices);
      var batchIndex := GetBatchIndex();
      var diff := SplitAndRemove(swbfActive, rr.absoluteIndices, batchIndex, indices);
      SubtractionDefined(was, indices, rr.absoluteIndices, diff);
      var newChunks := map c | c in diff :: Subtract(chunks[c], diff[c]);
      SubtractedStores(was, indices, rr.absoluteIndices, diff, newChunks, swbfActive.sbf);
      WriteChunks(newChunks);
      indices := indices - multiset(rr.absoluteIndices);
    }

    /** Whether an index is set in the Bloom filter. The position in the window is truncated to 32 bits. */
    method BloomFilterContains(index: nat) returns (found: bool)
      requires Valid()
      ensures found <==> TruncatedIndex(index, Value().WindowStart()) in indices
    {
      var batchIndex := GetBatchIndex();
      var activeWindowStart := batchIndex * CHUNK_SIZE;
      IndexLookup(Value(), indices, TruncatedIndex(index, activeWindowStart));
      if index >= activeWindowStart {
        var relativeIndex: nat := (index - activeWindowStart) % TWO_TO_THE_32;
        if relativeIndex >= WINDOW_SIZE { return false; }
        CountIsMembership(swbfActive.sbf, relativeIndex);
        found := swbfActive.Contains(relativeIndex);
      } else {
        var relevantChunk := chunks[index / CHUNK_SIZE];
        CountIsMembership(relevantChunk, index % CHUNK_SIZE);
        found := index % CHUNK_SIZE in relevantChunk;
      }
    }

    /** Whether all indices of a set are set in the Bloom filter. */
    method AbsoluteIndexSetWasApplied(absoluteIndices: seq<nat>) returns (applied: bool)
      requires Valid()
      ensures applied <==> forall i | i in absoluteIndices :: TruncatedIndex(i, Value().WindowStart()) in indices
    {
      for k := 0 to |absoluteIndices|
        invariant forall j | 0 <= j < k :: TruncatedIndex(absoluteIndices[j], Value().WindowStart()) in indices
      {
        var found := BloomFilterContains(absoluteIndices[k]);
        if !found {
          assert absoluteIndices[k] in absoluteIndices;
          return false;
        }
      }
      applied := true;
    }

    /** The accumulator that commits to this mutator set. */
    method Accumulator() returns (acc: MutatorSetAccumulator)
      requires Valid()
      ensures fresh(acc) && fresh(acc.swbfActive) && acc.Valid() && acc.value == Value() && acc.indices == indices
    {
      var aoclPeaks := aocl.PeakDigests();
      var aoclLeafs := aocl.NumLeafs();
      var swbfPeaks := swbfInactive.PeakDigests();
      var swbfLeafs := swbfInactive.NumLeafs();
      acc := new MutatorSetAccumulator.From(Mmra(aoclPeaks, aoclLeafs), Mmra(swbfPeaks, swbfLeafs), swbfActive.sbf, Value(), indices);
    }

    /** Back to the brand new state. */
    method Clear()
      requires Valid()
      modifies this, aocl, swbfInactive, swbfActive
      ensures Valid() && aocl.leafs == [] && indices == multiset{}
    {
      aocl.PruneToNumLeafs(0);
      swbfInactive.PruneToNumLeafs(0);
      swbfActive.sbf := [];
      chunks, indices := [], multiset{};
    }

    /** Write chunks and the digests of their leafs. */
    method WriteChunks(newChunks: map<nat, Chunk>)
      requires aocl != swbfInactive && swbfInactive.Valid() && swbfInactive.leafs == DigestsOf(chunks)
      requires forall c | c in newChunks :: c < |chunks|
      modifies this`chunks, swbfInactive
      ensures swbfInactive.Valid() && swbfInactive.leafs == DigestsOf(chunks)
      ensures chunks == ChunksWith(old(chunks), newChunks)
    {
      var todo := newChunks.Keys;
      while todo != {}
        invariant swbfInactive.Valid() && swbfInactive.leafs == DigestsOf(chunks) && |chunks| == |old(chunks)|
        invariant todo <= newChunks.Keys
        invariant forall c | 0 <= c < |chunks| ::
                    chunks[c] == if c in newChunks && c !in todo then newChunks[c] else old(chunks)[c]
      {
        var c :| c in todo;
        swbfInactive.MutateLeaf(c, HashNats(newChunks[c]));
        assert DigestsOf(chunks)[c := HashNats(newChunks[c])] == DigestsOf(chunks[c := newChunks[c]]);
        chunks := chunks[c := newChunks[c]];
        todo := todo - {c};
      }
    }
  }

  /** A future index that is reported as set: one item is added and removed again, and the index 2^32 after the first of
      its own reads the same bit. So it is for whatever positions are drawn for the item. */
  method FutureIndexReportedSet(commitment: Digest, relative: seq<nat>) returns (found: bool, ghost stored: multiset<nat>)
    requires |relative| == NUM_TRIALS && forall k | 0 <= k < NUM_TRIALS :: relative[k] < WINDOW_SIZE
    ensures found && stored == multiset(relative) && relative[0] + TWO_TO_THE_32 !in stored
  {
    hide Stores, Synced, Compute, ChunksAfterAddition;
    var ms := new ArchivalMutatorSet();
    ms.Add(commitment);
    var indices: seq<nat> := Compute(relative, 0).ToArray();
    assert indices == relative;
    StoresParts(ms.Value(), ms.indices);
    FirstRecordSynced(indices, ms.Value());
    ms.Remove(RemovalRecord(indices, map[]));
    stored := ms.indices;
    StoresParts(ms.Value(), stored);
    FirstIsStored(relative);
    found := ms.BloomFilterContains(relative[0] + TWO_TO_THE_32);
  }

  /** Before the window slides, a record needs no chunks. */
  lemma FirstRecordSynced(indices: seq<nat>, ms: MutatorSet)
    requires ms.chunks == [] && DrawnFor(indices, 0)
    ensures Synced(RemovalRecord(indices, map[]), ms)
  {
  }

  lemma FirstIsStored(relative: seq<nat>)
    requires relative != [] && forall k | 0 <= k < |relative| :: relative[k] < WINDOW_SIZE
    ensures relative[0] in multiset(relative) && relative[0] + TWO_TO_THE_32 !in multiset(relative)
  {
  }

  lemma SlideBackAllowed(ms: MutatorSet, indices: multiset<nat>)
    requires Stores(ms, indices) && ms.chunks != []
    requires NoneBeyond(indices, (|ms.chunks| - 1) * CHUNK_SIZE + WINDOW_SIZE)
    ensures forall x | x in ms.window :: x < WINDOW_SIZE - CHUNK_SIZE
    ensures var chunk := ms.chunks[|ms.chunks| - 1]; forall x | x in chunk :: x < CHUNK_SIZE
  {
    var c := |ms.chunks| - 1;
    forall x | x in ms.window ensures x < WINDOW_SIZE - CHUNK_SIZE {
      CoversElements(ms.window, indices, ms.WindowStart(), WINDOW_SIZE, x);
      assert indices[ms.WindowStart() + x] > 0;
    }
    forall x | x in ms.chunks[c] ensures x < CHUNK_SIZE {
      CoversElements(ms.chunks[c], indices, c * CHUNK_SIZE, CHUNK_SIZE, x);
    }
  }

  lemma NoSlideBackStores(ms: MutatorSet, indices: multiset<nat>)
    requires Stores(ms, indices) && ms.aocl != [] && !WindowSlides(|ms.aocl| - 1)
    ensures Stores(MutatorSet(ms.aocl[..|ms.aocl| - 1], ms.chunks, ms.window), indices)
  {
    SlideStartsBatch(|ms.aocl| - 1);
  }

  lemma SlideBackStores(ms: MutatorSet, indices: multiset<nat>, window: seq<nat>)
    requires Stores(ms, indices) && ms.aocl != [] && WindowSlides(|ms.aocl| - 1)
    requires NoneBeyond(indices, BatchIndex(|ms.aocl| - 1) * CHUNK_SIZE + WINDOW_SIZE)
    requires ms.chunks != [] && Sorted(window) && SlidBack(ms.window, ms.chunks[|ms.chunks| - 1], window)
    ensures Stores(MutatorSet(ms.aocl[..|ms.aocl| - 1], ms.chunks[..|ms.chunks| - 1], window), indices)
  {
    hide Covers, Sorted, SlidBack;
    SlideStartsBatch(|ms.aocl| - 1);
    var c := |ms.chunks| - 1;
    CoversSlideBack(ms.window, ms.chunks[c], window, indices, c * CHUNK_SIZE);
  }

  /** The chunks with the given ones put in. */
  function ChunksWith(chunks: seq<Chunk>, newChunks: map<nat, Chunk>): (r: seq<Chunk>)
    ensures |r| == |chunks|
  {
    seq(|chunks|, c requires 0 <= c < |chunks| => if c in newChunks then newChunks[c] else chunks[c])
  }

  lemma StoresParts(ms: MutatorSet, indices: multiset<nat>)
    requires Stores(ms, indices)
    ensures |ms.chunks| == BatchIndex(|ms.aocl|)
    ensures Covers(ms.window, indices, |ms.chunks| * CHUNK_SIZE, WINDOW_SIZE)
    ensures NoneBeyond(indices, |ms.chunks| * CHUNK_SIZE + WINDOW_SIZE)
  {
  }

  lemma {:induction false} NoFutureInAny(records: seq<RemovalRecord>, ms: MutatorSet)
    requires AllSynced(records, ms)
    ensures NoFutureIndex(Concatenated(records), ms.WindowStart())
  {
    forall i | i in Concatenated(records) ensures i < ms.WindowStart() + WINDOW_SIZE && i / CHUNK_SIZE < LEAF_INDICES {
      ConcatenatedMembers(records, i);
    }
  }

  /** Active indices go into the window, inactive ones into a difference dictionary. */
  method SplitAndInsert(window: ActiveWindow, all: seq<nat>, batchIndex: nat, ghost before: multiset<nat>)
    returns (diff: map<nat, Chunk>)
    requires Covers(window.sbf, before, batchIndex * CHUNK_SIZE, WINDOW_SIZE)
    requires NoFutureIndex(all, batchIndex * CHUNK_SIZE)
    modifies window
    ensures Covers(window.sbf, before + multiset(all), batchIndex * CHUNK_SIZE, WINDOW_SIZE)
    ensures IsDifference(diff, all, batchIndex)
  {
    hide Covers, IsDifference, Sorted;
    var start := batchIndex * CHUNK_SIZE;
    diff := map[];
    NoDifference(batchIndex);
    assert before + multiset(all[..0]) == before && all[..0] == [];
    for k := 0 to |all|
      invariant Covers(window.sbf, before + multiset(all[..k]), start, WINDOW_SIZE)
      invariant IsDifference(diff, all[..k], batchIndex)
    {
      var index: nat := all[k];
      ghost var so: multiset<nat> := before + multiset(all[..k]);
      assert index in all;
      assert all[..k + 1] == all[..k] + [index];
      DifferenceStep(diff, all[..k], index, batchIndex);
      assert so + multiset{index} == before + multiset(all[..k + 1]);
      if index >= start {
        ghost var was := window.sbf;
        var relative: nat := index - start;
        CoversMeansValid(window, so, start);
        window.Insert(relative);
        CoversInsert(was, window.sbf, so, start, WINDOW_SIZE, relative);
      } else {
        diff := InsertDifference(diff, index);
        OutsideWindow(window.sbf, so, so + multiset{index}, start, index);
      }
    }
    assert all[..|all|] == all;
  }

  lemma OutsideWindow(window: seq<nat>, before: multiset<nat>, after: multiset<nat>, start: nat, index: nat)
    requires Covers(window, before, start, WINDOW_SIZE) && index < start
    requires forall i: nat | i != index :: after[i] == before[i]
    ensures Covers(window, after, start, WINDOW_SIZE)
  {
    hide Covers;
    CoversElsewhere(window, before, after, start, WINDOW_SIZE);
  }

  /** Active indices leave the window, inactive ones go into a difference dictionary. */
  method SplitAndRemove(window: ActiveWindow, all: seq<nat>, batchIndex: nat, ghost before: multiset<nat>)
    returns (diff: map<nat, Chunk>)
    requires Covers(window.sbf, before, batchIndex * CHUNK_SIZE, WINDOW_SIZE)
    requires NoneBeyond(before, batchIndex * CHUNK_SIZE + WINDOW_SIZE)
    requires multiset(all) <= before
    modifies window
    ensures Covers(window.sbf, before - multiset(all), batchIndex * CHUNK_SIZE, WINDOW_SIZE)
    ensures IsDifference(diff, all, batchIndex)
  {
    hide Covers, IsDifference, Sorted;
    var start := batchIndex * CHUNK_SIZE;
    diff := map[];
    NoDifference(batchIndex);
    assert before - multiset(all[..0]) == before && all[..0] == [];
    for k := 0 to |all|
      invariant Covers(window.sbf, before - multiset(all[..k]), start, WINDOW_SIZE)
      invariant IsDifference(diff, all[..k], batchIndex)
    {
      var index: nat := all[k];
      ghost var so: multiset<nat> := before - multiset(all[..k]);
      RemainingIndex(all, k, before);
      DifferenceStep(diff, all[..k], index, batchIndex);
      if index >= start {
        RemoveActive(window, index, start, so);
      } else {
        diff := InsertDifference(diff, index);
        OutsideWindow(window.sbf, so, so - multiset{index}, start, index);
      }
    }
    assert all[..|all|] == all;
  }

  /** Remove one active index. */
  method RemoveActive(window: ActiveWindow, index: nat, start: nat, ghost stored: multiset<nat>)
    requires Covers(window.sbf, stored, start, WINDOW_SIZE) && start <= index < start + WINDOW_SIZE && index in stored
    modifies window
    ensures Covers(window.sbf, stored - multiset{index}, start, WINDOW_SIZE)
  {
    hide Covers, Sorted;
    ghost var was := window.sbf;
    var relative: nat := index - start;
    CoversMeansValid(window, stored, start);
    CoversElements(window.sbf, stored, start, WINDOW_SIZE, relative);
    window.Remove(relative);
    CoversRemove(was, window.sbf, stored, start, WINDOW_SIZE, relative);
  }

  lemma RemainingIndex(all: seq<nat>, k: nat, before: multiset<nat>)
    requires k < |all| && multiset(all) <= before
    ensures all[..k + 1] == all[..k] + [all[k]]
    ensures all[k] in before - multiset(all[..k])
    ensures before - multiset(all[..k]) - multiset{all[k]} == before - multiset(all[..k + 1])
  {
    assert all[..k + 1] == all[..k] + [all[k]];
    assert all == all[..k + 1] + all[k + 1..];
    assert multiset(all[..k + 1]) == multiset(all[..k]) + multiset{all[k]};
    assert multiset(all)[all[k]] >= multiset(all[..k + 1])[all[k]];
  }

  /** Some record's dictionary has the chunk. */
  ghost predicate Mentioned(records: seq<RemovalRecord>, c: nat) {
    exists k | 0 <= k < |records| :: c in records[k].targetChunks
  }

  lemma MentionedSnoc(records: seq<RemovalRecord>, k: nat, c: nat)
    requires k < |records|
    ensures Mentioned(records[..k + 1], c) <==> Mentioned(records[..k], c) || c in records[k].targetChunks
  {
    var more := records[..k + 1];
    if Mentioned(records[..k], c) {
      var j :| 0 <= j < k && c in records[..k][j].targetChunks;
      assert c in more[j].targetChunks;
    }
    if c in records[k].targetChunks { assert c in more[k].targetChunks; }
    if Mentioned(more, c) {
      var j :| 0 <= j < k + 1 && c in more[j].targetChunks;
      if j < k { assert c in records[..k][j].targetChunks; }
    }
  }

  /** The chunks of all records' dictionaries. Records in step agree on them. */
  method CollectChunks(records: seq<RemovalRecord>, ghost ms: MutatorSet) returns (found: map<nat, Chunk>)
    requires AllSynced(records, ms)
    ensures forall c: nat :: c in found <==> Mentioned(records, c)
    ensures forall c | c in found :: c < |ms.chunks| && found[c] == ms.chunks[c]
  {
    hide Mentioned, AllSynced;
    found := map[];
    NothingMentioned(records);
    for k := 0 to |records|
      invariant forall c: nat :: c in found <==> Mentioned(records[..k], c)
      invariant forall c | c in found :: c < |ms.chunks| && found[c] == ms.chunks[c]
    {
      var rr := records[k];
      EntriesCurrent(records, k, ms);
      forall c: nat ensures Mentioned(records[..k + 1], c) <==> Mentioned(records[..k], c) || c in rr.targetChunks {
        MentionedSnoc(records, k, c);
      }
      found := found + map c | c in rr.targetChunks :: rr.targetChunks[c].chunk;
    }
    assert records[..|records|] == records;
  }

  lemma NothingMentioned(records: seq<RemovalRecord>)
    ensures forall c: nat :: !Mentioned(records[..0], c)
  {
  }

  lemma EntriesCurrent(records: seq<RemovalRecord>, k: nat, ms: MutatorSet)
    requires AllSynced(records, ms) && k < |records|
    ensures forall c | c in records[k].targetChunks :: c < |ms.chunks| && records[k].targetChunks[c].chunk == ms.chunks[c]
  {
    assert Synced(records[k], ms);
  }

  /** The chunks found in the dictionaries are exactly those the indices touch. */
  lemma DifferenceKeys(records: seq<RemovalRecord>, diff: map<nat, Chunk>, found: map<nat, Chunk>, ms: MutatorSet)
    requires AllSynced(records, ms) && IsDifference(diff, Concatenated(records), |ms.chunks|)
    requires forall c: nat :: c in found <==> Mentioned(records, c)
    ensures found.Keys == diff.Keys
  {
    hide Covers, Synced, Concatenated;
    var all := Concatenated(records);
    forall c | c in diff ensures c in found {
      var i: nat :| i in all && i / CHUNK_SIZE < |ms.chunks| && i / CHUNK_SIZE == c;
      ConcatenatedMembers(records, i);
      var k :| 0 <= k < |records| && i in records[k].absoluteIndices;
      KeyOfIndex(records[k], ms, i);
    }
    forall c | c in found ensures c in diff {
      var k :| 0 <= k < |records| && c in records[k].targetChunks;
      var i := IndexOfKey(records[k], ms, c);
      ConcatenatedMembers(records, i);
    }
  }

  lemma KeyOfIndex(rr: RemovalRecord, ms: MutatorSet, i: nat)
    requires Synced(rr, ms) && i in rr.absoluteIndices && i / CHUNK_SIZE < |ms.chunks|
    ensures i / CHUNK_SIZE in rr.targetChunks
  {
  }

  lemma IndexOfKey(rr: RemovalRecord, ms: MutatorSet, c: nat) returns (i: nat)
    requires Synced(rr, ms) && c in rr.targetChunks
    ensures i in rr.absoluteIndices && i / CHUNK_SIZE < |ms.chunks| && i / CHUNK_SIZE == c
  {
    i :| i in rr.absoluteIndices && i / CHUNK_SIZE < |ms.chunks| && i / CHUNK_SIZE == c;
  }

  /** Chunks not touched keep covering their range. */
  lemma UntouchedChunk(chunk: Chunk, before: multiset<nat>, after: multiset<nat>, changed: seq<nat>, c: nat, batchIndex: nat)
    requires Covers(chunk, before, c * CHUNK_SIZE, CHUNK_SIZE)
    requires c < batchIndex && c !in InactiveChunks(changed, batchIndex)
    requires forall i: nat | i !in changed :: after[i] == before[i]
    ensures Covers(chunk, after, c * CHUNK_SIZE, CHUNK_SIZE)
  {
    hide Covers;
    forall i: nat | c * CHUNK_SIZE <= i < c * CHUNK_SIZE + CHUNK_SIZE ensures after[i] == before[i] {
      assert i / CHUNK_SIZE == c;
    }
    CoversElsewhere(chunk, before, after, c * CHUNK_SIZE, CHUNK_SIZE);
  }

  lemma CombinedStores(ms: MutatorSet, before: multiset<nat>, all: seq<nat>, diff: map<nat, Chunk>, newChunks: map<nat, Chunk>, window: seq<nat>)
    requires Stores(ms, before) && IsDifference(diff, all, |ms.chunks|) && NoFutureIndex(all, ms.WindowStart())
    requires newChunks.Keys == diff.Keys
    requires forall c | c in newChunks :: c < |ms.chunks| && newChunks[c] == Combine(ms.chunks[c], diff[c])
    requires Covers(window, before + multiset(all), |ms.chunks| * CHUNK_SIZE, WINDOW_SIZE)
    ensures Stores(MutatorSet(ms.aocl, ChunksWith(ms.chunks, newChunks), window), before + multiset(all))
  {
    hide Covers, Combine;
    var after: multiset<nat> := before + multiset(all);
    var chunks := ChunksWith(ms.chunks, newChunks);
    forall i: nat | i !in all ensures after[i] == before[i] { CountIsMembership(all, i); }
    forall c | 0 <= c < |chunks| ensures Covers(chunks[c], after, c * CHUNK_SIZE, CHUNK_SIZE) {
      if c in newChunks {
        CombineCovers(ms.chunks[c], diff[c], before, multiset(all), c * CHUNK_SIZE, CHUNK_SIZE);
      } else {
        UntouchedChunk(ms.chunks[c], before, after, all, c, |ms.chunks|);
      }
    }
  }

  lemma SubtractionDefined(ms: MutatorSet, before: multiset<nat>, all: seq<nat>, diff: map<nat, Chunk>)
    requires Stores(ms, before) && IsDifference(diff, all, |ms.chunks|) && multiset(all) <= before
    ensures forall c | c in diff :: c < |ms.chunks| && multiset(diff[c]) <= multiset(ms.chunks[c])
  {
    hide Covers;
    forall c | c in diff ensures c < |ms.chunks| && multiset(diff[c]) <= multiset(ms.chunks[c]) {
      SubtractCovers(ms.chunks[c], diff[c], before, multiset(all), c * CHUNK_SIZE, CHUNK_SIZE);
    }
  }

  lemma SubtractedStores(ms: MutatorSet, before: multiset<nat>, all: seq<nat>, diff: map<nat, Chunk>, newChunks: map<nat, Chunk>, window: seq<nat>)
    requires Stores(ms, before) && IsDifference(diff, all, |ms.chunks|) && multiset(all) <= before
    requires newChunks.Keys == diff.Keys
    requires forall c | c in newChunks :: c < |ms.chunks| && multiset(diff[c]) <= multiset(ms.chunks[c])
               && newChunks[c] == Subtract(ms.chunks[c], diff[c])
    requires Covers(window, before - multiset(all), |ms.chunks| * CHUNK_SIZE, WINDOW_SIZE)
    ensures Stores(MutatorSet(ms.aocl, ChunksWith(ms.chunks, newChunks), window), before - multiset(all))
  {
    hide Covers, Subtract;
    var after: multiset<nat> := before - multiset(all);
    var chunks := ChunksWith(ms.chunks, newChunks);
    forall i: nat | i !in all ensures after[i] == before[i] { CountIsMembership(all, i); }
    forall c | 0 <= c < |chunks| ensures Covers(chunks[c], after, c * CHUNK_SIZE, CHUNK_SIZE) {
      if c in newChunks {
        SubtractCovers(ms.chunks[c], diff[c], before, multiset(all), c * CHUNK_SIZE, CHUNK_SIZE);
      } else {
        UntouchedChunk(ms.chunks[c], before, after, all, c, |ms.chunks|);
      }
    }
  }
}
