/** The mutator set accumulator: peaks and leaf counts of both mountain ranges, and the active window. */
module MutatorSetAccumulators {
  import opened Digests
  import opened MountainRange
  import opened PostOrder
  import opened Sorting
  import opened ActiveWindows
  import opened MutatorSets
  import opened RemovalRecords

  /** MmrAccumulator */
  datatype Mmra = Mmra(peaks: seq<Digest>, numLeafs: nat) {
    function Append(leaf: Digest): Mmra {
      Mmra(AppendPeaks(peaks, numLeafs, leaf), numLeafs + 1)
    }

    function BatchMutate(mutations: seq<LeafMutation>): Mmra {
      Mmra(BatchPeaks(peaks, numLeafs, mutations), numLeafs)
    }

    /** MmrAccumulator::bag_peaks commits to the leaf count and the peaks. */
    function Bag(): Digest {
      HashPair(Raw(numLeafs), HashDigests(peaks))
    }
  }

  function MmraOf(leafs: seq<Digest>): Mmra {
    Mmra(Peaks(leafs), |leafs|)
  }

  lemma MmraAppends(leafs: seq<Digest>, leaf: Digest)
    ensures MmraOf(leafs).Append(leaf) == MmraOf(leafs + [leaf])
  {
    AppendCorrect(leafs, leaf);
  }

  // ---------- mutating the leafs that a dictionary names ----------

  /** The mutations that set every leaf in the dictionary to its chunk's digest. */
  ghost predicate MutationsFor(ms: seq<LeafMutation>, dictionary: ChunkDictionary) {
    && (forall k | 0 <= k < |ms| :: ms[k].index in dictionary &&
          ms[k] == LeafMutation(ms[k].index, dictionary[ms[k].index].path, HashNats(dictionary[ms[k].index].chunk)))
    && (forall j, k | 0 <= j < k < |ms| :: ms[j].index != ms[k].index)
    && (forall c | c in dictionary :: Mutates(ms, c))
  }

  ghost predicate Mutates(ms: seq<LeafMutation>, c: nat) {
    exists k | 0 <= k < |ms| :: ms[k].index == c
  }

  /** ChunkDictionary::chunk_indices_and_membership_proofs_and_leafs */
  method MutationsOf(dictionary: ChunkDictionary) returns (ms: seq<LeafMutation>)
    ensures MutationsFor(ms, dictionary)
  {
    ms := [];
    var todo := dictionary.Keys;
    while todo != {}
      invariant todo <= dictionary.Keys
      invariant forall k | 0 <= k < |ms| :: ms[k].index in dictionary && ms[k].index !in todo &&
                  ms[k] == LeafMutation(ms[k].index, dictionary[ms[k].index].path, HashNats(dictionary[ms[k].index].chunk))
      invariant forall j, k | 0 <= j < k < |ms| :: ms[j].index != ms[k].index
      invariant forall c | c in dictionary && c !in todo :: Mutates(ms, c)
    {
      var c :| c in todo;
      ghost var was := ms;
      ms := ms + [LeafMutation(c, dictionary[c].path, HashNats(dictionary[c].chunk))];
      assert ms[|was|].index == c;
      forall d | d in dictionary && d !in todo ensures Mutates(ms, d) {
        assert Mutates(was, d);
        var k :| 0 <= k < |was| && was[k].index == d;
        assert ms[k].index == d;
      }
      todo := todo - {c};
    }
  }

  /** Distinct mutations leave each named leaf at its new value and all others alone. */
  lemma {:induction false} MutateLeafsPointwise(leafs: seq<Digest>, ms: seq<LeafMutation>, result: seq<Digest>)
    requires |result| == |leafs|
    requires forall k | 0 <= k < |ms| :: ms[k].index < |leafs| && result[ms[k].index] == ms[k].newLeaf
    requires forall j, k | 0 <= j < k < |ms| :: ms[j].index != ms[k].index
    requires forall i | 0 <= i < |leafs| :: result[i] == leafs[i] || Mutates(ms, i)
    ensures MutateLeafs(leafs, ms) == result
    decreases |ms|
  {
    if ms == [] {
      assert result == leafs;
    } else {
      var leafs' := leafs[ms[0].index := ms[0].newLeaf];
      forall i | 0 <= i < |leafs|
        ensures result[i] == leafs'[i] || Mutates(ms[1..], i)
      {
        if result[i] != leafs'[i] {
          var k :| 0 <= k < |ms| && ms[k].index == i;
          assert ms[1..][k - 1].index == i;
        }
      }
      MutateLeafsPointwise(leafs', ms[1..], result);
    }
  }

  /** The chunks with those of the dictionary put in. */
  function Overlay(chunks: seq<Chunk>, dictionary: ChunkDictionary): (r: seq<Chunk>)
    ensures |r| == |chunks|
  {
    seq(|chunks|, c requires 0 <= c < |chunks| => if c in dictionary then dictionary[c].chunk else chunks[c])
  }

  /** A dictionary with current paths updates the peaks to those of the new chunks. */
  lemma OverlayPeaks(chunks: seq<Chunk>, dictionary: ChunkDictionary, ms: seq<LeafMutation>)
    requires MutationsFor(ms, dictionary)
    requires forall c | c in dictionary :: c < |chunks| && dictionary[c].path == Path(DigestsOf(chunks), c)
    ensures Authentic(DigestsOf(chunks), ms)
    ensures MutateLeafs(DigestsOf(chunks), ms) == DigestsOf(Overlay(chunks, dictionary))
    ensures MmraOf(DigestsOf(chunks)).BatchMutate(ms) == MmraOf(DigestsOf(Overlay(chunks, dictionary)))
  {
    var leafs, result := DigestsOf(chunks), DigestsOf(Overlay(chunks, dictionary));
    MutateLeafsPointwise(leafs, ms, result);
    BatchMutationCorrect(leafs, ms, 0);
  }

  /** Overlaying the chunks that a record's indices went into stores those indices. */
  lemma OverlayStores(ms: MutatorSet, before: multiset<nat>, added: seq<nat>, dictionary: ChunkDictionary, window: seq<nat>)
    requires Stores(ms, before)
    requires dictionary.Keys == InactiveChunks(added, |ms.chunks|)
    requires NoFutureIndex(added, ms.WindowStart())
    requires DictionaryCovers(dictionary, before + multiset(added), |ms.chunks|)
    requires Covers(window, before + multiset(added), ms.WindowStart(), WINDOW_SIZE)
    ensures Stores(MutatorSet(ms.aocl, Overlay(ms.chunks, dictionary), window), before + multiset(added))
  {
    hide Covers;
    var after: multiset<nat> := before + multiset(added);
    var chunks := Overlay(ms.chunks, dictionary);
    forall c | 0 <= c < |chunks| ensures Covers(chunks[c], after, c * CHUNK_SIZE, CHUNK_SIZE) {
      if c !in dictionary {
        forall i: nat | c * CHUNK_SIZE <= i < c * CHUNK_SIZE + CHUNK_SIZE ensures after[i] == before[i] {
          CountIsMembership(added, i);
          assert i / CHUNK_SIZE == c;
        }
        CoversElsewhere(ms.chunks[c], before, after, c * CHUNK_SIZE, CHUNK_SIZE);
      }
    }
    forall i: nat | ms.WindowStart() + WINDOW_SIZE <= i ensures after[i] == 0 {
      CountIsMembership(added, i);
    }
  }

  // ---------- the accumulator ----------

  datatype RemovalRecordValidity =
    | Valid
    | AbsentAuthenticatedChunk
    | InvalidSwbfiMmrMp(chunkIndex: nat)

  /** AbsoluteIndexSet::split_by_activity, which fails on a future index; here only the inactive part is used. */
  predicate SplitsByActivity(indices: seq<nat>, batchIndex: nat) {
    forall i | i in indices :: ChunkOf(i) <= batchIndex + WINDOW_SIZE / CHUNK_SIZE - 1
  }

  /** The inactive chunks that a list of indices is taken to touch. */
  function RequiredChunks(indices: seq<nat>, batchIndex: nat): set<nat> {
    set i | i in indices && ChunkOf(i) < batchIndex :: ChunkOf(i)
  }

  lemma RequiredIsInactive(indices: seq<nat>, batchIndex: nat)
    requires Fits(indices)
    ensures RequiredChunks(indices, batchIndex) == InactiveChunks(indices, batchIndex)
  {
    hide ChunkOf;
    forall i | i in indices ensures ChunkOf(i) == i / CHUNK_SIZE { ChunkOfFitting(indices, i); }
  }

  lemma SplitsIffNoFuture(indices: seq<nat>, batchIndex: nat)
    requires Fits(indices)
    ensures SplitsByActivity(indices, batchIndex) <==> NoFutureIndex(indices, batchIndex * CHUNK_SIZE)
  {
    hide ChunkOf;
    forall i | i in indices ensures ChunkOf(i) == i / CHUNK_SIZE { ChunkOfFitting(indices, i); }
  }

  ghost predicate HasRequiredChunks(rr: RemovalRecord, batchIndex: nat) {
    SplitsByActivity(rr.absoluteIndices, batchIndex) && rr.targetChunks.Keys == RequiredChunks(rr.absoluteIndices, batchIndex)
  }

  /** What validation checks, with truncated chunk indices. */
  ghost predicate PassesValidation(rr: RemovalRecord, ms: MutatorSet) {
    && HasRequiredChunks(rr, |ms.chunks|)
    && forall c | c in rr.targetChunks :: c < |ms.chunks| &&
         rr.targetChunks[c] == AuthChunk(Path(ms.ChunkDigests(), c), ms.chunks[c])
  }

  const TWO_TO_THE_32: nat := 0x1_0000_0000

  /** The index whose bit a lookup really reads: `as u32` drops the high bits of the window position. */
  function TruncatedIndex(index: nat, windowStart: nat): nat {
    if index < windowStart then index else windowStart + (index - windowStart) % TWO_TO_THE_32
  }

  /** The window position that is looked up exists. */
  predicate LookupDefined(index: nat, windowStart: nat) {
    TruncatedIndex(index, windowStart) < windowStart + WINDOW_SIZE
  }

  ghost predicate LookupFinds(index: nat, windowStart: nat, indices: multiset<nat>) {
    LookupDefined(index, windowStart) && TruncatedIndex(index, windowStart) in indices
  }

  /** The first lookup that does not find its bit set is one that is defined, or one that is not. */
  ghost predicate SomeLookup(absoluteIndices: seq<nat>, windowStart: nat, indices: multiset<nat>, defined: bool) {
    exists k | 0 <= k < |absoluteIndices| ::
      && !LookupFinds(absoluteIndices[k], windowStart, indices) && LookupDefined(absoluteIndices[k], windowStart) == defined
      && forall j | 0 <= j < k :: LookupFinds(absoluteIndices[j], windowStart, indices)
  }

  lemma RequiredIsThere(rr: RemovalRecord, ms: MutatorSet, index: nat)
    requires PassesValidation(rr, ms) && index in rr.absoluteIndices && index < |ms.chunks| * CHUNK_SIZE
    ensures ChunkOf(index) in rr.targetChunks
  {
    assert ChunkOf(index) <= index / CHUNK_SIZE < |ms.chunks|;
  }

  /** What a lookup reads. Below the window it is the chunk from the dictionary, unless the chunk index is truncated. */
  lemma LookedUp(rr: RemovalRecord, index: nat, ms: MutatorSet, indices: multiset<nat>)
    requires Stores(ms, indices) && PassesValidation(rr, ms) && index in rr.absoluteIndices
    ensures index < ms.WindowStart() && (Fits(rr.absoluteIndices) || |ms.aocl| < LEAF_INDICES) ==>
              && LookupDefined(index, ms.WindowStart()) && ChunkOf(index) in rr.targetChunks
              && (LookupFinds(index, ms.WindowStart(), indices) <==> index % CHUNK_SIZE in rr.targetChunks[ChunkOf(index)].chunk)
    ensures index >= ms.WindowStart() ==>
              var relative: nat := (index - ms.WindowStart()) % TWO_TO_THE_32;
              && (LookupDefined(index, ms.WindowStart()) <==> relative < WINDOW_SIZE)
              && (relative < WINDOW_SIZE ==> (LookupFinds(index, ms.WindowStart(), indices) <==> relative in ms.window))
  {
    hide Stores, Path, Covers;
    ChunkCount(ms, indices);
    if index < ms.WindowStart() {
      RequiredIsThere(rr, ms, index);
      IndexLookup(ms, indices, index);
      CountIsMembership(ms.chunks[index / CHUNK_SIZE], index % CHUNK_SIZE);
    } else {
      var relative: nat := (index - ms.WindowStart()) % TWO_TO_THE_32;
      IndexLookup(ms, indices, ms.WindowStart() + relative);
      CountIsMembership(ms.window, relative);
    }
  }

  /** Lookups of a record in step read its own bits. */
  lemma FittingLookups(rr: RemovalRecord, ms: MutatorSet, indices: multiset<nat>)
    requires Synced(rr, ms)
    ensures forall k | 0 <= k < |rr.absoluteIndices| :: LookupDefined(rr.absoluteIndices[k], ms.WindowStart())
    ensures SpendsSomething(rr.absoluteIndices, indices) <==>
            exists k | 0 <= k < |rr.absoluteIndices| :: !LookupFinds(rr.absoluteIndices[k], ms.WindowStart(), indices)
  {
    hide DictionarySynced;
    var a := rr.absoluteIndices;
    forall k | 0 <= k < |a|
      ensures LookupDefined(a[k], ms.WindowStart()) && (LookupFinds(a[k], ms.WindowStart(), indices) <==> indices[a[k]] > 0)
    {
      assert a[k] in a;
    }
  }

  class MutatorSetAccumulator {
    var aocl: Mmra
    var swbfInactive: Mmra
    const swbfActive: ActiveWindow

    ghost var value: MutatorSet          // what the accumulator commits to
    ghost var indices: multiset<nat>     // the indices stored there

    ghost predicate Valid()
      reads this, swbfActive
    {
      && aocl == MmraOf(value.aocl)
      && swbfInactive == MmraOf(value.ChunkDigests())
      && swbfActive.sbf == value.window
      && Stores(value, indices)
    }

    constructor ()
      ensures Valid() && fresh(swbfActive)
      ensures value == MutatorSet([], [], []) && indices == multiset{}
    {
      aocl, swbfInactive := MmraOf([]), MmraOf([]);
      swbfActive := new ActiveWindow([]);
      value, indices := MutatorSet([], [], []), multiset{};
    }

    /** An accumulator made of given peaks, counts and window. */
    constructor From(aocl: Mmra, swbfInactive: Mmra, window: seq<nat>, ghost value: MutatorSet, ghost indices: multiset<nat>)
      requires aocl == MmraOf(value.aocl) && swbfInactive == MmraOf(value.ChunkDigests()) && window == value.window
      requires Stores(value, indices)
      ensures Valid() && fresh(swbfActive) && this.value == value && this.indices == indices
    {
      this.aocl, this.swbfInactive := aocl, swbfInactive;
      this.swbfActive := new ActiveWindow(window);
      this.value, this.indices := value, indices;
    }

    /** MutatorSetAccumulator::clone */
    constructor Clone(other: MutatorSetAccumulator)
      requires other.Valid()
      ensures Valid() && fresh(swbfActive) && value == other.value && indices == other.indices
    {
      aocl, swbfInactive := other.aocl, other.swbfInactive;
      swbfActive := new ActiveWindow(other.swbfActive.sbf);
      value, indices := other.value, other.indices;
    }

    method Add(commitment: Digest)
      requires Valid()
      modifies this, swbfActive
      ensures Valid() && indices == old(indices)
      ensures value.aocl == old(value).aocl + [commitment]
      ensures value.chunks == ChunksAfterAddition(old(value))
    {
      var itemIndex := aocl.numLeafs;
      ghost var was := value;
      MmraAppends(value.aocl, commitment);
      SlideStartsBatch(itemIndex);
      aocl := aocl.Append(commitment);
      value := value.(aocl := value.aocl + [commitment]);
      if WindowSlides(itemIndex) {
        var newChunk := swbfActive.SlidChunk();
        MmraAppends(was.ChunkDigests(), HashNats(newChunk));
        assert was.ChunkDigests() + [HashNats(newChunk)] == DigestsOf(was.chunks + [newChunk]);
        swbfInactive := swbfInactive.Append(HashNats(newChunk));
        CoversMeansValid(swbfActive, indices, was.WindowStart());
        swbfActive.SlideWindow();
        SlideStores(was, indices, swbfActive.sbf, commitment);
        value := MutatorSet(was.aocl + [commitment], was.chunks + [newChunk], swbfActive.sbf);
      }
    }

    /** RemovalRecord::validate_inner. For records whose chunk indices fit 64 bits it accepts those in step. */
    method ValidateInner(rr: RemovalRecord) returns (validity: RemovalRecordValidity)
      requires Valid()
      ensures validity.Valid? <==> PassesValidation(rr, value)
      ensures validity.AbsentAuthenticatedChunk? <==> !HasRequiredChunks(rr, |value.chunks|)
      ensures validity.InvalidSwbfiMmrMp? ==>
                var c := validity.chunkIndex;
                c in rr.targetChunks && !(c < |value.chunks| &&
                  rr.targetChunks[c] == AuthChunk(Path(value.ChunkDigests(), c), value.chunks[c]))
      ensures Fits(rr.absoluteIndices) ==> (validity.Valid? <==> Synced(rr, value))
      ensures Fits(rr.absoluteIndices) ==>
                (validity.AbsentAuthenticatedChunk? <==>
                 !(NoFutureIndex(rr.absoluteIndices, value.WindowStart()) &&
                   rr.targetChunks.Keys == InactiveChunks(rr.absoluteIndices, |value.chunks|)))
    {
      hide ChunkOf, Path, Verify;
      if Fits(rr.absoluteIndices) {
        SplitsIffNoFuture(rr.absoluteIndices, |value.chunks|);
        RequiredIsInactive(rr.absoluteIndices, |value.chunks|);
      }
      if !SplitsByActivity(rr.absoluteIndices, BatchIndex(aocl.numLeafs)) { return AbsentAuthenticatedChunk; }
      if RequiredChunks(rr.absoluteIndices, BatchIndex(aocl.numLeafs)) != rr.targetChunks.Keys {
        return AbsentAuthenticatedChunk;
      }
      var todo := rr.targetChunks.Keys;
      while todo != {}
        invariant todo <= rr.targetChunks.Keys
        invariant forall c | c in rr.targetChunks.Keys - todo :: c < |value.chunks| &&
                    rr.targetChunks[c] == AuthChunk(Path(value.ChunkDigests(), c), value.chunks[c])
      {
        var c :| c in todo;
        var entry := rr.targetChunks[c];
        VerifyIffPath(entry.path, c, HashNats(entry.chunk), value.ChunkDigests());
        if !Verify(entry.path, c, HashNats(entry.chunk), swbfInactive.peaks, swbfInactive.numLeafs) {
          return InvalidSwbfiMmrMp(c);
        }
        todo := todo - {c};
      }
      validity := RemovalRecordValidity.Valid;
    }

    /** Whether the record is in step with the mutator set and spends something not yet spent. So it is for records whose
        chunk indices fit 64 bits. Otherwise truncated positions are looked up, up to the first outside the window. */
    method CanRemove(rr: RemovalRecord) returns (can: bool, panics: bool)
      requires Valid()
      ensures Fits(rr.absoluteIndices) ==> !panics && (can <==> Synced(rr, value) && SpendsSomething(rr.absoluteIndices, indices))
      ensures aocl.numLeafs < LEAF_INDICES ==>
                && (can <==> PassesValidation(rr, value) && SomeLookup(rr.absoluteIndices, value.WindowStart(), indices, true))
                && (panics <==> PassesValidation(rr, value) && SomeLookup(rr.absoluteIndices, value.WindowStart(), indices, false))
    {
      hide Stores, Path, Synced, PassesValidation, LookupDefined, Fits, SpendsSomething, NoFutureIndex, ChunkOf;
      panics := false;
      var validity := ValidateInner(rr);
      if !validity.Valid? { return false, false; }
      if Fits(rr.absoluteIndices) { FittingLookups(rr, value, indices); }
      var batchIndex := BatchIndex(aocl.numLeafs);
      var activeWindowStart := batchIndex * CHUNK_SIZE;
      ChunkCount(value, indices);
      for k := 0 to |rr.absoluteIndices|
        invariant Fits(rr.absoluteIndices) || aocl.numLeafs < LEAF_INDICES ==>
                    forall j | 0 <= j < k :: LookupFinds(rr.absoluteIndices[j], activeWindowStart, indices)
      {
        var index: nat := rr.absoluteIndices[k];
        assert index in rr.absoluteIndices;
        LookedUp(rr, index, value, indices);
        if index < activeWindowStart {
          RequiredIsThere(rr, value, index);
          var entry := rr.targetChunks[ChunkOf(index)];
          if index % CHUNK_SIZE !in entry.chunk { return true, false; }
        } else {
          var relativeIndex: nat := (index - activeWindowStart) % TWO_TO_THE_32;
          if relativeIndex >= WINDOW_SIZE { return false, true; }
          var present := swbfActive.Contains(relativeIndex);
          if !present { return true, false; }
        }
      }
      can := false;
    }

    /** Apply a record. The caller has made sure that it is in step, for instance with CanRemove. */
    method Remove(rr: RemovalRecord) returns (updated: ChunkDictionary)
      requires Valid() && Synced(rr, value)
      modifies this, swbfActive
      ensures Valid() && value.aocl == old(value).aocl
      ensures indices == old(indices) + multiset(rr.absoluteIndices)
      ensures updated.Keys == rr.targetChunks.Keys
      ensures forall c | c in updated :: c < |value.chunks| && updated[c].chunk == value.chunks[c]
    {
      ghost var was := value;
      SyncedCovers(rr, value, indices);
      updated := InsertIndices(swbfActive, rr.targetChunks, rr.absoluteIndices, BatchIndex(aocl.numLeafs), indices);
      var mutations := MutationsOf(updated);
      OverlayPeaks(was.chunks, updated, mutations);
      OverlayStores(was, indices, rr.absoluteIndices, updated, swbfActive.sbf);
      swbfInactive := swbfInactive.BatchMutate(mutations);
      value := MutatorSet(was.aocl, Overlay(was.chunks, updated), swbfActive.sbf);
      indices := indices + multiset(rr.absoluteIndices);
    }

    /** Leaf counts and numbers of peaks fit together. */
    predicate IsConsistent()
      reads this
    {
      && BatchIndex(aocl.numLeafs) == swbfInactive.numLeafs
      && PopCount(aocl.numLeafs) == |aocl.peaks|
      && PopCount(swbfInactive.numLeafs) == |swbfInactive.peaks|
    }

    lemma ConsistentWhenValid()
      requires Valid()
      ensures IsConsistent()
    {
      PeakCount(value.aocl);
      PeakCount(value.ChunkDigests());
    }

    function Hash(): Digest
      reads this, swbfActive
    {
      HashPair(HashPair(aocl.Bag(), swbfInactive.Bag()), HashPair(HashNats(swbfActive.sbf), Default))
    }
  }

  /** A record that is accepted although its indices lie far in the future: chunk index 2^64 is taken for 0. */
  method OversizedIndexAccepted() returns (rr: RemovalRecord, can: bool)
    ensures can && |rr.absoluteIndices| == 45
    ensures forall ms: MutatorSet | ms.chunks == [] :: !Synced(rr, ms)
  {
    var acc := new MutatorSetAccumulator();
    var index: nat := LEAF_INDICES * CHUNK_SIZE;
    rr := RemovalRecord(seq<nat>(45, _ => index), map[]);
    assert rr.absoluteIndices[0] == index && index in rr.absoluteIndices;
    assert ChunkOf(index) == 0 && TruncatedIndex(index, 0) == 0;
    assert forall i | i in rr.absoluteIndices :: i == index;
    assert !LookupFinds(rr.absoluteIndices[0], 0, multiset{}) && LookupDefined(rr.absoluteIndices[0], 0);
    var accepted, _ := acc.CanRemove(rr);
    can := accepted;
  }

  /** There is one peak for every bit of the leaf count. */
  lemma {:induction false} PeakCount(leafs: seq<Digest>)
    ensures |Peaks(leafs)| == PopCount(|leafs|)
    decreases |leafs|
  {
    if leafs != [] { PeakCount(Parents(leafs)); }
  }

  /** The hash of the accumulator that commits to a mutator set. */
  function HashOf(ms: MutatorSet): Digest {
    HashPair(HashPair(MmraOf(ms.aocl).Bag(), MmraOf(ms.ChunkDigests()).Bag()), HashPair(HashNats(ms.window), Default))
  }

  /** Equal hashes mean equal mutator sets. */
  lemma HashInjective(a: MutatorSet, b: MutatorSet)
    requires HashOf(a) == HashOf(b)
    ensures a == b
  {
    PeaksInjective(a.aocl, b.aocl);
    PeaksInjective(a.ChunkDigests(), b.ChunkDigests());
    forall c | 0 <= c < |a.chunks| ensures a.chunks[c] == b.chunks[c] {
      assert a.ChunkDigests()[c] == b.ChunkDigests()[c];
    }
  }

  lemma SyncedCovers(rr: RemovalRecord, ms: MutatorSet, indices: multiset<nat>)
    requires Synced(rr, ms) && Stores(ms, indices)
    ensures DictionaryCovers(rr.targetChunks, indices, |ms.chunks|)
  {
  }

  /** The window slide that an addition brings about leaves the stored indices unchanged. */
  lemma SlideStores(ms: MutatorSet, indices: multiset<nat>, window: seq<nat>, commitment: Digest)
    requires Stores(ms, indices) && WindowSlides(|ms.aocl|)
    requires Sorted(window) && SlidForward(ms.window, window)
    ensures Stores(MutatorSet(ms.aocl + [commitment], ms.chunks + [Slice(ms.window, 0, CHUNK_SIZE)], window), indices)
  {
    hide Covers, Sorted, SlidForward;
    SlideStartsBatch(|ms.aocl|);
    CoversSlide(ms.window, window, indices, ms.WindowStart());
  }
}
