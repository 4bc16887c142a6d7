/** The packed form of a list of removal records, and the way back from it. */
module PackedRecords {
  import opened Options
  import opened Digests
  import opened MountainRange
  import opened PostOrder
  import opened Sorting
  import opened ActiveWindows
  import opened MutatorSets
  import opened RemovalRecords
  import opened RecordUpdates
  import opened LeafCountEstimates
  import opened SparseMountainRanges
  import opened ChunkPackings
  import opened RemovalRecordLists

  const HEIGHT_OFFSET: nat := 64
  const IGNORE_TREE: nat := LEAF_INDICES - 1

  type WordList = w: seq<nat> | Fit(w, Pow2(32)) witness []

  datatype PackedEntry = PackedEntry(tag: nat, digests: seq<Digest>, chunk: WordList)

  datatype PackedRecord = PackedRecord(absoluteIndices: seq<nat>, entries: seq<PackedEntry>)

  function Max(a: nat, b: nat): nat {
    if a < b then b else a
  }

  /** Position k has a tree, a chunk or both. */
  ghost predicate IsEntry(entry: PackedEntry, k: nat, heights: seq<nat>, structures: seq<seq<Digest>>, chunks: seq<Chunk>)
    requires |structures| == |heights| && k < Max(|heights|, |chunks|)
  {
    && entry.digests == (if k < |heights| then structures[k] else [])
    && (if k < |chunks| then IsPacked(chunks[k], entry.chunk) else entry.chunk == [])
    && entry.tag == if k >= |heights| then IGNORE_TREE else if k < |chunks| then heights[k] else heights[k] + HEIGHT_OFFSET
  }

  ghost predicate AreEntries(entries: seq<PackedEntry>, heights: seq<nat>, structures: seq<seq<Digest>>, chunks: seq<Chunk>) {
    && |structures| == |heights| && |entries| == Max(|heights|, |chunks|)
    && forall k | 0 <= k < |entries| :: IsEntry(entries[k], k, heights, structures, chunks)
  }

  /** All entries are in the first record. */
  ghost predicate IsPackedFormOf(packed: seq<PackedRecord>, list: RemovalRecordList) {
    && |packed| == |list.indexSets|
    && (forall k | 0 <= k < |packed| :: packed[k].absoluteIndices == list.indexSets[k] && (k > 0 ==> packed[k].entries == []))
    && AreEntries(if packed == [] then [] else packed[0].entries, HeightsUp(BatchIndex(list.numLeafsAocl)), list.structures, list.chunks)
  }

  // ---------- packing ----------

  /** RemovalRecordList::pack, for records that are in step. None where the code panics, because a chunk is too long or
      has indices that are too large. */
  method Pack(records: seq<RemovalRecord>, ghost ms: MutatorSet) returns (r: Option<seq<PackedRecord>>, ghost list: RemovalRecordList)
    requires AllSynced(records, ms)
    ensures IsListOf(list, records, ms)
    ensures r.Some? <==> forall c | c in TouchedChunks(records) :: Packable(ms.chunks[c])
    ensures r.Some? ==> |r.value| == |records| && forall k | 0 <= k < |records| :: r.value[k].absoluteIndices == records[k].absoluteIndices
    ensures r.Some? ==> IsPackedFormOf(r.value, list)
  {
    hide AllSynced, IsListOf, IsPacked, HeightsUp, Packable, Fit, Pow2, TouchedChunks;
    var dense := ConvertFromVec(records, ms);
    list := dense;
    AllPackable(list, records, ms);
    ListIndexSets(list, records, ms);
    HeightsMatch(records, ms, dense);
    NoEntriesWithoutRecords(records, ms, dense);
    r := EncodeAsVec(dense);
  }

  /** RemovalRecordList::encode_as_vec. */
  method EncodeAsVec(list: RemovalRecordList) returns (r: Option<seq<PackedRecord>>)
    requires |list.structures| == |HeightsUp(BatchIndex(list.numLeafsAocl))|
    ensures r.Some? <==> forall k | 0 <= k < |list.chunks| :: Packable(list.chunks[k])
    ensures r.Some? ==> |r.value| == |list.indexSets| && forall k | 0 <= k < |r.value| :: r.value[k].absoluteIndices == list.indexSets[k]
    ensures r.Some? && (list.indexSets == [] ==> list.chunks == [] && list.structures == []) ==> IsPackedFormOf(r.value, list)
  {
    hide IsPacked, HeightsUp, Packable, Fit, Pow2;
    var packedChunks := PackChunks(list.chunks);
    if packedChunks.None? { return None; }
    var entries := Zip(HeightsUp(BatchIndex(list.numLeafsAocl)), list.structures, list.chunks, packedChunks.value);
    var packed: seq<PackedRecord> := [];
    for k := 0 to |list.indexSets|
      invariant |packed| == k
      invariant forall j | 0 <= j < k :: packed[j] == PackedRecord(list.indexSets[j], if j == 0 then entries else [])
    {
      packed := packed + [PackedRecord(list.indexSets[k], if k == 0 then entries else [])];
    }
    r := Some(packed);
  }

  /** A list has one packed form. */
  lemma PackedListUnique(p: seq<PackedRecord>, q: seq<PackedRecord>, list: RemovalRecordList)
    requires IsPackedFormOf(p, list) && IsPackedFormOf(q, list)
    ensures p == q
  {
    hide HeightsUp, IsPacked;
    if p != [] {
      var a, b := p[0].entries, q[0].entries;
      forall k | 0 <= k < |a| ensures a[k] == b[k] {
        if k < |list.chunks| { PackedFormUnique(list.chunks[k], a[k].chunk, b[k].chunk); }
      }
      assert a == b;
      forall k | 0 <= k < |p| ensures p[k] == q[k] { }
    }
  }

  lemma {:induction false} AllPackable(list: RemovalRecordList, records: seq<RemovalRecord>, ms: MutatorSet)
    requires IsListOf(list, records, ms)
    ensures forall c | c in TouchedChunks(records) :: c < |ms.chunks|
    ensures (forall k | 0 <= k < |list.chunks| :: Packable(list.chunks[k])) <==> forall c | c in TouchedChunks(records) :: Packable(ms.chunks[c])
  {
    hide Ascending, AreStructuresOf, Estimated, Packable, TouchedChunks;
    var order := Ascending(TouchedChunks(records));
    forall c | c in TouchedChunks(records) ensures exists k :: 0 <= k < |list.chunks| && list.chunks[k] == ms.chunks[c] {
      var k :| 0 <= k < |order| && order[k] == c;
      assert list.chunks[k] == ms.chunks[c];
    }
    forall k | 0 <= k < |list.chunks| ensures order[k] in TouchedChunks(records) { assert order[k] in order; }
  }

  /** The list has a structure for each tree, and the indices call for as many chunks as there are. */
  lemma HeightsMatch(records: seq<RemovalRecord>, ms: MutatorSet, list: RemovalRecordList)
    requires AllSynced(records, ms) && IsListOf(list, records, ms)
    ensures var m := BatchIndex(list.numLeafsAocl);
            |list.structures| == |HeightsUp(m)| && |ChunksBelow(list.indexSets, m)| == |list.chunks|
  {
    hide AllSynced, Ascending, ChunksBelow, Estimated;
    TouchedAreInactive(records, ms);
    BelowEstimate(list.indexSets, |ms.chunks|);
  }

  lemma NoEntriesWithoutRecords(records: seq<RemovalRecord>, ms: MutatorSet, list: RemovalRecordList)
    requires IsListOf(list, records, ms)
    ensures |list.indexSets| == |records|
    ensures records == [] ==> list.chunks == [] && HeightsUp(BatchIndex(list.numLeafsAocl)) == []
  {
    if records == [] {
      assert TouchedChunks(records) == {};
      assert PeakHeights(0) == [];
    }
  }

  method PackChunks(chunks: seq<Chunk>) returns (r: Option<seq<WordList>>)
    ensures r.Some? <==> forall k | 0 <= k < |chunks| :: Packable(chunks[k])
    ensures r.Some? ==> |r.value| == |chunks| && forall k | 0 <= k < |chunks| :: IsPacked(chunks[k], r.value[k])
  {
    hide Packable, IsPacked, Fit, Pow2;
    var packed: seq<WordList> := [];
    for k := 0 to |chunks|
      invariant |packed| == k
      invariant forall j | 0 <= j < k :: Packable(chunks[j]) && IsPacked(chunks[j], packed[j])
    {
      var words := ChunkPackings.Pack(chunks[k]);
      if words.None? { return None; }
      PackedFormFits(chunks[k], words.value);
      packed := packed + [words.value];
    }
    r := Some(packed);
  }

  /** zip_longest, with a tag that says what is missing. */
  method Zip(heights: seq<nat>, structures: seq<seq<Digest>>, ghost chunks: seq<Chunk>, packedChunks: seq<WordList>)
    returns (entries: seq<PackedEntry>)
    requires |structures| == |heights| && |packedChunks| == |chunks|
    requires forall k | 0 <= k < |chunks| :: IsPacked(chunks[k], packedChunks[k])
    ensures AreEntries(entries, heights, structures, chunks)
  {
    hide IsPacked, Pow2;
    entries := [];
    for k := 0 to Max(|heights|, |packedChunks|)
      invariant |entries| == k
      invariant forall j | 0 <= j < k :: IsEntry(entries[j], j, heights, structures, chunks)
    {
      var entry :=
        if k < |heights| && k < |packedChunks| then PackedEntry(heights[k], structures[k], packedChunks[k])
        else if k < |heights| then PackedEntry(heights[k] + HEIGHT_OFFSET, structures[k], [])
        else PackedEntry(IGNORE_TREE, [], packedChunks[k]);
      entries := entries + [entry];
    }
  }

  // ---------- decoding ----------

  datatype UnpackError =
    | InnerDecodingFailure
    | AbsoluteIndexTooBig
    | IllegalTreeHeight
    | DuplicateTreeHeights
    | IncorrectlySortedTreeHeights
    | Inconsistency
    | Panic

  datatype Decoded = Decoded(heights: seq<nat>, structures: seq<seq<Digest>>, chunks: seq<Chunk>) | Undecoded(error: UnpackError)

  predicate IsTree(e: PackedEntry) {
    e.tag < 2 * HEIGHT_OFFSET
  }

  predicate HasChunk(e: PackedEntry) {
    e.tag < HEIGHT_OFFSET || e.tag == IGNORE_TREE
  }

  function HeightOf(e: PackedEntry): nat
    requires IsTree(e)
  {
    if e.tag < HEIGHT_OFFSET then e.tag else e.tag - HEIGHT_OFFSET
  }

  function HeightsIn(entries: seq<PackedEntry>): seq<nat> {
    if entries == [] then []
    else
      var n := |entries| - 1;
      HeightsIn(entries[..n]) + if IsTree(entries[n]) then [HeightOf(entries[n])] else []
  }

  function StructuresIn(entries: seq<PackedEntry>): seq<seq<Digest>> {
    if entries == [] then []
    else
      var n := |entries| - 1;
      StructuresIn(entries[..n]) + if IsTree(entries[n]) then [entries[n].digests] else []
  }

  function PackedChunksIn(entries: seq<PackedEntry>): seq<WordList> {
    if entries == [] then []
    else
      var n := |entries| - 1;
      PackedChunksIn(entries[..n]) + if HasChunk(entries[n]) then [entries[n].chunk] else []
  }

  ghost predicate ArePacked(chunks: seq<Chunk>, words: seq<WordList>) {
    |chunks| == |words| && forall k | 0 <= k < |chunks| :: IsPacked(chunks[k], words[k])
  }

  predicate AllDifferent(s: seq<nat>) {
    forall j, k | 0 <= j < k < |s| :: s[j] != s[k]
  }

  /** Every tag says what is there, no height comes twice, no tree with a chunk is lower than the tree before it, and all
      chunks can be unpacked. */
  ghost predicate Decodable(entries: seq<PackedEntry>) {
    && (forall k | 0 <= k < |entries| :: IsTree(entries[k]) || HasChunk(entries[k]))
    && AllDifferent(HeightsIn(entries))
    && (forall k | 0 <= k < |entries| :: InOrderAt(entries, k))
    && (forall k | 0 <= k < |entries| && HasChunk(entries[k]) :: IsPackedChunk(entries[k].chunk))
  }

  ghost predicate InOrderAt(entries: seq<PackedEntry>, k: nat)
    requires k < |entries|
  {
    var before := HeightsIn(entries[..k]);
    entries[k].tag < HEIGHT_OFFSET && before != [] ==> before[|before| - 1] <= entries[k].tag
  }

  ghost predicate IsPackedChunk(words: seq<nat>) {
    exists chunk: seq<nat> :: IsPacked(chunk, words)
  }

  /** The entries one after the other: a tree, a chunk or both. */
  method DecodeEntries(entries: seq<PackedEntry>) returns (r: Decoded)
    ensures r.Decoded? <==> Decodable(entries)
    ensures r.Decoded? ==> r.heights == HeightsIn(entries) && r.structures == StructuresIn(entries) && ArePacked(r.chunks, PackedChunksIn(entries))
    ensures r.Undecoded? ==>
              match r.error
              case IllegalTreeHeight => exists e | e in entries :: !IsTree(e) && !HasChunk(e)
              case DuplicateTreeHeights => !AllDifferent(HeightsIn(entries))
              case IncorrectlySortedTreeHeights => exists k | 0 <= k < |entries| :: !InOrderAt(entries, k)
              case InnerDecodingFailure => exists e | e in entries && HasChunk(e) :: !IsPackedChunk(e.chunk)
              case _ => false
  {
    hide IsPacked, Fit, Pow2, HeightsIn, StructuresIn, PackedChunksIn;
    NothingIn();
    var hs: seq<nat>, ss: seq<seq<Digest>>, cs: seq<Chunk> := [], [], [];
    assert entries[..0] == [];
    for k := 0 to |entries|
      invariant hs == HeightsIn(entries[..k]) && ss == StructuresIn(entries[..k]) && ArePacked(cs, PackedChunksIn(entries[..k]))
      invariant AllDifferent(hs)
      invariant forall j | 0 <= j < k :: (IsTree(entries[j]) || HasChunk(entries[j])) && InOrderAt(entries, j)
      invariant forall j | 0 <= j < k && HasChunk(entries[j]) :: IsPackedChunk(entries[j].chunk)
    {
      var tag := entries[k].tag;
      assert entries[k] in entries;
      NextIn(entries, k);
      if tag < 2 * HEIGHT_OFFSET {
        var height := if tag < HEIGHT_OFFSET then tag else tag - HEIGHT_OFFSET;
        if tag < HEIGHT_OFFSET && hs != [] && hs[|hs| - 1] > height {
          assert !InOrderAt(entries, k);
          return Undecoded(IncorrectlySortedTreeHeights);
        }
        hs, ss := hs + [height], ss + [entries[k].digests];
      } else if tag != IGNORE_TREE {
        return Undecoded(IllegalTreeHeight);
      }
      if tag < HEIGHT_OFFSET || tag == IGNORE_TREE {
        var chunk := ChunkPackings.TryUnpack(entries[k].chunk);
        if !chunk.Unpacked? {
          assert !IsPackedChunk(entries[k].chunk);
          return Undecoded(InnerDecodingFailure);
        }
        cs := cs + [chunk.chunk];
      }
      if exists i, j | 0 <= i < j < |hs| :: hs[i] == hs[j] {
        HeightsOfPrefix(entries, k + 1);
        return Undecoded(DuplicateTreeHeights);
      }
    }
    assert entries[..|entries|] == entries;
    r := Decoded(hs, ss, cs);
  }

  lemma NothingIn()
    ensures HeightsIn([]) == [] && StructuresIn([]) == [] && PackedChunksIn([]) == []
  {
  }

  lemma NextIn(entries: seq<PackedEntry>, k: nat)
    requires k < |entries|
    ensures HeightsIn(entries[..k + 1]) == HeightsIn(entries[..k]) + if IsTree(entries[k]) then [HeightOf(entries[k])] else []
    ensures StructuresIn(entries[..k + 1]) == StructuresIn(entries[..k]) + if IsTree(entries[k]) then [entries[k].digests] else []
    ensures PackedChunksIn(entries[..k + 1]) == PackedChunksIn(entries[..k]) + if HasChunk(entries[k]) then [entries[k].chunk] else []
  {
    assert entries[..k + 1][..k] == entries[..k];
  }

  lemma {:induction false} HeightsOfPrefix(entries: seq<PackedEntry>, k: nat)
    requires k <= |entries|
    ensures HeightsIn(entries[..k]) <= HeightsIn(entries)
    decreases |entries| - k
  {
    if k == |entries| {
      assert entries[..k] == entries;
    } else {
      HeightsOfPrefix(entries, k + 1);
      assert entries[..k + 1][..k] == entries[..k];
    }
  }

  function Min(a: nat, b: nat): nat {
    if a < b then a else b
  }

  lemma EntryTag(entry: PackedEntry, k: nat, heights: seq<nat>, structures: seq<seq<Digest>>, chunks: seq<Chunk>)
    requires |structures| == |heights| && k < Max(|heights|, |chunks|) && IsEntry(entry, k, heights, structures, chunks)
    requires forall h | h in heights :: h < HEIGHT_OFFSET
    ensures k < |heights| <==> IsTree(entry)
    ensures k < |chunks| <==> HasChunk(entry)
    ensures k < |heights| ==> heights[k] == HeightOf(entry)
  {
    if k < |heights| { assert heights[k] in heights; }
  }

  /** What goes in comes out: the entries of a list have its trees and its chunks. */
  lemma {:induction false} EntriesHold(entries: seq<PackedEntry>, heights: seq<nat>, structures: seq<seq<Digest>>, chunks: seq<Chunk>, k: nat)
    requires AreEntries(entries, heights, structures, chunks) && k <= |entries| && forall h | h in heights :: h < HEIGHT_OFFSET
    ensures HeightsIn(entries[..k]) == heights[..Min(k, |heights|)] && StructuresIn(entries[..k]) == structures[..Min(k, |heights|)]
    ensures ArePacked(chunks[..Min(k, |chunks|)], PackedChunksIn(entries[..k]))
    decreases k
  {
    hide IsPacked, HeightsIn, StructuresIn, PackedChunksIn;
    if k == 0 {
      NothingIn();
      assert entries[..0] == [];
    } else {
      EntriesHold(entries, heights, structures, chunks, k - 1);
      EntryTag(entries[k - 1], k - 1, heights, structures, chunks);
      NextIn(entries, k - 1);
    }
  }

  lemma EntriesDecodable(entries: seq<PackedEntry>, heights: seq<nat>, structures: seq<seq<Digest>>, chunks: seq<Chunk>)
    requires AreEntries(entries, heights, structures, chunks) && StrictlyAscending(heights) && forall h | h in heights :: h < HEIGHT_OFFSET
    ensures Decodable(entries) && HeightsIn(entries) == heights && StructuresIn(entries) == structures && ArePacked(chunks, PackedChunksIn(entries))
  {
    hide IsPacked, HeightsIn, StructuresIn, PackedChunksIn;
    EntriesHold(entries, heights, structures, chunks, |entries|);
    assert entries[..|entries|] == entries && heights[..|heights|] == heights && structures[..|structures|] == structures;
    assert chunks[..|chunks|] == chunks;
    forall k | 0 <= k < |entries|
      ensures (IsTree(entries[k]) || HasChunk(entries[k])) && InOrderAt(entries, k) && (HasChunk(entries[k]) ==> IsPackedChunk(entries[k].chunk))
    {
      EntriesHold(entries, heights, structures, chunks, k);
      EntryTag(entries[k], k, heights, structures, chunks);
    }
  }

  lemma PackedChunksUnique(a: seq<Chunk>, b: seq<Chunk>, words: seq<WordList>)
    requires ArePacked(a, words) && ArePacked(b, words)
    ensures a == b
  {
    hide IsPacked;
    forall k | 0 <= k < |a| ensures a[k] == b[k] { UnpackedFormUnique(a[k], b[k], words[k]); }
  }

  datatype DecodeResult = List(list: RemovalRecordList) | DecodeFailure(error: UnpackError)

  /** The packed form is what packing makes of these records. */
  ghost predicate Honest(packed: seq<PackedRecord>, list: RemovalRecordList, records: seq<RemovalRecord>, ms: MutatorSet) {
    && AllSynced(records, ms) && |ms.chunks| == BatchIndex(|ms.aocl|) && |ms.aocl| < LEAF_INDICES
    && IsListOf(list, records, ms) && IsPackedFormOf(packed, list)
  }

  function AllEntries(packed: seq<PackedRecord>): seq<PackedEntry> {
    if packed == [] then [] else packed[0].entries + AllEntries(packed[1..])
  }

  lemma {:induction false} EntriesOfFirst(packed: seq<PackedRecord>)
    requires forall k | 0 < k < |packed| :: packed[k].entries == []
    ensures AllEntries(packed) == if packed == [] then [] else packed[0].entries
    decreases |packed|
  {
    if packed != [] {
      assert forall k | 0 <= k < |packed[1..]| :: packed[1..][k].entries == [];
      EntriesOfFirst(packed[1..]);
    }
  }

  /** The last of the first chunk indices in ascending order, as many as there are chunks. */
  function LargestObserved(indexSets: seq<seq<nat>>, count: nat): nat {
    var observed := Ascending(ChunksBelow(indexSets, LEAF_INDICES));
    if count == 0 || observed == [] then 0 else observed[Min(count, |observed|) - 1]
  }

  function IndexSetsOf(packed: seq<PackedRecord>): (r: seq<seq<nat>>)
    ensures |r| == |packed| && forall k | 0 <= k < |r| :: r[k] == packed[k].absoluteIndices
  {
    seq(|packed|, k requires 0 <= k < |packed| => packed[k].absoluteIndices)
  }

  /** The number of chunks that packed records call for. */
  function EstimateOf(packed: seq<PackedRecord>): nat {
    Estimate(LargestObserved(IndexSetsOf(packed), |PackedChunksIn(AllEntries(packed))|), Reverse(HeightsIn(AllEntries(packed))))
  }

  predicate AllFit(packed: seq<PackedRecord>) {
    forall k | 0 <= k < |packed| :: Fits(packed[k].absoluteIndices)
  }

  /** The heights ascend, and the estimate fits 64 bits. */
  predicate CanBeEstimated(packed: seq<PackedRecord>) {
    StrictlyAscending(HeightsIn(AllEntries(packed))) && EstimateOf(packed) * BATCH_SIZE + 1 < LEAF_INDICES
  }

  /** The list has what the entries hold. */
  ghost predicate HoldsEntries(list: RemovalRecordList, packed: seq<PackedRecord>) {
    && list.indexSets == IndexSetsOf(packed)
    && list.structures == StructuresIn(AllEntries(packed)) && ArePacked(list.chunks, PackedChunksIn(AllEntries(packed)))
    && list.numLeafsAocl == EstimateOf(packed) * BATCH_SIZE + 1
  }

  /** The entries hold a consistent list. */
  ghost predicate HoldsList(packed: seq<PackedRecord>) {
    Decodable(AllEntries(packed)) && AllFit(packed) && CanBeEstimated(packed) && exists l :: HoldsEntries(l, packed) && IsConsistent(l)
  }

  /** RemovalRecordList::decode_from_vec. Panic stands for failed assertions and overflow. What is decoded is what the
      entries hold, if it is consistent. */
  method DecodeFromVec(packed: seq<PackedRecord>, ghost list: RemovalRecordList, ghost records: seq<RemovalRecord>, ghost ms: MutatorSet)
    returns (r: DecodeResult)
    ensures Honest(packed, list, records, ms) ==> r == List(list)
    ensures r.List? <==> HoldsList(packed)
    ensures r.List? ==> HoldsEntries(r.list, packed) && IsConsistent(r.list)
    ensures r == DecodeFailure(Panic) <==> Decodable(AllEntries(packed)) && AllFit(packed) && !CanBeEstimated(packed)
  {
    hide AllSynced, IsListOf, IsPackedFormOf, HeightsUp, Ascending, IsPacked, Fit, Pow2, Honest, IsConsistent, ChunksBelow,
         Fits, AreEntries, DownToTreeOf, Truncated, TreeHeight, Decodable, ArePacked, HeightsIn, StructuresIn, PackedChunksIn, Estimate;
    ghost var honest, entries := Honest(packed, list, records, ms), AllEntries(packed);
    var indexSets := IndexSetsOf(packed);
    if honest {
      HonestParts(packed, list, records, ms);
      assert indexSets == list.indexSets;
      EntriesDecodable(entries, HeightsUp(BatchIndex(list.numLeafsAocl)), list.structures, list.chunks);
    }
    var decoded := DecodeEntries(AllEntries(packed));
    if decoded.Undecoded? { return DecodeFailure(decoded.error); }
    ChunkCounts(decoded.chunks, PackedChunksIn(entries));
    if honest { PackedChunksUnique(list.chunks, decoded.chunks, PackedChunksIn(entries)); }
    if !AllFit(packed) { return DecodeFailure(AbsoluteIndexTooBig); }
    if honest { HonestEstimate(packed, list, records, ms); }
    var heights := Reverse(decoded.heights);
    AscendingReversed(decoded.heights);
    if !Descending(heights) { return DecodeFailure(Panic); }
    var estimate := EstimateNumLeafs(LargestObserved(indexSets, |decoded.chunks|), heights, |ms.chunks|);
    if honest && list.chunks == [] { NoEstimate(); }
    if estimate * BATCH_SIZE + 1 >= LEAF_INDICES { return DecodeFailure(Panic); }
    var found := RemovalRecordList(indexSets, decoded.structures, decoded.chunks, estimate * BATCH_SIZE + 1);
    assert HoldsEntries(found, packed);
    assert honest ==> found == list;
    if !IsConsistent(found) {
      forall l | HoldsEntries(l, packed) ensures l == found { PackedChunksUnique(l.chunks, found.chunks, PackedChunksIn(entries)); }
      return DecodeFailure(Inconsistency);
    }
    r := List(found);
  }

  lemma ChunkCounts(chunks: seq<Chunk>, words: seq<WordList>)
    requires ArePacked(chunks, words)
    ensures |chunks| == |words|
  {
  }

  lemma NoEstimate()
    ensures Estimate(0, []) == 0
  {
  }

  lemma AscendingReversed(s: seq<nat>)
    ensures Descending(Reverse(s)) <==> StrictlyAscending(s)
  {
    var r := Reverse(s);
    if Descending(r) {
      forall j, k | 0 <= j < k < |s| ensures s[j] < s[k] {
        assert r[|s| - 1 - k] == s[k] && r[|s| - 1 - j] == s[j];
      }
    }
  }

  /** Trees without a chunk are not checked for their order before the lengths of the paths are asserted to be sorted. */
  method UnsortedTreesPanic() returns (r: DecodeResult)
    ensures r == DecodeFailure(Panic)
  {
    var first, second := PackedEntry(HEIGHT_OFFSET + 1, [], []), PackedEntry(HEIGHT_OFFSET, [], []);
    var entries := [first, second];
    var packed := [PackedRecord(seq<nat>(45, _ => 0), entries)];
    EntriesOfFirst(packed);
    assert AllEntries(packed) == entries;
    assert entries[..0] == [] && entries[..1] == [first] && entries[..2] == entries;
    NothingIn();
    NextIn(entries, 0);
    NextIn(entries, 1);
    UnsortedTrees(packed, entries);
    r := DecodeFromVec(packed, RemovalRecordList([], [], [], 0), [], MutatorSet([], [], []));
  }

  lemma UnsortedTrees(packed: seq<PackedRecord>, entries: seq<PackedEntry>)
    requires AllEntries(packed) == entries && HeightsIn(entries) == [1, 0] && |packed| == 1 && packed[0].absoluteIndices == seq<nat>(45, _ => 0)
    requires |entries| == 2 && forall k | 0 <= k < 2 :: HEIGHT_OFFSET <= entries[k].tag < 2 * HEIGHT_OFFSET
    ensures Decodable(AllEntries(packed)) && AllFit(packed) && !CanBeEstimated(packed)
  {
    hide HeightsIn, AllEntries;
    var heights := HeightsIn(entries);
    assert heights[0] == 1 && heights[1] == 0;
  }

  // ---------- back to the packed form ----------

  /** The trees come first, those without a chunk last among them, and nothing is in a place that is not used. */
  predicate Canonical(packed: seq<PackedRecord>) {
    && (forall k | 0 < k < |packed| :: packed[k].entries == [])
    && (packed != [] ==> CanonicalEntries(packed[0].entries))
  }

  predicate CanonicalEntries(entries: seq<PackedEntry>) {
    forall k | 0 <= k < |entries| ::
      && (IsTree(entries[k]) <==> k < |HeightsIn(entries)|) && (HasChunk(entries[k]) <==> k < |PackedChunksIn(entries)|)
      && (IsTree(entries[k]) || entries[k].digests == []) && (HasChunk(entries[k]) || entries[k].chunk == [])
  }

  /** Every tree that the entries name is a tree of the estimate, and a consistent list has no others. */
  lemma TreesOfConsistent(list: RemovalRecordList, packed: seq<PackedRecord>)
    requires HoldsEntries(list, packed) && IsConsistent(list) && CanBeEstimated(packed)
    ensures HeightsUp(BatchIndex(list.numLeafsAocl)) == HeightsIn(AllEntries(packed))
  {
    hide HeightsIn, StructuresIn, PackedChunksIn, LargestObserved, ArePacked, PeakHeights, AllEntries, IsConsistent, EstimateOf;
    var up, m := HeightsIn(AllEntries(packed)), EstimateOf(packed);
    SameLengths(AllEntries(packed));
    ConsistentTrees(list);
    AscendingReversed(up);
    assert EstimateOf(packed) == Estimate(LargestObserved(IndexSetsOf(packed), |PackedChunksIn(AllEntries(packed))|), Reverse(up)) by {
      EstimateOfIs(packed);
    }
    TreesOfEstimate(LargestObserved(IndexSetsOf(packed), |PackedChunksIn(AllEntries(packed))|), Reverse(up));
    assert Reverse(Reverse(up)) == up;
  }

  lemma EstimateOfIs(packed: seq<PackedRecord>)
    ensures EstimateOf(packed) == Estimate(LargestObserved(IndexSetsOf(packed), |PackedChunksIn(AllEntries(packed))|), Reverse(HeightsIn(AllEntries(packed))))
  {
  }

  lemma ConsistentTrees(list: RemovalRecordList)
    requires IsConsistent(list)
    ensures |list.structures| == |PeakHeights(BatchIndex(list.numLeafsAocl))|
  {
    hide ChunksBelow, PeakHeights, Sort;
  }

  /** Descending heights are all trees of their estimate, if there are as many. */
  lemma TreesOfEstimate(largest: nat, heights: seq<nat>)
    requires Descending(heights) && |heights| == |PeakHeights(Estimate(largest, heights))|
    ensures PeakHeights(Estimate(largest, heights)) == heights
  {
    hide Shift, Estimate, PeakHeights;
    var m := Estimate(largest, heights);
    PeakHeightsAreBits(m, 0);
    forall h | h in heights ensures h in PeakHeights(m) {
      var k :| 0 <= k < |heights| && heights[k] == h;
      EstimateHasBits(largest, heights, k);
      PeakHeightsAreBits(m, h);
    }
    WithinDescending(heights, PeakHeights(m));
  }

  lemma {:induction false} SameLengths(entries: seq<PackedEntry>)
    ensures |HeightsIn(entries)| == |StructuresIn(entries)|
    decreases |entries|
  {
    if entries != [] { SameLengths(entries[..|entries| - 1]); }
  }

  /** Where the entries are canonical, the k-th tree and the k-th chunk are at position k. */
  lemma {:induction false} CanonicalPlaces(entries: seq<PackedEntry>, k: nat)
    requires CanonicalEntries(entries) && k <= |entries|
    ensures var t, c := Min(k, |HeightsIn(entries)|), Min(k, |PackedChunksIn(entries)|);
            && |HeightsIn(entries[..k])| == t == |StructuresIn(entries[..k])| && |PackedChunksIn(entries[..k])| == c
            && (forall j | 0 <= j < t ::
                  IsTree(entries[j]) && HeightsIn(entries[..k])[j] == HeightOf(entries[j]) && StructuresIn(entries[..k])[j] == entries[j].digests)
            && (forall j | 0 <= j < c :: HasChunk(entries[j]) && PackedChunksIn(entries[..k])[j] == entries[j].chunk)
    decreases k
  {
    hide HeightsIn, StructuresIn, PackedChunksIn;
    if k == 0 {
      NothingIn();
      assert entries[..0] == [];
    } else {
      CanonicalPlaces(entries, k - 1);
      NextIn(entries, k - 1);
    }
  }

  lemma CanonicalIsPackedForm(list: RemovalRecordList, packed: seq<PackedRecord>)
    requires HoldsEntries(list, packed) && Decodable(AllEntries(packed)) && HeightsUp(BatchIndex(list.numLeafsAocl)) == HeightsIn(AllEntries(packed))
    ensures Canonical(packed) <==> IsPackedFormOf(packed, list)
  {
    hide HeightsUp, HeightsIn, StructuresIn, PackedChunksIn, IsPacked, EstimateOf, AllEntries;
    NothingIn();
    if forall k | 0 < k < |packed| :: packed[k].entries == [] {
      EntriesOfFirst(packed);
      var entries := AllEntries(packed);
      CanonicalIffEntries(entries, HeightsIn(entries), StructuresIn(entries), list.chunks);
    }
  }

  lemma CanonicalIffEntries(entries: seq<PackedEntry>, heights: seq<nat>, structures: seq<seq<Digest>>, chunks: seq<Chunk>)
    requires heights == HeightsIn(entries) && structures == StructuresIn(entries) && ArePacked(chunks, PackedChunksIn(entries)) && Decodable(entries)
    ensures CanonicalEntries(entries) <==> AreEntries(entries, heights, structures, chunks)
  {
    hide HeightsIn, StructuresIn, PackedChunksIn, IsPacked;
    HeightsBelowOffset(entries);
    SameLengths(entries);
    assert entries[..|entries|] == entries;
    if AreEntries(entries, heights, structures, chunks) {
      forall k | 0 <= k < |entries| { EntryTag(entries[k], k, heights, structures, chunks); }
    }
    if CanonicalEntries(entries) {
      CanonicalPlaces(entries, |entries|);
      forall k | 0 <= k < |entries| ensures k < Max(|heights|, |chunks|) && IsEntry(entries[k], k, heights, structures, chunks) {
        assert IsTree(entries[k]) || HasChunk(entries[k]);
      }
      if entries != [] {
        var last := |entries| - 1;
        assert IsTree(entries[last]) || HasChunk(entries[last]);
      }
    }
  }

  lemma {:induction false} HeightsBelowOffset(entries: seq<PackedEntry>)
    ensures forall h | h in HeightsIn(entries) :: h < HEIGHT_OFFSET
    decreases |entries|
  {
    if entries != [] { HeightsBelowOffset(entries[..|entries| - 1]); }
  }

  /** Decoding and encoding again gives back exactly the canonical forms. */
  method DecodeThenEncode(packed: seq<PackedRecord>) returns (r: DecodeResult, again: Option<seq<PackedRecord>>)
    ensures r.List? ==> again.Some? && (again.value == packed <==> Canonical(packed))
  {
    hide HeightsIn, StructuresIn, PackedChunksIn, IsPacked, IsConsistent, Canonical, Decodable, HeightsUp, CanBeEstimated, AllEntries, EstimateOf;
    r := DecodeFromVec(packed, RemovalRecordList([], [], [], 0), [], MutatorSet([], [], []));
    again := None;
    if r.List? {
      TreesOfConsistent(r.list, packed);
      SameLengths(AllEntries(packed));
      CanonicalIsPackedForm(r.list, packed);
      ChunksPackable(r.list.chunks, PackedChunksIn(AllEntries(packed)));
      NothingPacked(r.list, packed);
      again := EncodeAsVec(r.list);
      if Canonical(packed) { PackedListUnique(packed, again.value, r.list); }
    }
  }

  lemma ChunksPackable(chunks: seq<Chunk>, words: seq<WordList>)
    requires ArePacked(chunks, words)
    ensures forall k | 0 <= k < |chunks| :: Packable(chunks[k])
  {
    forall k | 0 <= k < |chunks| ensures Packable(chunks[k]) { assert IsPacked(chunks[k], words[k]); }
  }

  lemma NothingPacked(list: RemovalRecordList, packed: seq<PackedRecord>)
    requires HoldsEntries(list, packed)
    ensures list.indexSets == [] ==> list.chunks == [] && list.structures == []
  {
  }

  /** RemovalRecordList::validate_consistency. The lengths of the authentication structures are compared as sorted lists. */
  predicate IsConsistent(list: RemovalRecordList) {
    var m := BatchIndex(list.numLeafsAocl);
    var leafIndices, heights := ChunksBelow(list.indexSets, m), PeakHeights(m);
    && |leafIndices| == |list.chunks|
    && |list.structures| == |heights|
    && Sort(ExpectedLengths(leafIndices, m, heights)) == Sort(Lengths(list.structures))
  }

  function ExpectedLengths(leafIndices: set<nat>, m: nat, heights: seq<nat>): (r: seq<nat>)
    ensures |r| == |heights|
    ensures forall k | 0 <= k < |r| :: r[k] == |StructureNodes(InTree(leafIndices, m, heights[k]), heights[k])|
  {
    seq(|heights|, k requires 0 <= k < |heights| => |StructureNodes(InTree(leafIndices, m, heights[k]), heights[k])|)
  }

  function Lengths(structures: seq<seq<Digest>>): (r: seq<nat>)
    ensures |r| == |structures| && forall k | 0 <= k < |r| :: r[k] == |structures[k]|
  {
    seq(|structures|, k requires 0 <= k < |structures| => |structures[k]|)
  }

  lemma {:induction false} HonestParts(packed: seq<PackedRecord>, list: RemovalRecordList, records: seq<RemovalRecord>, ms: MutatorSet)
    requires Honest(packed, list, records, ms)
    ensures |packed| == |list.indexSets|
    ensures forall k | 0 <= k < |packed| :: list.indexSets[k] == packed[k].absoluteIndices && Fits(packed[k].absoluteIndices)
    ensures var heights := HeightsUp(BatchIndex(list.numLeafsAocl));
            && StrictlyAscending(heights) && (forall h | h in heights :: h < HEIGHT_OFFSET)
            && AreEntries(AllEntries(packed), heights, list.structures, list.chunks)
  {
    hide IsListOf, AreEntries, HeightsUp, DictionarySynced, AllEntries;
    EntriesOfFirst(packed);
    ListIndexSets(list, records, ms);
    forall k | 0 <= k < |packed| ensures Fits(packed[k].absoluteIndices) { assert Synced(records[k], ms); }
    ListBounds(list, records, ms);
    HeightsGoUp(BatchIndex(list.numLeafsAocl));
  }

  lemma {:induction false} ListIndexSets(list: RemovalRecordList, records: seq<RemovalRecord>, ms: MutatorSet)
    requires IsListOf(list, records, ms)
    ensures |list.indexSets| == |records| && forall k | 0 <= k < |records| :: list.indexSets[k] == records[k].absoluteIndices
  {
    hide Estimated, AreStructuresOf, AreChunksOf;
  }

  lemma {:induction false} ListBounds(list: RemovalRecordList, records: seq<RemovalRecord>, ms: MutatorSet)
    requires IsListOf(list, records, ms) && |ms.chunks| == BatchIndex(|ms.aocl|) && |ms.aocl| < LEAF_INDICES
    ensures BatchIndex(list.numLeafsAocl) <= |ms.chunks| < LEAF_INDICES && list.numLeafsAocl < LEAF_INDICES
  {
    hide Estimated, AreStructuresOf, AreChunksOf;
    EstimatedExplains(TouchedChunks(records), |ms.chunks|);
  }

  lemma {:induction false} HeightsGoUp(m: nat)
    requires m < LEAF_INDICES
    ensures StrictlyAscending(HeightsUp(m)) && forall h | h in HeightsUp(m) :: h < HEIGHT_OFFSET
  {
    hide PeakHeights, Pow2;
    PeakHeightsAreBits(m, 0);
    SixtyFourBits();
    PeakHeightsBelow(m, HEIGHT_OFFSET);
    var down, up := PeakHeights(m), HeightsUp(m);
    forall h | h in up ensures h in down {
      var k :| 0 <= k < |up| && up[k] == h;
      assert down[|down| - 1 - k] == h;
    }
  }

  lemma SixtyFourBits()
    ensures Pow2(64) == LEAF_INDICES
  {
    Widths();
    Pow2Sum(32, 32);
  }

  /** What comes from records in step is consistent. */
  lemma {:induction false} ListIsConsistent(list: RemovalRecordList, records: seq<RemovalRecord>, ms: MutatorSet)
    requires AllSynced(records, ms) && IsListOf(list, records, ms)
    ensures IsConsistent(list)
  {
    hide AllSynced, Ascending, ChunksBelow, Estimated, StructureNodes, InTree, AreDigestsOf, PeakHeights, Sort;
    var m, touched := BatchIndex(list.numLeafsAocl), TouchedChunks(records);
    HeightsMatch(records, ms, list);
    TouchedAreInactive(records, ms);
    BelowEstimate(list.indexSets, |ms.chunks|);
    var expected, lengths := ExpectedLengths(touched, m, PeakHeights(m)), Lengths(list.structures);
    forall k | 0 <= k < |lengths| ensures lengths[k] == Reverse(expected)[k] {
      StructureLength(list.structures, touched, m, ms.ChunkDigests(), k);
    }
    assert lengths == Reverse(expected);
    ReverseCounts(expected);
    SortedUnique(Sort(expected), Sort(lengths));
  }

  lemma StructureLength(structures: seq<seq<Digest>>, touched: set<nat>, m: nat, leafs: seq<Digest>, k: nat)
    requires AreStructuresOf(structures, touched, m, leafs) && k < |structures|
    ensures |structures[k]| == |StructureNodes(InTree(touched, m, HeightsUp(m)[k]), HeightsUp(m)[k])|
  {
    hide StructureNodes, InTree, HeightsUp;
  }

  lemma {:induction false} ReverseCounts(s: seq<nat>)
    ensures multiset(Reverse(s)) == multiset(s)
    decreases |s|
  {
    if s != [] {
      ReverseCounts(s[1..]);
      assert s == [s[0]] + s[1..];
      assert Reverse(s) == Reverse(s[1..]) + [s[0]];
    }
  }

  /** The largest chunk index that decoding takes is the largest one touched. */
  lemma {:induction false} HonestLargest(packed: seq<PackedRecord>, list: RemovalRecordList, records: seq<RemovalRecord>, ms: MutatorSet)
    requires Honest(packed, list, records, ms)
    ensures var n := |ms.chunks|;
            var observed := Ascending(ChunksBelow(list.indexSets, LEAF_INDICES));
            var heights := PeakHeights(BatchIndex(list.numLeafsAocl));
            && |list.chunks| <= |observed|
            && (list.chunks == [] ==> heights == [] && list.numLeafsAocl == 1)
            && (list.chunks != [] ==>
                  var largest := observed[|list.chunks| - 1];
                  && largest < n && DownToTreeOf(heights, n, largest)
                  && list.numLeafsAocl == Truncated(n, TreeHeight(n, largest)) * BATCH_SIZE + 1 < LEAF_INDICES)
  {
    hide AllSynced, Ascending, ChunksBelow, AreStructuresOf, IsPackedFormOf, TreeHeight, Truncated, DownToTreeOf, PeakHeights, TouchedChunks;
    var n, touched := |ms.chunks|, TouchedChunks(records);
    TouchedAreInactive(records, ms);
    ListBounds(list, records, ms);
    TouchedComeFirst(list.indexSets, n);
    AscendingPrefix(touched, ChunksBelow(list.indexSets, LEAF_INDICES));
    if touched == {} {
      NoPeaks();
    } else {
      HeightsOfEstimate(touched, n);
      LargestIsLast(touched);
    }
  }

  lemma {:induction false} HonestEstimate(packed: seq<PackedRecord>, list: RemovalRecordList, records: seq<RemovalRecord>, ms: MutatorSet)
    requires Honest(packed, list, records, ms)
    ensures IsConsistent(list) && list.numLeafsAocl < LEAF_INDICES
    ensures var n := |ms.chunks|;
            var observed := Ascending(ChunksBelow(list.indexSets, LEAF_INDICES));
            var heights := Reverse(HeightsUp(BatchIndex(list.numLeafsAocl)));
            && |list.chunks| <= |observed| && Descending(heights)
            && (list.chunks == [] ==> heights == [] && list.numLeafsAocl == 1)
            && (list.chunks != [] ==>
                  var largest := observed[|list.chunks| - 1];
                  && largest < n && DownToTreeOf(heights, n, largest)
                  && list.numLeafsAocl == Truncated(n, TreeHeight(n, largest)) * BATCH_SIZE + 1)
  {
    hide AllSynced, IsListOf, IsPackedFormOf, Ascending, ChunksBelow, DownToTreeOf, TreeHeight, Truncated, PeakHeights, IsConsistent;
    HonestLargest(packed, list, records, ms);
    ListIsConsistent(list, records, ms);
    ListBounds(list, records, ms);
    var down := PeakHeights(BatchIndex(list.numLeafsAocl));
    PeakHeightsAreBits(BatchIndex(list.numLeafsAocl), 0);
    assert Reverse(Reverse(down)) == down;
  }

  lemma NoPeaks()
    ensures PeakHeights(0) == []
  {
  }

  lemma LargestIsLast(s: set<nat>)
    requires s != {}
    ensures Largest(s) == Ascending(s)[|s| - 1]
  {
  }

  lemma TouchedComeFirst(indexSets: seq<seq<nat>>, n: nat)
    requires n <= LEAF_INDICES
    ensures ComesFirst(ChunksBelow(indexSets, n), ChunksBelow(indexSets, LEAF_INDICES))
  {
    var some, all := ChunksBelow(indexSets, n), ChunksBelow(indexSets, LEAF_INDICES);
    forall c | c in some ensures c in all {
      var k, i :| 0 <= k < |indexSets| && i in indexSets[k] && i / CHUNK_SIZE < n && i / CHUNK_SIZE == c;
      assert i / CHUNK_SIZE < LEAF_INDICES;
    }
    forall c | c in all && c !in some ensures IsAbove(c, some) {
      var k, i :| 0 <= k < |indexSets| && i in indexSets[k] && i / CHUNK_SIZE < LEAF_INDICES && i / CHUNK_SIZE == c;
      assert c >= n;
    }
  }

  /** The trees of the estimate are those down to the tree of the largest index. */
  lemma {:induction false} HeightsOfEstimate(touched: set<nat>, n: nat)
    requires touched != {} && forall c | c in touched :: c < n
    ensures DownToTreeOf(PeakHeights(Estimated(touched, n)), n, Largest(touched))
  {
    hide PeakHeights, Shift, TreeHeight;
    var largest, m := Largest(touched), Estimated(touched, n);
    var low, heights := TreeHeight(n, largest), PeakHeights(m);
    HeightIffLast(n, largest, low);
    TruncatedAbove(n, low, low);
    PeakHeightsAreBits(m, low);
    forall k | 0 <= k < |heights| ensures heights[k] >= low && Shift(n, heights[k]) % 2 == 1 {
      assert heights[k] in heights;
      PeakHeightsAreBits(m, heights[k]);
      if heights[k] < low { LowBitsClear(Shift(n, low), low, heights[k]); }
      TruncatedAbove(n, low, if heights[k] < low then low else heights[k]);
    }
    LowestIsLast(heights, low);
  }

  lemma LowestIsLast(heights: seq<nat>, low: nat)
    requires Descending(heights) && low in heights && forall k | 0 <= k < |heights| :: heights[k] >= low
    ensures heights[|heights| - 1] == low
  {
  }

  lemma {:induction false} LowBitsClear(q: nat, low: nat, h: nat)
    requires h < low
    ensures Shift(q * Pow2(low), h) % 2 == 0
    decreases h
  {
    assert q * Pow2(low) == 2 * (q * Pow2(low - 1));
    if h > 0 { LowBitsClear(q, low - 1, h - 1); }
  }
}
