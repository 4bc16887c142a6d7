/** Lists of removal records without redundant authentication data: packed into fewer digests and unpacked again. */
module RemovalRecordLists {
  import opened Options
  import opened Digests
  import opened MountainRange
  import opened PostOrder
  import opened Sorting
  import opened ActiveWindows
  import opened MutatorSets
  import opened RemovalRecords
  import opened MutatorSetAccumulators
  import opened RecordUpdates
  import opened LeafCountEstimates
  import opened SparseMountainRanges
  import opened ChunkPackings

  // ---------- sorted and without duplicates ----------

  predicate StrictlyAscending(s: seq<nat>) {
    forall j, k | 0 <= j < k < |s| :: s[j] < s[k]
  }

  lemma {:induction false} LeastExists(s: set<nat>)
    requires s != {}
    ensures exists x :: IsLeast(x, s)
    decreases |s|
  {
    var y :| y in s;
    var rest := s - {y};
    assert forall x | x in s :: x == y || x in rest;
    if rest == {} {
      assert IsLeast(y, s);
    } else {
      LeastExists(rest);
      var z :| IsLeast(z, rest);
      assert IsLeast(y, s) || IsLeast(z, s);
    }
  }

  predicate IsLeast(x: nat, s: set<nat>) {
    x in s && forall y | y in s :: x <= y
  }

  /** The elements in ascending order. */
  function Ascending(s: set<nat>): (r: seq<nat>)
    ensures |r| == |s| && StrictlyAscending(r) && forall x :: x in r <==> x in s
    decreases |s|
  {
    if s == {} then []
    else
      LeastExists(s);
      var x :| IsLeast(x, s);
      var rest := Ascending(s - {x});
      assert forall k | 0 <= k < |rest| :: rest[k] in rest;
      [x] + rest
  }

  lemma AscendingCons(s: set<nat>, x: nat)
    requires IsLeast(x, s)
    ensures Ascending(s) == [x] + Ascending(s - {x})
  {
  }

  /** What is in one set and not in the other comes later. */
  ghost predicate ComesFirst(s: set<nat>, all: set<nat>) {
    s <= all && forall y | y in all && y !in s :: IsAbove(y, s)
  }

  ghost predicate IsAbove(y: nat, s: set<nat>) {
    forall x | x in s :: x < y
  }

  /** If all other elements come later, the first ones are those of the subset. */
  lemma {:induction false} AscendingPrefix(s: set<nat>, all: set<nat>)
    requires ComesFirst(s, all)
    ensures |s| <= |all| && Ascending(all)[..|s|] == Ascending(s)
    decreases |s|
  {
    hide Ascending;
    if s != {} {
      LeastExists(s);
      var x :| IsLeast(x, s);
      assert IsLeast(x, all) by {
        forall y | y in all ensures x <= y {
          if y !in s { assert IsAbove(y, s); }
        }
      }
      assert ComesFirst(s - {x}, all - {x}) by {
        forall y | y in all - {x} && y !in s - {x} ensures IsAbove(y, s - {x}) { assert IsAbove(y, s); }
      }
      AscendingPrefix(s - {x}, all - {x});
      AscendingCons(s, x);
      AscendingCons(all, x);
    }
  }

  // ---------- the trees of a mountain range ----------

  function OneHigher(heights: seq<nat>): (r: seq<nat>)
    ensures |r| == |heights| && forall k | 0 <= k < |r| :: r[k] == heights[k] + 1
  {
    seq(|heights|, k requires 0 <= k < |heights| => heights[k] + 1)
  }

  /** get_peak_heights: the set bits of the leaf count, highest first. */
  function PeakHeights(n: nat): seq<nat> {
    if n == 0 then [] else OneHigher(PeakHeights(n / 2)) + if n % 2 == 1 then [0] else []
  }

  lemma {:induction false} PeakHeightsAreBits(n: nat, h: nat)
    ensures Descending(PeakHeights(n))
    ensures h in PeakHeights(n) <==> Shift(n, h) % 2 == 1
    decreases n
  {
    if n == 0 {
      ShiftZero(h);
    } else {
      var up := PeakHeights(n / 2);
      PeakHeightsAreBits(n / 2, if h > 0 then h - 1 else 0);
      assert h > 0 ==> (h in OneHigher(up) <==> h - 1 in up);
    }
  }

  /** The leafs, of those given, that are in the tree of height h. */
  function InTree(leafIndices: set<nat>, n: nat, h: nat): set<nat> {
    set i | i in leafIndices && i < n && TreeHeight(n, i) == h
  }

  lemma {:induction false} PeakHeightsBelow(n: nat, bits: nat)
    requires n < Pow2(bits)
    ensures forall h | h in PeakHeights(n) :: h < bits
    decreases bits
  {
    if n > 0 {
      PeakHeightsBelow(n / 2, bits - 1);
      var up := PeakHeights(n / 2);
      assert forall k | 0 <= k < |up| :: up[k] in up;
    }
  }

  // ---------- what records touch ----------

  function TouchedChunks(records: seq<RemovalRecord>): set<nat> {
    set k, c | 0 <= k < |records| && c in records[k].targetChunks :: c
  }

  function IndexSets(records: seq<RemovalRecord>): (r: seq<seq<nat>>)
    ensures |r| == |records|
  {
    seq(|records|, k requires 0 <= k < |records| => records[k].absoluteIndices)
  }

  /** The chunks with indices below n that the index sets touch. */
  function ChunksBelow(indexSets: seq<seq<nat>>, n: nat): set<nat> {
    set k, i | 0 <= k < |indexSets| && i in indexSets[k] && i / CHUNK_SIZE < n :: i / CHUNK_SIZE
  }

  /** Records in step carry the inactive chunks that their indices touch. */
  lemma TouchedAreInactive(records: seq<RemovalRecord>, ms: MutatorSet)
    requires AllSynced(records, ms)
    ensures TouchedChunks(records) == ChunksBelow(IndexSets(records), |ms.chunks|)
  {
    hide Path;
    var sets := IndexSets(records);
    forall c: nat ensures c in TouchedChunks(records) <==> c in ChunksBelow(sets, |ms.chunks|) {
      if c in TouchedChunks(records) {
        var k :| 0 <= k < |records| && c in records[k].targetChunks;
        assert c in InactiveChunks(sets[k], |ms.chunks|);
      }
      if c in ChunksBelow(sets, |ms.chunks|) {
        var k, i :| 0 <= k < |sets| && i in sets[k] && i / CHUNK_SIZE < |ms.chunks| && i / CHUNK_SIZE == c;
        assert c in InactiveChunks(records[k].absoluteIndices, |ms.chunks|);
      }
    }
  }

  /** The largest element, or 0 if there is none. */
  function Largest(s: set<nat>): (x: nat)
    ensures s != {} ==> x in s
    ensures forall y | y in s :: y <= x
  {
    var r := Ascending(s);
    if s == {} then 0
    else
      assert r[|r| - 1] in r;
      assert forall y | y in r :: exists k :: 0 <= k < |r| && r[k] == y;
      r[|r| - 1]
  }

  /** The number of chunks that the observed paths call for, when there are really n. */
  ghost function Estimated(touched: set<nat>, n: nat): nat
    requires forall c | c in touched :: c < n
  {
    if touched == {} then 0 else Truncated(n, TreeHeight(n, Largest(touched)))
  }

  lemma EstimatedExplains(touched: set<nat>, n: nat)
    requires forall c | c in touched :: c < n
    ensures Estimated(touched, n) <= n
    ensures forall c | c in touched :: c < Estimated(touched, n) && TreeHeight(Estimated(touched, n), c) == TreeHeight(n, c)
  {
    hide TreeHeight, Truncated;
    if touched != {} {
      var largest := Largest(touched);
      TruncatedBelow(n, TreeHeight(n, largest));
      forall c | c in touched
        ensures c < Estimated(touched, n) && TreeHeight(Estimated(touched, n), c) == TreeHeight(n, c)
      {
        EstimateIsViable(n, largest, c);
      }
    }
  }

  /** The estimate is small enough to exclude chunks that are in the window, and large enough for all others. */
  lemma BelowEstimate(indexSets: seq<seq<nat>>, n: nat)
    ensures var touched := ChunksBelow(indexSets, n);
            (forall c | c in touched :: c < n) && ChunksBelow(indexSets, Estimated(touched, n)) == touched
  {
    hide Estimated;
    var touched := ChunksBelow(indexSets, n);
    EstimatedExplains(touched, n);
    var m := Estimated(touched, n);
    forall c: nat ensures c in ChunksBelow(indexSets, m) <==> c in touched {
      if c in touched {
        var k, i :| 0 <= k < |indexSets| && i in indexSets[k] && i / CHUNK_SIZE < n && i / CHUNK_SIZE == c;
        assert i / CHUNK_SIZE < m;
      }
    }
  }

  function PathLengths(records: seq<RemovalRecord>): set<nat> {
    set k, c | 0 <= k < |records| && c in records[k].targetChunks :: |records[k].targetChunks[c].path|
  }

  /** Every path length of records in step is the height of a touched chunk's tree, and no lower than the largest's. */
  lemma LengthIsHeight(records: seq<RemovalRecord>, ms: MutatorSet, h: nat)
    requires AllSynced(records, ms) && h in PathLengths(records)
    ensures Largest(TouchedChunks(records)) < |ms.chunks| && Shift(|ms.chunks|, h) % 2 == 1
    ensures TreeHeight(|ms.chunks|, Largest(TouchedChunks(records))) <= h
  {
    hide Path, TreeHeight, Shift, Ascending;
    var n := |ms.chunks|;
    var k, c :| 0 <= k < |records| && c in records[k].targetChunks && |records[k].targetChunks[c].path| == h;
    TouchedExists(records, ms);
    assert Synced(records[k], ms) && c in TouchedChunks(records);
    PathLength(ms.ChunkDigests(), c);
    HeightIffLast(n, c, h);
    HeightsDescend(n, c, Largest(TouchedChunks(records)));
  }

  lemma TouchedExists(records: seq<RemovalRecord>, ms: MutatorSet)
    requires AllSynced(records, ms)
    ensures forall c | c in TouchedChunks(records) :: c < |ms.chunks|
  {
    hide Path;
    forall c | c in TouchedChunks(records) ensures c < |ms.chunks| {
      var k :| 0 <= k < |records| && c in records[k].targetChunks;
      assert Synced(records[k], ms);
    }
  }

  /** The path lengths of records in step are heights of trees, the lowest of them that of the largest chunk index. */
  lemma LengthsAreHeights(records: seq<RemovalRecord>, ms: MutatorSet)
    requires AllSynced(records, ms) && TouchedChunks(records) != {}
    ensures Largest(TouchedChunks(records)) < |ms.chunks|
    ensures DownToTreeOf(Reverse(Ascending(PathLengths(records))), |ms.chunks|, Largest(TouchedChunks(records)))
  {
    hide Path, TreeHeight, Shift, Ascending, AllSynced, Largest;
    var n, largest, lengths := |ms.chunks|, Largest(TouchedChunks(records)), PathLengths(records);
    TouchedExists(records, ms);
    LargestLength(records, ms);
    forall h | h in lengths ensures Shift(n, h) % 2 == 1 && TreeHeight(n, largest) <= h { LengthIsHeight(records, ms, h); }
    LeastComesFirst(lengths, TreeHeight(n, largest));
    var up := Ascending(lengths);
    forall k | 0 <= k < |up| ensures up[k] in lengths { assert up[k] in up; }
  }

  lemma LargestLength(records: seq<RemovalRecord>, ms: MutatorSet)
    requires AllSynced(records, ms) && TouchedChunks(records) != {}
    ensures var largest := Largest(TouchedChunks(records));
            largest < |ms.chunks| && TreeHeight(|ms.chunks|, largest) in PathLengths(records)
  {
    hide Path, TreeHeight;
    var largest := Largest(TouchedChunks(records));
    var k :| 0 <= k < |records| && largest in records[k].targetChunks;
    assert Synced(records[k], ms);
    PathLength(ms.ChunkDigests(), largest);
    assert |records[k].targetChunks[largest].path| in PathLengths(records);
  }

  lemma LeastComesFirst(s: set<nat>, x: nat)
    requires IsLeast(x, s)
    ensures Ascending(s) != [] && Ascending(s)[0] == x
  {
    AscendingCons(s, x);
  }

  // ---------- from records to the list ----------

  /** RemovalRecordList: one authentication structure for each tree, lowest tree first, and the chunks in order. */
  datatype RemovalRecordList = RemovalRecordList(indexSets: seq<seq<nat>>, structures: seq<seq<Digest>>, chunks: seq<Chunk>, numLeafsAocl: nat)

  ghost predicate AreDigestsOf(digests: seq<Digest>, nodes: seq<Node>, leafs: seq<Digest>) {
    && |digests| == |nodes|
    && forall k | 0 <= k < |nodes| :: nodes[k].position < |Level(leafs, nodes[k].level)| && digests[k] == Level(leafs, nodes[k].level)[nodes[k].position]
  }

  function HeightsUp(n: nat): seq<nat> {
    Reverse(PeakHeights(n))
  }

  ghost predicate AreStructuresOf(structures: seq<seq<Digest>>, touched: set<nat>, m: nat, leafs: seq<Digest>) {
    && |structures| == |HeightsUp(m)|
    && forall k | 0 <= k < |structures| ::
         AreDigestsOf(structures[k], StructureNodes(InTree(touched, m, HeightsUp(m)[k]), HeightsUp(m)[k]), leafs)
  }

  /** The chunks of the mutator set with these indices. */
  ghost predicate AreChunksOf(chunks: seq<Chunk>, touched: set<nat>, ms: MutatorSet) {
    && |chunks| == |touched|
    && forall k | 0 <= k < |chunks| :: Ascending(touched)[k] < |ms.chunks| && chunks[k] == ms.chunks[Ascending(touched)[k]]
  }

  /** The list has what the records have. */
  ghost predicate IsListOf(list: RemovalRecordList, records: seq<RemovalRecord>, ms: MutatorSet) {
    var touched := TouchedChunks(records);
    && (forall c | c in touched :: c < |ms.chunks|)
    && list.indexSets == IndexSets(records)
    && list.numLeafsAocl == Estimated(touched, |ms.chunks|) * BATCH_SIZE + 1
    && AreStructuresOf(list.structures, touched, Estimated(touched, |ms.chunks|), ms.ChunkDigests())
    && AreChunksOf(list.chunks, touched, ms)
  }

  /** RemovalRecordList::convert_from_vec. The records are in step with one mutator set, as the code trusts them to be. */
  method ConvertFromVec(records: seq<RemovalRecord>, ghost ms: MutatorSet) returns (list: RemovalRecordList)
    requires AllSynced(records, ms)
    ensures IsListOf(list, records, ms)
  {
    hide Path, AllSynced, Ascending, Largest, TouchedChunks, PathLengths, DownToTreeOf, Estimated;
    var touched := TouchedChunks(records);
    TouchedExists(records, ms);
    if touched != {} { LengthsAreHeights(records, ms); }
    var heights := Reverse(Ascending(PathLengths(records)));
    var estimate := EstimateNumLeafs(Largest(touched), heights, |ms.chunks|);
    EstimateFound(records, ms, estimate);
    list := FromRemovalRecords(records, estimate * BATCH_SIZE + 1, ms);
  }

  lemma EstimateFound(records: seq<RemovalRecord>, ms: MutatorSet, estimate: nat)
    requires AllSynced(records, ms)
    requires forall c | c in TouchedChunks(records) :: c < |ms.chunks|
    requires var n, largest := |ms.chunks|, Largest(TouchedChunks(records));
             && (TouchedChunks(records) != {} ==> largest < n && estimate == Truncated(n, TreeHeight(n, largest)))
             && (PathLengths(records) == {} ==> estimate == largest)
    ensures estimate == Estimated(TouchedChunks(records), |ms.chunks|)
  {
    if TouchedChunks(records) == {} {
      forall k, c | 0 <= k < |records| ensures c !in records[k].targetChunks {
        assert c in records[k].targetChunks ==> c in TouchedChunks(records);
      }
      assert PathLengths(records) == {};
    }
  }

  /** RemovalRecordList::from_removal_records */
  method FromRemovalRecords(records: seq<RemovalRecord>, numLeafsAocl: nat, ghost ms: MutatorSet) returns (list: RemovalRecordList)
    requires AllSynced(records, ms) && forall c | c in TouchedChunks(records) :: c < |ms.chunks|
    requires numLeafsAocl == Estimated(TouchedChunks(records), |ms.chunks|) * BATCH_SIZE + 1
    ensures IsListOf(list, records, ms)
  {
    hide Path, AllSynced, Ascending, TouchedChunks, Estimated, HasPath, PartOf, AreDigestsOf, InTree, StructureNodes, HeightsUp, TreeHeight;
    var m, touched := BatchIndex(numLeafsAocl), TouchedChunks(records);
    EstimatedExplains(touched, |ms.chunks|);
    var nodes := SparseNodesOf(records, ms);
    var heights := HeightsUp(m);
    var structures: seq<seq<Digest>> := [];
    for k := 0 to |heights|
      invariant |structures| == k
      invariant forall j | 0 <= j < k :: AreDigestsOf(structures[j], StructureNodes(InTree(touched, m, heights[j]), heights[j]), ms.ChunkDigests())
    {
      HavePathsInTree(nodes, touched, m, |ms.chunks|, heights[k]);
      var digests := StructureOf(nodes, InTree(touched, m, heights[k]), heights[k], ms.ChunkDigests());
      structures := structures + [digests];
    }
    var chunks := ChunksInOrder(records, ms);
    list := RemovalRecordList(IndexSets(records), structures, chunks, numLeafsAocl);
  }

  lemma HavePathsInTree(nodes: SparseNodes, touched: set<nat>, m: nat, n: nat, h: nat)
    requires forall c | c in touched :: c < n && HasPath(nodes, c, TreeHeight(n, c))
    requires forall c | c in touched :: c < m && TreeHeight(m, c) == TreeHeight(n, c)
    ensures forall i | i in InTree(touched, m, h) :: HasPath(nodes, i, h)
  {
    hide HasPath, TreeHeight;
  }

  /** The nodes on and beside the paths of all touched chunks. */
  method SparseNodesOf(records: seq<RemovalRecord>, ghost ms: MutatorSet) returns (nodes: SparseNodes)
    requires AllSynced(records, ms)
    ensures PartOf(nodes, ms.ChunkDigests())
    ensures forall c | c in TouchedChunks(records) :: c < |ms.chunks| && HasPath(nodes, c, TreeHeight(|ms.chunks|, c))
  {
    hide Path, TreeHeight, HasPath;
    nodes := map[];
    for k := 0 to |records|
      invariant PartOf(nodes, ms.ChunkDigests())
      invariant forall j, c | 0 <= j < k && c in records[j].targetChunks :: c < |ms.chunks| && HasPath(nodes, c, TreeHeight(|ms.chunks|, c))
    {
      ghost var was := nodes;
      nodes := AddDictionary(nodes, records[k].targetChunks, ms);
      forall j, c | 0 <= j < k && c in records[j].targetChunks ensures HasPath(nodes, c, TreeHeight(|ms.chunks|, c)) {
        HasPathStill(was, nodes, c, TreeHeight(|ms.chunks|, c));
      }
    }
  }

  method AddDictionary(nodes: SparseNodes, dictionary: ChunkDictionary, ghost ms: MutatorSet) returns (more: SparseNodes)
    requires PartOf(nodes, ms.ChunkDigests()) && IsPartOf(dictionary, ms)
    ensures PartOf(more, ms.ChunkDigests()) && nodes.Keys <= more.Keys
    ensures forall c | c in dictionary :: c < |ms.chunks| && HasPath(more, c, TreeHeight(|ms.chunks|, c))
  {
    hide Path, TreeHeight, HasPath;
    more := nodes;
    var todo := dictionary.Keys;
    while todo != {}
      invariant todo <= dictionary.Keys && PartOf(more, ms.ChunkDigests()) && nodes.Keys <= more.Keys
      invariant forall c | c in dictionary && c !in todo :: c < |ms.chunks| && HasPath(more, c, TreeHeight(|ms.chunks|, c))
    {
      var c :| c in todo;
      ghost var was := more;
      PathLength(ms.ChunkDigests(), c);
      more := AddPath(more, c, HashNats(dictionary[c].chunk), dictionary[c].path, ms.ChunkDigests());
      forall d | d in dictionary && d !in todo ensures HasPath(more, d, TreeHeight(|ms.chunks|, d)) {
        HasPathStill(was, more, d, TreeHeight(|ms.chunks|, d));
      }
      todo := todo - {c};
    }
  }

  lemma HasPathStill(before: SparseNodes, after: SparseNodes, i: nat, h: nat)
    requires HasPath(before, i, h) && before.Keys <= after.Keys
    ensures HasPath(after, i, h)
  {
  }

  /** The digests of one tree's authentication structure. */
  method StructureOf(nodes: SparseNodes, leafIndices: set<nat>, h: nat, ghost leafs: seq<Digest>) returns (digests: seq<Digest>)
    requires PartOf(nodes, leafs) && forall i | i in leafIndices :: HasPath(nodes, i, h)
    ensures AreDigestsOf(digests, StructureNodes(leafIndices, h), leafs)
  {
    hide PartOf, InOrder;
    var structure := StructureNodes(leafIndices, h);
    StructureIsKnown(nodes, leafIndices, h);
    digests := [];
    for k := 0 to |structure|
      invariant |digests| == k
      invariant forall j | 0 <= j < k :: structure[j] in nodes && digests[j] == nodes[structure[j]]
    {
      assert structure[k] in structure;
      digests := digests + [nodes[structure[k]]];
    }
    DigestsArePart(nodes, structure, digests, leafs);
  }

  lemma StructureIsKnown(nodes: SparseNodes, leafIndices: set<nat>, h: nat)
    requires forall i | i in leafIndices :: HasPath(nodes, i, h)
    ensures forall node | node in StructureNodes(leafIndices, h) :: node in nodes
  {
    hide InOrder;
    forall node | node in BesidePaths(leafIndices, h) ensures node in nodes {
      var i, j: nat :| i in leafIndices && j < h && node == SiblingOf(Ancestor(i, j));
      assert HasPath(nodes, i, h);
    }
  }

  lemma DigestsArePart(nodes: SparseNodes, structure: seq<Node>, digests: seq<Digest>, leafs: seq<Digest>)
    requires PartOf(nodes, leafs) && |digests| == |structure|
    requires forall k | 0 <= k < |structure| :: structure[k] in nodes && digests[k] == nodes[structure[k]]
    ensures AreDigestsOf(digests, structure, leafs)
  {
  }

  /** Every touched chunk once, in order. */
  method ChunksInOrder(records: seq<RemovalRecord>, ghost ms: MutatorSet) returns (chunks: seq<Chunk>)
    requires AllSynced(records, ms)
    ensures AreChunksOf(chunks, TouchedChunks(records), ms)
  {
    hide Ascending, AllSynced, TouchedChunks;
    var found := FindChunks(records, ms);
    var order := Ascending(found.Keys);
    chunks := [];
    for k := 0 to |order|
      invariant |chunks| == k
      invariant forall j | 0 <= j < k :: order[j] in found && chunks[j] == found[order[j]]
    {
      assert order[k] in order;
      chunks := chunks + [found[order[k]]];
    }
  }

  /** The chunks by index. No two records disagree about one. */
  method FindChunks(records: seq<RemovalRecord>, ghost ms: MutatorSet) returns (found: map<nat, Chunk>)
    requires AllSynced(records, ms)
    ensures found.Keys == TouchedChunks(records) && forall c | c in found :: c < |ms.chunks| && found[c] == ms.chunks[c]
  {
    hide AllSynced, TouchedChunks;
    found := map[];
    assert records[..0] == [];
    TouchedNone();
    for k := 0 to |records|
      invariant found.Keys == TouchedChunks(records[..k])
      invariant forall c | c in found :: c < |ms.chunks| && found[c] == ms.chunks[c]
    {
      var dictionary := records[k].targetChunks;
      EntriesAreChunks(records, k, ms);
      assert forall c | c in dictionary && c in found :: found[c] == dictionary[c].chunk;
      TouchedSnoc(records, k);
      found := found + map c | c in dictionary :: dictionary[c].chunk;
    }
    assert records[..|records|] == records;
  }

  lemma TouchedNone()
    ensures TouchedChunks([]) == {}
  {
  }

  lemma EntriesAreChunks(records: seq<RemovalRecord>, k: nat, ms: MutatorSet)
    requires AllSynced(records, ms) && k < |records|
    ensures var dictionary := records[k].targetChunks; forall c | c in dictionary :: c < |ms.chunks| && dictionary[c].chunk == ms.chunks[c]
  {
    hide Path;
    assert Synced(records[k], ms);
  }

  lemma TouchedSnoc(records: seq<RemovalRecord>, k: nat)
    requires k < |records|
    ensures TouchedChunks(records[..k + 1]) == TouchedChunks(records[..k]) + records[k].targetChunks.Keys
  {
    var some, more := records[..k], records[..k + 1];
    forall c: nat ensures c in TouchedChunks(more) <==> c in TouchedChunks(some) || c in records[k].targetChunks {
      if c in TouchedChunks(some) {
        var j :| 0 <= j < |some| && c in some[j].targetChunks;
        assert c in more[j].targetChunks;
      }
      if c in records[k].targetChunks { assert c in more[k].targetChunks; }
      if c in TouchedChunks(more) && c !in records[k].targetChunks {
        var j :| 0 <= j < |more| && c in more[j].targetChunks;
        assert c in some[j].targetChunks;
      }
    }
  }
}
