/** Removal records out of a list without redundant authentication data, and the round trip through the packed form. */
module UnpackedRecords {
  import opened Options
  import opened Digests
  import opened MountainRange
  import opened PostOrder
  import opened Sorting
  import opened ActiveWindows
  import opened MutatorSets
  import opened RemovalRecords
  import opened RecordUpdates
  import opened LeafCountEstimates
  import opened SparseMountainRanges
  import opened RemovalRecordLists
  import opened ChunkPackings
  import opened PackedRecords

  // ---------- forbidden digests ----------
  // The code asserts that none of the digests it is given starts with the hexadecimal digits be450642. Which digests do is
  // a parameter.

  ghost predicate AnyForbidden(nodes: SparseNodes, forbidden: Digest -> bool) {
    exists node | node in nodes :: forbidden(nodes[node])
  }

  ghost predicate ForbiddenAmong(digests: seq<Digest>, forbidden: Digest -> bool) {
    exists k | 0 <= k < |digests| :: forbidden(digests[k])
  }

  /** A digest of a chunk or of a structure is forbidden. */
  ghost predicate HasForbidden(list: RemovalRecordList, forbidden: Digest -> bool) {
    ForbiddenAmong(DigestsOf(list.chunks), forbidden) || ForbiddenInAny(list.structures, forbidden)
  }

  ghost predicate ForbiddenInAny(structures: seq<seq<Digest>>, forbidden: Digest -> bool) {
    exists k | 0 <= k < |structures| :: ForbiddenAmong(structures[k], forbidden)
  }

  lemma ForbiddenStep(nodes: SparseNodes, node: Node, digest: Digest, forbidden: Digest -> bool)
    requires node in nodes ==> nodes[node] == digest
    ensures AnyForbidden(nodes[node := digest], forbidden) <==> AnyForbidden(nodes, forbidden) || forbidden(digest)
  {
    var more := nodes[node := digest];
    if AnyForbidden(nodes, forbidden) {
      var other :| other in nodes && forbidden(nodes[other]);
      assert other in more && forbidden(more[other]);
    }
    if forbidden(digest) { assert node in more && forbidden(more[node]); }
  }

  lemma ForbiddenSnoc(digests: seq<Digest>, k: nat, forbidden: Digest -> bool)
    requires k < |digests|
    ensures ForbiddenAmong(digests[..k + 1], forbidden) <==> ForbiddenAmong(digests[..k], forbidden) || forbidden(digests[k])
  {
    var some, more := digests[..k], digests[..k + 1];
    if ForbiddenAmong(some, forbidden) {
      var j :| 0 <= j < |some| && forbidden(some[j]);
      assert forbidden(more[j]);
    }
    if forbidden(digests[k]) { assert forbidden(more[k]); }
    if ForbiddenAmong(more, forbidden) && !forbidden(digests[k]) {
      var j :| 0 <= j < |more| && forbidden(more[j]);
      assert forbidden(some[j]);
    }
  }

  // ---------- the known nodes ----------

  /** The hashes of the chunks, at the leafs. */
  method AddLeafs(order: seq<nat>, chunks: seq<Chunk>, m: nat, forbidden: Digest -> bool, ghost leafs: seq<Digest>)
    returns (nodes: SparseNodes)
    requires |order| == |chunks| && forall k | 0 <= k < |order| :: order[k] < m
    ensures forall node | node in nodes :: Exists(node, m)
    ensures forall k | 0 <= k < |order| :: Ancestor(order[k], 0) in nodes
    ensures (forall k | 0 <= k < |order| :: order[k] < |leafs| && HashNats(chunks[k]) == leafs[order[k]]) ==>
              PartOf(nodes, leafs) && (AnyForbidden(nodes, forbidden) <==> ForbiddenAmong(DigestsOf(chunks), forbidden))
  {
    hide AnyForbidden, ForbiddenAmong;
    ghost var honest := forall k | 0 <= k < |order| :: order[k] < |leafs| && HashNats(chunks[k]) == leafs[order[k]];
    nodes := map[];
    NothingForbidden(forbidden);
    ghost var digests := DigestsOf(chunks);
    assert digests[..0] == [];
    for k := 0 to |order|
      invariant forall node | node in nodes :: Exists(node, m)
      invariant forall j | 0 <= j < k :: Ancestor(order[j], 0) in nodes
      invariant honest ==> PartOf(nodes, leafs) && (AnyForbidden(nodes, forbidden) <==> ForbiddenAmong(digests[..k], forbidden))
    {
      var digest := HashNats(chunks[k]);
      if honest {
        ForbiddenStep(nodes, Ancestor(order[k], 0), digest, forbidden);
        ForbiddenSnoc(digests, k, forbidden);
      }
      nodes := nodes[Ancestor(order[k], 0) := digest];
    }
    assert digests[..|digests|] == digests;
  }

  lemma NothingForbidden(forbidden: Digest -> bool)
    ensures !AnyForbidden(map[], forbidden) && !ForbiddenAmong([], forbidden)
  {
  }

  /** The digests of one structure, at its nodes. */
  method AddStructure(nodes: SparseNodes, structure: seq<Node>, digests: seq<Digest>, m: nat, forbidden: Digest -> bool, ghost leafs: seq<Digest>)
    returns (more: SparseNodes)
    requires |digests| == |structure|
    requires (forall node | node in nodes :: Exists(node, m)) && forall node | node in structure :: Exists(node, m)
    ensures forall node | node in more :: Exists(node, m)
    ensures nodes.Keys <= more.Keys && forall node | node in structure :: node in more
    ensures PartOf(nodes, leafs) && AreDigestsOf(digests, structure, leafs) ==>
              PartOf(more, leafs) && (AnyForbidden(more, forbidden) <==> AnyForbidden(nodes, forbidden) || ForbiddenAmong(digests, forbidden))
  {
    hide AnyForbidden, ForbiddenAmong, Exists;
    ghost var honest := PartOf(nodes, leafs) && AreDigestsOf(digests, structure, leafs);
    more := nodes;
    NothingForbidden(forbidden);
    assert digests[..0] == [];
    for k := 0 to |structure|
      invariant forall node | node in more :: Exists(node, m)
      invariant nodes.Keys <= more.Keys && forall j | 0 <= j < k :: structure[j] in more
      invariant honest ==> PartOf(more, leafs)
      invariant honest ==> (AnyForbidden(more, forbidden) <==> AnyForbidden(nodes, forbidden) || ForbiddenAmong(digests[..k], forbidden))
    {
      assert structure[k] in structure;
      if honest {
        ForbiddenStep(more, structure[k], digests[k], forbidden);
        ForbiddenSnoc(digests, k, forbidden);
      }
      more := more[structure[k] := digests[k]];
    }
    assert digests[..|digests|] == digests;
  }

  /** The node beside a path exists, below the root. */
  lemma {:induction false} SiblingExists(n: nat, i: nat, j: nat)
    requires i < n && j < TreeHeight(n, i)
    ensures Sibling(Shift(i, j)) < Shift(n, j)
    decreases j
  {
    if j > 0 { SiblingExists(n / 2, i / 2, j - 1); }
  }

  lemma StructureExists(known: set<nat>, m: nat, h: nat)
    ensures forall node | node in StructureNodes(InTree(known, m, h), h) :: Exists(node, m)
  {
    hide InOrder;
    var inTree := InTree(known, m, h);
    forall node | node in BesidePaths(inTree, h) ensures Exists(node, m) {
      var i, j: nat :| i in inTree && j < h && node == SiblingOf(Ancestor(i, j));
      SiblingExists(m, i, j);
    }
  }

  /** All structures, tree by tree. None where the code panics because a structure has the wrong length. */
  method AddStructures(nodes: SparseNodes, known: set<nat>, structures: seq<seq<Digest>>, m: nat, forbidden: Digest -> bool, ghost leafs: seq<Digest>)
    returns (r: Option<SparseNodes>)
    requires |structures| == |HeightsUp(m)|
    requires (forall node | node in nodes :: Exists(node, m)) && forall c | c in known :: Ancestor(c, 0) in nodes
    ensures r.Some? ==> forall node | node in r.value :: Exists(node, m)
    ensures PartOf(nodes, leafs) && AreStructuresOf(structures, known, m, leafs) ==>
              && r.Some? && PartOf(r.value, leafs)
              && (AnyForbidden(r.value, forbidden) <==> AnyForbidden(nodes, forbidden) || ForbiddenInAny(structures, forbidden))
              && forall h | h in HeightsUp(m) :: Suffices(r.value, InTree(known, m, h), h)
  {
    hide AnyForbidden, ForbiddenAmong, Exists, PartOf, StructureNodes, InTree, HeightsUp, AreDigestsOf, Suffices;
    ghost var honest := PartOf(nodes, leafs) && AreStructuresOf(structures, known, m, leafs);
    var heights, more := HeightsUp(m), nodes;
    for k := 0 to |structures|
      invariant forall node | node in more :: Exists(node, m)
      invariant nodes.Keys <= more.Keys
      invariant honest ==> PartOf(more, leafs)
      invariant honest ==> (AnyForbidden(more, forbidden) <==> AnyForbidden(nodes, forbidden) || ForbiddenInAny(structures[..k], forbidden))
      invariant forall j | 0 <= j < k :: Suffices(more, InTree(known, m, heights[j]), heights[j])
    {
      var structure := StructureNodes(InTree(known, m, heights[k]), heights[k]);
      StructureExists(known, m, heights[k]);
      if honest { StructureLength(structures, known, m, leafs, k); }
      if |structures[k]| != |structure| { return None; }
      ghost var was := more;
      more := AddStructure(more, structure, structures[k], m, forbidden, leafs);
      if honest { ForbiddenStructures(structures, k, forbidden); }
      SufficesForTree(more, known, m, heights[k]);
      forall j | 0 <= j < k ensures Suffices(more, InTree(known, m, heights[j]), heights[j]) {
        SufficesStill(was, more, InTree(known, m, heights[j]), heights[j]);
      }
    }
    assert structures[..|structures|] == structures;
    forall h | h in heights ensures Suffices(more, InTree(known, m, h), h) {
      var j :| 0 <= j < |heights| && heights[j] == h;
    }
    r := Some(more);
  }

  lemma ForbiddenStructures(structures: seq<seq<Digest>>, k: nat, forbidden: Digest -> bool)
    requires k < |structures|
    ensures ForbiddenInAny(structures[..k + 1], forbidden) <==> ForbiddenInAny(structures[..k], forbidden) || ForbiddenAmong(structures[k], forbidden)
  {
    hide ForbiddenAmong;
    var some, more := structures[..k], structures[..k + 1];
    if ForbiddenInAny(some, forbidden) {
      var j :| 0 <= j < |some| && ForbiddenAmong(some[j], forbidden);
      assert ForbiddenAmong(more[j], forbidden);
    }
    if ForbiddenAmong(structures[k], forbidden) { assert ForbiddenAmong(more[k], forbidden); }
    if ForbiddenInAny(more, forbidden) && !ForbiddenAmong(structures[k], forbidden) {
      var j :| 0 <= j < |more| && ForbiddenAmong(more[j], forbidden);
      assert ForbiddenAmong(some[j], forbidden);
    }
  }

  lemma SufficesForTree(nodes: SparseNodes, known: set<nat>, m: nat, h: nat)
    requires forall c | c in known :: Ancestor(c, 0) in nodes
    requires forall node | node in StructureNodes(InTree(known, m, h), h) :: node in nodes
    ensures Suffices(nodes, InTree(known, m, h), h)
  {
    hide InOrder;
    forall node | node in BesidePaths(InTree(known, m, h), h) - OnPaths(InTree(known, m, h), h) ensures node in nodes {
      assert node in StructureNodes(InTree(known, m, h), h);
    }
  }

  lemma SufficesStill(before: SparseNodes, after: SparseNodes, leafIndices: set<nat>, h: nat)
    requires Suffices(before, leafIndices, h) && before.Keys <= after.Keys
    ensures Suffices(after, leafIndices, h)
  {
  }

  // ---------- from the list to records ----------

  function MasterChunks(order: seq<nat>, chunks: seq<Chunk>): (r: map<nat, Chunk>)
    requires |order| == |chunks| && StrictlyAscending(order)
    ensures forall c :: c in r <==> c in order
    ensures forall k | 0 <= k < |order| :: order[k] in r && r[order[k]] == chunks[k]
  {
    map k | 0 <= k < |order| :: order[k] := chunks[k]
  }

  /** The situation in which paths can be read off: the list stems from these records. */
  ghost predicate StemsFrom(list: RemovalRecordList, records: seq<RemovalRecord>, ms: MutatorSet) {
    AllSynced(records, ms) && IsListOf(list, records, ms)
  }

  /** RemovalRecordList::convert_to_vec. None where the code panics. That is so for a list that stems from records in
      step exactly if one of its digests is forbidden. */
  method ConvertToVec(list: RemovalRecordList, forbidden: Digest -> bool, ghost records: seq<RemovalRecord>, ghost ms: MutatorSet)
    returns (r: Option<seq<RemovalRecord>>)
    requires IsConsistent(list)
    ensures StemsFrom(list, records, ms) ==> r == if HasForbidden(list, forbidden) then None else Some(records)
    ensures r.Some? ==> IndexSets(r.value) == list.indexSets
  {
    hide AllSynced, IsListOf, AnyForbidden, ForbiddenAmong, ForbiddenInAny, Exists, PartOf, HeightsUp, PeakHeights, Ascending, ChunksBelow, Suffices,
         Closed, InTree, AreStructuresOf, TreeHeight, CanRead, IsConsistent, TouchedChunks, MasterChunks, StemsFrom;
    ghost var honest, leafs := StemsFrom(list, records, ms), ms.ChunkDigests();
    var m := BatchIndex(list.numLeafsAocl);
    var known := ChunksBelow(list.indexSets, m);
    var order := Ascending(known);
    OrderBelow(list.indexSets, m);
    ConsistentCounts(list);
    if honest { HonestOrder(list, records, ms); }
    var nodes := AddLeafs(order, list.chunks, m, forbidden, leafs);
    forall c | c in known ensures Ancestor(c, 0) in nodes {
      var k :| 0 <= k < |order| && order[k] == c;
    }
    var sparse := AddStructures(nodes, known, list.structures, m, forbidden, leafs);
    if sparse.None? { return None; }
    var bad := exists node | node in sparse.value :: forbidden(sparse.value[node]);
    BadIsForbidden(sparse.value, forbidden);
    if bad { return None; }
    var full := Complete(sparse.value, m, leafs);
    var master := MasterChunks(order, list.chunks);
    if honest {
      SufficesAll(sparse.value, full, known, m);
      HonestCanRead(list, records, ms, full, master);
    }
    r := ReadRecords(list, full, master, m, records, ms);
  }

  lemma {:induction false} HonestCanRead(list: RemovalRecordList, records: seq<RemovalRecord>, ms: MutatorSet, full: SparseNodes, master: map<nat, Chunk>)
    requires StemsFrom(list, records, ms) && Closed(full) && PartOf(full, ms.ChunkDigests())
    requires var m := BatchIndex(list.numLeafsAocl);
             var order := Ascending(ChunksBelow(list.indexSets, m));
             && |order| == |list.chunks| && (forall k | 0 <= k < |order| :: order[k] in master && master[order[k]] == list.chunks[k])
             && forall h | h in HeightsUp(m) :: Suffices(full, InTree(ChunksBelow(list.indexSets, m), m, h), h)
    ensures CanRead(full, master, BatchIndex(list.numLeafsAocl), records, ms)
  {
    hide AllSynced, Ascending, ChunksBelow, Suffices, HeightsUp, InTree, Closed, PartOf, TreeHeight, TouchedChunks, IsListOf;
    HonestOrder(list, records, ms);
    EstimateExplains(list, records, ms);
    var order := Ascending(TouchedChunks(records));
    forall c | c in TouchedChunks(records) ensures c in master && master[c] == ms.chunks[c] {
      var k :| 0 <= k < |order| && order[k] == c;
    }
  }

  lemma {:induction false} EstimateExplains(list: RemovalRecordList, records: seq<RemovalRecord>, ms: MutatorSet)
    requires IsListOf(list, records, ms)
    ensures var m, n := BatchIndex(list.numLeafsAocl), |ms.chunks|;
            m <= n && forall c | c in TouchedChunks(records) :: c < m && c < n && TreeHeight(m, c) == TreeHeight(n, c)
  {
    hide Estimated, AreStructuresOf, AreChunksOf, TreeHeight, TouchedChunks;
    EstimatedExplains(TouchedChunks(records), |ms.chunks|);
  }

  lemma BadIsForbidden(nodes: SparseNodes, forbidden: Digest -> bool)
    ensures (exists node | node in nodes :: forbidden(nodes[node])) <==> AnyForbidden(nodes, forbidden)
  {
  }

  lemma OrderBelow(indexSets: seq<seq<nat>>, m: nat)
    ensures forall k | 0 <= k < |Ascending(ChunksBelow(indexSets, m))| :: Ascending(ChunksBelow(indexSets, m))[k] < m
  {
    hide Ascending;
    var order := Ascending(ChunksBelow(indexSets, m));
    forall k | 0 <= k < |order| ensures order[k] < m { assert order[k] in order; }
  }

  lemma ConsistentCounts(list: RemovalRecordList)
    requires IsConsistent(list)
    ensures |Ascending(ChunksBelow(list.indexSets, BatchIndex(list.numLeafsAocl)))| == |list.chunks|
    ensures |list.structures| == |HeightsUp(BatchIndex(list.numLeafsAocl))|
  {
    hide Ascending, ChunksBelow, PeakHeights;
  }

  /** The chunks are the leafs of the mutator set's mountain range. */
  lemma {:induction false} HonestOrder(list: RemovalRecordList, records: seq<RemovalRecord>, ms: MutatorSet)
    requires StemsFrom(list, records, ms)
    ensures var m := BatchIndex(list.numLeafsAocl);
            var order := Ascending(ChunksBelow(list.indexSets, m));
            && ChunksBelow(list.indexSets, m) == TouchedChunks(records) && |order| == |list.chunks|
            && (forall k | 0 <= k < |order| ::
                  && order[k] < |ms.chunks| && list.chunks[k] == ms.chunks[order[k]]
                  && HashNats(list.chunks[k]) == ms.ChunkDigests()[order[k]])
            && AreStructuresOf(list.structures, TouchedChunks(records), m, ms.ChunkDigests())
  {
    hide AllSynced, Ascending, ChunksBelow, Estimated, AreStructuresOf, TouchedChunks;
    TouchedAreInactive(records, ms);
    BelowEstimate(list.indexSets, |ms.chunks|);
  }

  lemma SufficesAll(some: SparseNodes, full: SparseNodes, known: set<nat>, m: nat)
    requires some.Keys <= full.Keys && forall h | h in HeightsUp(m) :: Suffices(some, InTree(known, m, h), h)
    ensures forall h | h in HeightsUp(m) :: Suffices(full, InTree(known, m, h), h)
  {
    hide Suffices, HeightsUp, InTree;
    forall h | h in HeightsUp(m) ensures Suffices(full, InTree(known, m, h), h) {
      SufficesStill(some, full, InTree(known, m, h), h);
    }
  }

  /** All records, each with the chunks its indices touch and the paths read off. */
  method ReadRecords(list: RemovalRecordList, full: SparseNodes, master: map<nat, Chunk>, m: nat, ghost records: seq<RemovalRecord>, ghost ms: MutatorSet)
    returns (r: Option<seq<RemovalRecord>>)
    requires m == BatchIndex(list.numLeafsAocl)
    ensures StemsFrom(list, records, ms) && CanRead(full, master, m, records, ms) ==> r == Some(records)
    ensures r.Some? ==> IndexSets(r.value) == list.indexSets
  {
    hide AllSynced, IsListOf, CanRead;
    ghost var honest := StemsFrom(list, records, ms) && CanRead(full, master, m, records, ms);
    var read: seq<RemovalRecord> := [];
    if honest { ListIndexSets(list, records, ms); }
    for k := 0 to |list.indexSets|
      invariant |read| == k && forall j | 0 <= j < k :: read[j].absoluteIndices == list.indexSets[j]
      invariant honest ==> read == records[..k]
    {
      var dictionary := ReadDictionary(list.indexSets[k], full, master, m, records, k, ms);
      if dictionary.None? { return None; }
      read := read + [RemovalRecord(list.indexSets[k], dictionary.value)];
    }
    assert honest ==> records[..|records|] == records;
    r := Some(read);
  }

  /** The nodes and chunks suffice for every path of the records. */
  ghost predicate CanRead(full: SparseNodes, master: map<nat, Chunk>, m: nat, records: seq<RemovalRecord>, ms: MutatorSet) {
    var touched := TouchedChunks(records);
    && AllSynced(records, ms) && Closed(full) && PartOf(full, ms.ChunkDigests())
    && m <= |ms.chunks|
    && (forall c | c in touched :: c < m && c < |ms.chunks| && TreeHeight(m, c) == TreeHeight(|ms.chunks|, c))
    && (forall c | c in touched :: c in master && master[c] == ms.chunks[c])
    && (forall h | h in HeightsUp(m) :: Suffices(full, InTree(touched, m, h), h))
  }

  method ReadDictionary(indices: seq<nat>, full: SparseNodes, master: map<nat, Chunk>, m: nat, ghost records: seq<RemovalRecord>, ghost k: nat,
                        ghost ms: MutatorSet)
    returns (r: Option<ChunkDictionary>)
    ensures k < |records| && records[k].absoluteIndices == indices && CanRead(full, master, m, records, ms) ==> r == Some(records[k].targetChunks)
  {
    hide AllSynced, CanRead, Path, InactiveChunks, TouchedChunks;
    ghost var honest := k < |records| && records[k].absoluteIndices == indices && CanRead(full, master, m, records, ms);
    var dictionary: ChunkDictionary := map[];
    var todo := InactiveChunks(indices, m);
    if honest { SameInactive(full, master, m, records, k, ms); }
    while todo != {}
      invariant todo <= InactiveChunks(indices, m)
      invariant dictionary.Keys == InactiveChunks(indices, m) - todo
      invariant honest ==> forall c | c in dictionary :: c in records[k].targetChunks && dictionary[c] == records[k].targetChunks[c]
    {
      var c :| c in todo;
      if honest { Readable(full, master, m, records, k, ms, c); }
      InactiveBelow(indices, m, c);
      if c !in master { return None; }
      var path := ReadPath(full, c, TreeHeight(m, c), InTree(TouchedChunks(records), m, TreeHeight(m, c)), ms.ChunkDigests());
      if path.None? { return None; }
      dictionary, todo := dictionary[c := AuthChunk(path.value, master[c])], todo - {c};
    }
    assert honest ==> dictionary == records[k].targetChunks;
    r := Some(dictionary);
  }

  lemma InactiveBelow(indices: seq<nat>, m: nat, c: nat)
    requires c in InactiveChunks(indices, m)
    ensures c < m
  {
  }

  /** With the estimated number of chunks, the same ones are inactive. */
  lemma {:induction false} SameInactive(full: SparseNodes, master: map<nat, Chunk>, m: nat, records: seq<RemovalRecord>, k: nat, ms: MutatorSet)
    requires CanRead(full, master, m, records, ms) && k < |records|
    ensures InactiveChunks(records[k].absoluteIndices, m) == records[k].targetChunks.Keys
  {
    hide Path, TreeHeight, Suffices, HeightsUp, PartOf, Closed;
    assert Synced(records[k], ms);
    forall c | c in records[k].targetChunks ensures c in TouchedChunks(records) { }
    assert forall c :: c in InactiveChunks(records[k].absoluteIndices, m) <==>
                       c in InactiveChunks(records[k].absoluteIndices, |ms.chunks|) && c < m;
  }

  lemma {:induction false} Readable(full: SparseNodes, master: map<nat, Chunk>, m: nat, records: seq<RemovalRecord>, k: nat, ms: MutatorSet, c: nat)
    requires CanRead(full, master, m, records, ms) && k < |records| && c in records[k].targetChunks
    ensures c < m && c < |ms.ChunkDigests()| && c in master
    ensures records[k].targetChunks[c] == AuthChunk(Path(ms.ChunkDigests(), c), master[c])
    ensures var h := TreeHeight(m, c);
            && Closed(full) && PartOf(full, ms.ChunkDigests()) && TreeHeight(|ms.ChunkDigests()|, c) == h
            && c in InTree(TouchedChunks(records), m, h) && Suffices(full, InTree(TouchedChunks(records), m, h), h)
  {
    hide Path, Suffices, PartOf, Closed, TreeHeight, HeightsUp, AllSynced, TouchedChunks;
    EntryOf(records, k, ms, c);
    TreeIsThere(m, c);
  }

  lemma {:induction false} EntryOf(records: seq<RemovalRecord>, k: nat, ms: MutatorSet, c: nat)
    requires AllSynced(records, ms) && k < |records| && c in records[k].targetChunks
    ensures c in TouchedChunks(records) && c < |ms.chunks|
    ensures records[k].targetChunks[c] == AuthChunk(Path(ms.ChunkDigests(), c), ms.chunks[c])
  {
    hide Path;
    assert Synced(records[k], ms);
  }

  /** A leaf's tree is one of the trees. */
  lemma TreeIsThere(m: nat, c: nat)
    requires c < m
    ensures TreeHeight(m, c) in HeightsUp(m)
  {
    hide Shift, TreeHeight, PeakHeights;
    var h := TreeHeight(m, c);
    HeightIffLast(m, c, h);
    PeakHeightsAreBits(m, h);
    ReverseMembers(PeakHeights(m), h);
  }

  lemma ReverseMembers(s: seq<nat>, x: nat)
    requires x in s
    ensures x in Reverse(s)
  {
    var k :| 0 <= k < |s| && s[k] == x;
    assert Reverse(s)[|s| - 1 - k] == x;
  }

  // ---------- there and back ----------

  datatype Unpacking = Records(records: seq<RemovalRecord>) | Rejected(error: UnpackError)

  /** RemovalRecordList::try_unpack. What packing makes of records in step gives the records back, unless a digest is
      forbidden. Errors other than a panic mean that the entries hold no consistent list. Whatever is unpacked has indices
      whose chunk indices fit 64 bits. */
  method TryUnpack(packed: seq<PackedRecord>, forbidden: Digest -> bool, ghost list: RemovalRecordList, ghost records: seq<RemovalRecord>,
                   ghost ms: MutatorSet)
    returns (r: Unpacking)
    ensures Honest(packed, list, records, ms) ==> r == if HasForbidden(list, forbidden) then Rejected(Panic) else Records(records)
    ensures HoldsList(packed) <==> r.Records? || (r == Rejected(Panic) && CanBeEstimated(packed))
    ensures Decodable(AllEntries(packed)) && AllFit(packed) && !CanBeEstimated(packed) ==> r == Rejected(Panic)
    ensures r.Records? ==> |r.records| == |packed|
    ensures r.Records? ==> forall k | 0 <= k < |packed| ::
              r.records[k].absoluteIndices == packed[k].absoluteIndices && Fits(r.records[k].absoluteIndices)
  {
    hide AllSynced, IsListOf, IsPackedFormOf, IsConsistent, HasForbidden, Fits, Decodable, CanBeEstimated, StructuresIn, PackedChunksIn, ArePacked;
    var decoded := DecodeFromVec(packed, list, records, ms);
    if decoded.DecodeFailure? { return Rejected(decoded.error); }
    var unpacked := ConvertToVec(decoded.list, forbidden, records, ms);
    if unpacked.None? { return Rejected(Panic); }
    forall k | 0 <= k < |packed| ensures unpacked.value[k].absoluteIndices == packed[k].absoluteIndices {
      assert IndexSets(unpacked.value)[k] == unpacked.value[k].absoluteIndices;
    }
    r := Records(unpacked.value);
  }

  /** Packing and unpacking gives records in step back as they were. Packing panics exactly if a chunk that they touch
      cannot be packed, unpacking exactly if a digest in the packed form is forbidden. */
  method PackThenUnpack(records: seq<RemovalRecord>, forbidden: Digest -> bool, ghost ms: MutatorSet)
    returns (r: Option<Unpacking>, ghost list: RemovalRecordList)
    requires AllSynced(records, ms) && |ms.chunks| == BatchIndex(|ms.aocl|) && |ms.aocl| < LEAF_INDICES
    ensures IsListOf(list, records, ms)
    ensures r.Some? <==> forall c | c in TouchedChunks(records) :: Packable(ms.chunks[c])
    ensures r.Some? ==> r.value == if HasForbidden(list, forbidden) then Rejected(Panic) else Records(records)
  {
    hide AllSynced, IsListOf, IsPackedFormOf, HasForbidden, Packable, TouchedChunks;
    var packed;
    packed, list := PackedRecords.Pack(records, ms);
    if packed.None? { return None, list; }
    var unpacked := TryUnpack(packed.value, forbidden, list, records, ms);
    r := Some(unpacked);
  }
}
