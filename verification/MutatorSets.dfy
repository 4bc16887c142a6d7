/** What a mutator set is, apart from how it is stored: a list of commitments and a multiset of
    absolute Bloom filter indices. Given both, the chunks and the active window are determined. */
module MutatorSets {
  import opened Digests
  import opened Sorting
  import opened ActiveWindows

  /** Leaf, batch and chunk indices are 64 bits wide. */
  const LEAF_INDICES: nat := 0x1_0000_0000_0000_0000

  /** aocl_to_swbfi_leaf_counts */
  function BatchIndex(aoclLeafs: nat): nat {
    (if aoclLeafs == 0 then 0 else aoclLeafs - 1) / BATCH_SIZE
  }

  /** MutatorSetAccumulator::window_slides */
  predicate WindowSlides(addedIndex: nat) {
    addedIndex != 0 && addedIndex % BATCH_SIZE == 0
  }

  /** The window slides exactly when an addition starts a new batch. */
  lemma SlideStartsBatch(aoclLeafs: nat)
    ensures BatchIndex(aoclLeafs + 1) == BatchIndex(aoclLeafs) + if WindowSlides(aoclLeafs) then 1 else 0
    ensures WindowSlides(aoclLeafs) ==> BatchIndex(aoclLeafs) == aoclLeafs / BATCH_SIZE - 1
  {
  }

  datatype MutatorSet = MutatorSet(aocl: seq<Digest>, chunks: seq<Chunk>, window: seq<nat>) {
    function WindowStart(): nat {
      BatchIndex(|aocl|) * CHUNK_SIZE
    }

    /** The leafs of the inactive part's mountain range. */
    function ChunkDigests(): (r: seq<Digest>)
      ensures |r| == |chunks|
    {
      DigestsOf(chunks)
    }
  }

  function DigestsOf(chunks: seq<Chunk>): (r: seq<Digest>)
    ensures |r| == |chunks|
  {
    seq(|chunks|, c requires 0 <= c < |chunks| => HashNats(chunks[c]))
  }

  /** The inactive chunks once one more commitment is added. */
  function ChunksAfterAddition(ms: MutatorSet): seq<Chunk> {
    if WindowSlides(|ms.aocl|) then ms.chunks + [Slice(ms.window, 0, CHUNK_SIZE)] else ms.chunks
  }

  /** The list is the sorted content of positions [base, base + size) of the filter, relative to base. */
  ghost predicate Covers(list: seq<nat>, indices: multiset<nat>, base: nat, size: nat) {
    Sorted(list) && forall r: nat :: multiset(list)[r] == if r < size then indices[base + r] else 0
  }

  ghost predicate NoneBeyond(indices: multiset<nat>, end: nat) {
    forall i: nat | end <= i :: indices[i] == 0
  }

  /** The mutator set stores exactly these filter indices. */
  ghost predicate Stores(ms: MutatorSet, indices: multiset<nat>) {
    && |ms.chunks| == BatchIndex(|ms.aocl|)
    && (forall c | 0 <= c < |ms.chunks| :: Covers(ms.chunks[c], indices, c * CHUNK_SIZE, CHUNK_SIZE))
    && Covers(ms.window, indices, ms.WindowStart(), WINDOW_SIZE)
    && NoneBeyond(indices, ms.WindowStart() + WINDOW_SIZE)
  }

  lemma ChunkCount(ms: MutatorSet, indices: multiset<nat>)
    requires Stores(ms, indices)
    ensures |ms.chunks| == BatchIndex(|ms.aocl|)
  {
  }

  lemma CoversUnique(a: seq<nat>, b: seq<nat>, indices: multiset<nat>, base: nat, size: nat)
    requires Covers(a, indices, base, size) && Covers(b, indices, base, size)
    ensures a == b
  {
    forall x: nat ensures multiset(a)[x] == multiset(b)[x] {}
    SameCountsSameList(a, b);
  }

  /** Commitments and indices determine every chunk and the window: there is one representation. */
  lemma RepresentationUnique(a: MutatorSet, b: MutatorSet, indices: multiset<nat>)
    requires Stores(a, indices) && Stores(b, indices) && a.aocl == b.aocl
    ensures a == b
  {
    forall c | 0 <= c < |a.chunks| ensures a.chunks[c] == b.chunks[c] {
      CoversUnique(a.chunks[c], b.chunks[c], indices, c * CHUNK_SIZE, CHUNK_SIZE);
    }
    CoversUnique(a.window, b.window, indices, a.WindowStart(), WINDOW_SIZE);
  }

  /** Conversely, the stored content determines the indices. */
  lemma IndicesUnique(ms: MutatorSet, a: multiset<nat>, b: multiset<nat>)
    requires Stores(ms, a) && Stores(ms, b)
    ensures a == b
  {
    forall i: nat ensures a[i] == b[i] {
      IndexLookup(ms, a, i);
      IndexLookup(ms, b, i);
    }
  }

  /** Where the multiplicity of index i is found. */
  lemma IndexLookup(ms: MutatorSet, indices: multiset<nat>, i: nat)
    requires Stores(ms, indices)
    ensures i < ms.WindowStart() ==>
              && i / CHUNK_SIZE < |ms.chunks|
              && indices[i] == multiset(ms.chunks[i / CHUNK_SIZE])[i % CHUNK_SIZE]
    ensures ms.WindowStart() <= i < ms.WindowStart() + WINDOW_SIZE ==>
              indices[i] == multiset(ms.window)[i - ms.WindowStart()]
    ensures ms.WindowStart() + WINDOW_SIZE <= i ==> indices[i] == 0
  {
    if i < ms.WindowStart() {
      var c, r := i / CHUNK_SIZE, i % CHUNK_SIZE;
      assert c < BatchIndex(|ms.aocl|);
      assert multiset(ms.chunks[c])[r] == indices[c * CHUNK_SIZE + r];
    } else if i < ms.WindowStart() + WINDOW_SIZE {
      var r := i - ms.WindowStart();
      assert multiset(ms.window)[r] == indices[ms.WindowStart() + r];
    }
  }

  // ---------- one list at a time ----------

  lemma CoversElements(list: seq<nat>, indices: multiset<nat>, base: nat, size: nat, x: nat)
    requires Covers(list, indices, base, size)
    ensures x in list <==> x < size && indices[base + x] > 0
  {
    hide Sorted;
    CountIsMembership(list, x);
  }

  lemma WindowInRange(window: seq<nat>, indices: multiset<nat>, start: nat)
    requires Covers(window, indices, start, WINDOW_SIZE)
    ensures forall k | 0 <= k < |window| :: window[k] < WINDOW_SIZE
  {
    forall k | 0 <= k < |window| ensures window[k] < WINDOW_SIZE {
      CoversElements(window, indices, start, WINDOW_SIZE, window[k]);
    }
  }

  /** An index within the range goes into the list, and leaves every other list alone. */
  lemma CoversInsert(list: seq<nat>, list': seq<nat>, indices: multiset<nat>, base: nat, size: nat, x: nat)
    requires Covers(list, indices, base, size) && x < size
    requires Sorted(list') && multiset(list') == multiset(list) + multiset{x}
    ensures Covers(list', indices + multiset{base + x}, base, size)
  {
    hide Sorted;
    forall r: nat
      ensures multiset(list')[r] == if r < size then (indices + multiset{base + x})[base + r] else 0
    {
      assert multiset(list)[r] == if r < size then indices[base + r] else 0;
    }
  }

  lemma CoversRemove(list: seq<nat>, list': seq<nat>, indices: multiset<nat>, base: nat, size: nat, x: nat)
    requires Covers(list, indices, base, size) && x < size && base + x in indices
    requires Sorted(list') && multiset(list') == multiset(list) - multiset{x}
    ensures Covers(list', indices - multiset{base + x}, base, size)
  {
    hide Sorted;
    var i: nat := base + x;
    forall r: nat ensures multiset(list')[r] == if r < size then (indices - multiset{i})[base + r] else 0 {
      assert multiset(list)[r] == if r < size then indices[base + r] else 0;
      RemoveOne(multiset(list), x, r);
      RemoveOne(indices, i, base + r);
    }
  }

  lemma RemoveOne(m: multiset<nat>, x: nat, y: nat)
    requires x in m
    ensures (m - multiset{x})[y] == m[y] - if x == y then 1 else 0
  {
  }

  /** Only the multiplicities within the range matter. */
  lemma CoversElsewhere(list: seq<nat>, indices: multiset<nat>, indices': multiset<nat>, base: nat, size: nat)
    requires Covers(list, indices, base, size)
    requires forall i: nat | base <= i < base + size :: indices'[i] == indices[i]
    ensures Covers(list, indices', base, size)
  {
    hide Sorted;
    forall r: nat ensures multiset(list)[r] == if r < size then indices'[base + r] else 0 {
      assert multiset(list)[r] == if r < size then indices[base + r] else 0;
      if r < size { assert indices'[base + r] == indices[base + r]; }
    }
  }

  /** Sliding the window forward moves its first chunk to the inactive part. */
  lemma CoversSlide(window: seq<nat>, window': seq<nat>, indices: multiset<nat>, start: nat)
    requires Covers(window, indices, start, WINDOW_SIZE) && NoneBeyond(indices, start + WINDOW_SIZE)
    requires Sorted(window') && SlidForward(window, window')
    ensures Covers(Slice(window, 0, CHUNK_SIZE), indices, start, CHUNK_SIZE)
    ensures Covers(window', indices, start + CHUNK_SIZE, WINDOW_SIZE)
  {
    hide Sorted, Slice;
    SliceSorted(window, 0, CHUNK_SIZE);
    forall r: nat
      ensures multiset(Slice(window, 0, CHUNK_SIZE))[r] == if r < CHUNK_SIZE then indices[start + r] else 0
    {
      SliceCount(window, 0, CHUNK_SIZE, r);
      assert multiset(window)[r] == if r < WINDOW_SIZE then indices[start + r] else 0;
    }
    forall r: nat ensures multiset(window')[r] == if r < WINDOW_SIZE then indices[start + CHUNK_SIZE + r] else 0 {
      var q := r + CHUNK_SIZE;
      assert multiset(window)[q] == if q < WINDOW_SIZE then indices[start + q] else 0;
    }
  }

  /** Sliding it back restores the window, provided nothing lies beyond the earlier window. */
  lemma CoversSlideBack(window: seq<nat>, chunk: Chunk, window': seq<nat>, indices: multiset<nat>, start: nat)
    requires Covers(window, indices, start + CHUNK_SIZE, WINDOW_SIZE)
    requires Covers(chunk, indices, start, CHUNK_SIZE)
    requires Sorted(window') && SlidBack(window, chunk, window')
    requires NoneBeyond(indices, start + WINDOW_SIZE)
    ensures Covers(window', indices, start, WINDOW_SIZE)
  {
    hide Sorted;
    forall r: nat ensures multiset(window')[r] == if r < WINDOW_SIZE then indices[start + r] else 0 {
      if r < CHUNK_SIZE {
        assert multiset(chunk)[r] == indices[start + r];
      } else {
        var q := r - CHUNK_SIZE;
        assert multiset(window)[q] == if q < WINDOW_SIZE then indices[start + CHUNK_SIZE + q] else 0;
      }
    }
  }
}
