/** Sets of Bloom filter indices, stored as a minimum and distances, and the leaf indices they can stem from. */
module AbsoluteIndexSets {
  import opened Options
  import opened ActiveWindows
  import opened MutatorSets
  import opened MembershipProofs

  const NUM_TRIALS: nat := 45
  const TWO_TO_THE_128: nat := 0x1_0000_0000_0000_0000_0000_0000_0000_0000

  type U128 = x: nat | x < TWO_TO_THE_128
  type Distances = d: seq<nat> | |d| == NUM_TRIALS witness seq(NUM_TRIALS, _ => 0)

  datatype AbsoluteIndexSet = AbsoluteIndexSet(minimum: U128, distances: Distances) {
    /** The minimum is one of the indices, and the others are less than a window apart from it. */
    predicate Normal() {
      0 in distances && forall k | 0 <= k < NUM_TRIALS :: distances[k] < WINDOW_SIZE
    }

    /** Additions saturate. */
    function ToArray(): (r: seq<nat>)
      ensures |r| == NUM_TRIALS
    {
      seq(NUM_TRIALS, k requires 0 <= k < NUM_TRIALS => SaturatingAdd(distances[k], minimum))
    }
  }

  function SaturatingAdd(a: nat, b: nat): U128 {
    if a + b < TWO_TO_THE_128 then a + b else TWO_TO_THE_128 - 1
  }

  function Minimum(s: seq<nat>): (m: nat)
    requires s != []
    ensures m in s && forall x | x in s :: m <= x
  {
    if |s| == 1 then s[0] else
      var m := Minimum(s[1..]);
      assert s == [s[0]] + s[1..];
      if s[0] < m then s[0] else m
  }

  function Maximum(s: seq<nat>): (m: nat)
    requires s != []
    ensures m in s && forall x | x in s :: x <= m
  {
    if |s| == 1 then s[0] else
      var m := Maximum(s[1..]);
      assert s == [s[0]] + s[1..];
      if s[0] > m then s[0] else m
  }

  function DistancesFrom(indices: seq<nat>, minimum: nat): (d: Distances)
    requires |indices| == NUM_TRIALS && forall x | x in indices :: minimum <= x
    ensures minimum in indices ==> 0 in d
  {
    assert forall k | 0 <= k < NUM_TRIALS :: indices[k] in indices;
    var d := seq(NUM_TRIALS, k requires 0 <= k < NUM_TRIALS => indices[k] - minimum);
    assert forall k | 0 <= k < NUM_TRIALS && indices[k] == minimum :: d[k] == 0;
    d
  }

  /** AbsoluteIndexSet::new. None where it panics: when two indices are a window or more apart. */
  function New(indices: seq<nat>): (r: Option<AbsoluteIndexSet>)
    requires |indices| == NUM_TRIALS && forall k | 0 <= k < NUM_TRIALS :: indices[k] < TWO_TO_THE_128
    ensures r.Some? <==> forall j, k | 0 <= j < NUM_TRIALS && 0 <= k < NUM_TRIALS :: indices[j] < indices[k] + WINDOW_SIZE
    ensures r.Some? ==> r.value.Normal() && r.value.ToArray() == indices
  {
    var m := Minimum(indices);
    var distances := DistancesFrom(indices, m);
    if exists k | 0 <= k < NUM_TRIALS :: distances[k] >= WINDOW_SIZE then
      assert exists k | 0 <= k < NUM_TRIALS :: indices[k] == m;
      None
    else
      var set' := AbsoluteIndexSet(m, distances);
      assert set'.ToArray() == indices;
      Some(set')
  }

  /** A normal set is what the constructor makes of its indices, as long as none saturates. */
  lemma NewOfArray(s: AbsoluteIndexSet)
    requires s.Normal() && s.minimum + WINDOW_SIZE <= TWO_TO_THE_128
    ensures New(s.ToArray()) == Some(s)
  {
    var indices := s.ToArray();
    var at :| 0 <= at < NUM_TRIALS && s.distances[at] == 0;
    assert indices[at] == s.minimum;
    forall k | 0 <= k < NUM_TRIALS ensures indices[k] == s.distances[k] + s.minimum < s.minimum + WINDOW_SIZE { }
    var r := New(indices).value;
    assert r.minimum == s.minimum;
    assert r.distances == s.distances;
  }

  /** AbsoluteIndexSet::compute, given the positions that the sponge samples from the window. */
  function Compute(relative: seq<nat>, aoclLeafIndex: nat): (s: AbsoluteIndexSet)
    requires |relative| == NUM_TRIALS && (forall k | 0 <= k < NUM_TRIALS :: relative[k] < WINDOW_SIZE) && aoclLeafIndex < LEAF_INDICES
    ensures s.Normal() && DrawnFor(s.ToArray(), aoclLeafIndex)
    ensures forall k | 0 <= k < NUM_TRIALS :: s.ToArray()[k] == aoclLeafIndex / BATCH_SIZE * CHUNK_SIZE + relative[k]
  {
    var m := Minimum(relative);
    var distances := DistancesFrom(relative, m);
    AbsoluteIndexSet(m + aoclLeafIndex / BATCH_SIZE * CHUNK_SIZE, distances)
  }

  // ---------- where an index set can stem from ----------

  datatype AoclRange = Range(first: nat, last: nat) | ExceedsTheoreticalBound | Overflow

  function NextMultipleOf(x: nat, m: nat): nat
    requires m > 0
  {
    (x + m - 1) / m * m
  }

  function SaturatingSub(a: nat, b: nat): nat {
    if a < b then 0 else a - b
  }

  /** AbsoluteIndexSet::aocl_range. Overflow stands for the addition that does not fit 128 bits. */
  function AoclRangeOf(s: AbsoluteIndexSet): AoclRange {
    var maxOffset := Maximum(s.distances);
    if maxOffset >= WINDOW_SIZE then ExceedsTheoreticalBound
    else if maxOffset + s.minimum >= TWO_TO_THE_128 then Overflow
    else
      var maxBfIndex := maxOffset + s.minimum;
      var minWindowStart := NextMultipleOf(SaturatingSub(maxBfIndex, WINDOW_SIZE - 1), CHUNK_SIZE);
      var minBatchIndex := minWindowStart / CHUNK_SIZE;
      if minBatchIndex >= LEAF_INDICES || minBatchIndex * BATCH_SIZE >= LEAF_INDICES then ExceedsTheoreticalBound
      else
        var maxWindowEnd := NextMultipleOf(s.minimum + WINDOW_SIZE + 1, CHUNK_SIZE) - CHUNK_SIZE;
        var maxBatchIndex := SaturatingSub(maxWindowEnd, WINDOW_SIZE) / CHUNK_SIZE;
        if maxBatchIndex >= LEAF_INDICES || maxBatchIndex * BATCH_SIZE + BATCH_SIZE - 1 >= LEAF_INDICES then ExceedsTheoreticalBound
        else Range(minBatchIndex * BATCH_SIZE, maxBatchIndex * BATCH_SIZE + BATCH_SIZE - 1)
  }

  /** No index lies beyond the last window that a 64-bit leaf index has, and the minimum lies before the last batch ends. */
  predicate InBounds(s: AbsoluteIndexSet) {
    && s.minimum / CHUNK_SIZE < LEAF_INDICES / BATCH_SIZE
    && forall k | 0 <= k < NUM_TRIALS ::
         s.distances[k] < WINDOW_SIZE && s.minimum + s.distances[k] < (LEAF_INDICES / BATCH_SIZE - 1) * CHUNK_SIZE + WINDOW_SIZE
  }

  /** The batches whose window reaches up to one index, and those whose window starts at or before another. */
  lemma BatchesInReach(minimum: nat, maximum: nat, batch: nat)
    ensures NextMultipleOf(SaturatingSub(maximum, WINDOW_SIZE - 1), CHUNK_SIZE) / CHUNK_SIZE <= batch <==>
            maximum < batch * CHUNK_SIZE + WINDOW_SIZE
    ensures NextMultipleOf(minimum + WINDOW_SIZE + 1, CHUNK_SIZE) >= CHUNK_SIZE + WINDOW_SIZE
    ensures SaturatingSub(NextMultipleOf(minimum + WINDOW_SIZE + 1, CHUNK_SIZE) - CHUNK_SIZE, WINDOW_SIZE) / CHUNK_SIZE == minimum / CHUNK_SIZE
    ensures batch <= minimum / CHUNK_SIZE <==> batch * CHUNK_SIZE <= minimum
  {
  }

  /** Only the smallest and the largest index matter. */
  lemma SpreadOf(indices: seq<nat>, least: nat, most: nat, i: nat)
    requires least in indices && most in indices && forall x | x in indices :: least <= x <= most
    ensures DrawnFor(indices, i) <==> i < LEAF_INDICES && i / BATCH_SIZE * CHUNK_SIZE <= least && most < i / BATCH_SIZE * CHUNK_SIZE + WINDOW_SIZE
  {
  }

  lemma DrawnForRange(s: AbsoluteIndexSet, i: nat)
    requires forall k | 0 <= k < NUM_TRIALS :: s.distances[k] + s.minimum < TWO_TO_THE_128
    ensures 0 in s.distances ==> (DrawnFor(s.ToArray(), i) <==> DrawnFor(s.ToArray() + [s.minimum], i))
    ensures DrawnFor(s.ToArray() + [s.minimum], i) <==>
            var start := i / BATCH_SIZE * CHUNK_SIZE; i < LEAF_INDICES && start <= s.minimum && s.minimum + Maximum(s.distances) < start + WINDOW_SIZE
  {
    var indices, start, most := s.ToArray(), i / BATCH_SIZE * CHUNK_SIZE, Maximum(s.distances);
    var top :| 0 <= top < NUM_TRIALS && s.distances[top] == most;
    var more: seq<nat> := indices + [s.minimum];
    assert forall x: nat :: x in more <==> x in indices || x == s.minimum;
    assert indices[top] == s.minimum + most && indices[top] in indices;
    if 0 in s.distances {
      var at :| 0 <= at < NUM_TRIALS && s.distances[at] == 0;
      assert indices[at] == s.minimum && indices[at] in indices;
    }
    forall x | x in indices ensures s.minimum <= x <= s.minimum + most {
      var k :| 0 <= k < NUM_TRIALS && indices[k] == x;
      assert s.distances[k] in s.distances;
    }
    SpreadOf(more, s.minimum, s.minimum + most, i);
  }

  /** The range is exact: a leaf index is in it if and only if the indices and the minimum can have been drawn for that
      leaf. The minimum is one of the indices in every set that the constructors make. */
  lemma AoclRangeExact(s: AbsoluteIndexSet)
    ensures InBounds(s) <==> AoclRangeOf(s).Range?
    ensures AoclRangeOf(s).Overflow? <==>
            && (forall k | 0 <= k < NUM_TRIALS :: s.distances[k] < WINDOW_SIZE)
            && (exists k | 0 <= k < NUM_TRIALS :: s.distances[k] + s.minimum >= TWO_TO_THE_128)
    ensures AoclRangeOf(s).Range? ==>
              forall i: nat :: AoclRangeOf(s).first <= i <= AoclRangeOf(s).last <==> DrawnFor(s.ToArray() + [s.minimum], i)
    ensures AoclRangeOf(s).Range? && s.Normal() ==>
              forall i: nat :: AoclRangeOf(s).first <= i <= AoclRangeOf(s).last <==> DrawnFor(s.ToArray(), i)
  {
    hide NextMultipleOf, SaturatingSub, DrawnFor;
    var most := Maximum(s.distances);
    var top :| 0 <= top < NUM_TRIALS && s.distances[top] == most;
    assert forall k | 0 <= k < NUM_TRIALS :: s.distances[k] in s.distances;
    BatchesInReach(s.minimum, s.minimum + most, LEAF_INDICES / BATCH_SIZE - 1);
    if AoclRangeOf(s).Range? {
      forall i: nat
        ensures AoclRangeOf(s).first <= i <= AoclRangeOf(s).last <==> DrawnFor(s.ToArray() + [s.minimum], i)
        ensures 0 in s.distances ==> (DrawnFor(s.ToArray(), i) <==> DrawnFor(s.ToArray() + [s.minimum], i))
      {
        DrawnForRange(s, i);
        BatchesInReach(s.minimum, s.minimum + most, i / BATCH_SIZE);
      }
    }
  }
}
