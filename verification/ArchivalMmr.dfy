/** The archival mountain range: every node kept in one flat vector. */
module ArchivalMmrs {
  import opened Digests
  import opened MountainRange
  import opened PostOrder
  import opened Options

  const TWO_TO_THE_64: nat := 0x1_0000_0000_0000_0000

  /** Unsigned 64-bit wrap-around. */
  function Wrap64(x: int): nat {
    x % TWO_TO_THE_64
  }

  /** shared_advanced::node_index_to_leaf_index */
  function NodeIndexToLeafIndex(p: nat): Option<nat>
    requires p > 0
  {
    var (h, k) := Locate(p);
    if h == 0 then Some(k) else None
  }

  lemma LeafIndexFound(leafs: seq<Digest>)
    ensures |Layout(leafs)| > 0
    ensures NodeIndexToLeafIndex(|Layout(leafs)|) == Some(|leafs|)
  {
    LayoutLength(leafs);
    LeafNodeIndex(|leafs|);
    LocateInvertsNodeIndex(0, |leafs|);
  }

  /** shared_basic::right_lineage_length_from_leaf_index */
  function RightLineageLength(leafIndex: nat): nat {
    if leafIndex % 2 == 1 then 1 + RightLineageLength(leafIndex / 2) else 0
  }

  lemma {:induction false} RightLineageIsTail(n: nat)
    ensures TailLength(n + 1) == 1 + RightLineageLength(n)
  {
    if n % 2 == 1 {
      RightLineageIsTail(n / 2);
      assert (n + 1) / 2 == n / 2 + 1;
    }
  }

  /** The left neighbour that one step of the append loop reads is the sibling on the new leaf's path. */
  lemma AppendNeighbour(leafs: seq<Digest>, x: Digest, h: nat)
    requires h + 1 < TailLength(|leafs| + 1)
    ensures var n := |leafs|;
            var left := NumNodes(n) + 1 + h - Pow2(h + 1) + 1;
            && 0 < left < |Layout(leafs)|
            && h < |Path(leafs + [x], n)|
            && Path(leafs + [x], n)[h] == Layout(leafs)[left]
  {
    hide NodeIndex, NumNodes, Pow2, Parents, Layout, TailLength;
    var n, all, k := |leafs|, leafs + [x], Shift(|leafs|, h);
    TailPositions(n + 1, h);
    ShiftOfPredecessor(n + 1, h);
    Relatives(h, k);
    LayoutAt(leafs, h, k - 1);
    LevelLength(leafs, h);
    assert all[..n] == leafs;
    LevelPrefix(all, n, h);
    LastPathLength(all);
    PathAt(all, n, h);
  }

  /** What that step pushes is the next node the new leaf completes. */
  lemma AppendStep(leafs: seq<Digest>, h: nat)
    requires leafs != [] && h + 1 < |Tail(leafs)|
    ensures h < |Path(leafs, |leafs| - 1)|
    ensures Tail(leafs)[h + 1] == HashPair(Path(leafs, |leafs| - 1)[h], Tail(leafs)[h])
    decreases h
  {
    var up := Parents(leafs);
    assert (|leafs| - 1) / 2 == |leafs| / 2 - 1;
    assert Tail(leafs) == [leafs[|leafs| - 1]] + Tail(up);
    if h == 0 {
      assert up[|up| - 1] == HashPair(leafs[|leafs| - 2], leafs[|leafs| - 1]);
    } else {
      assert Path(leafs, |leafs| - 1) == [leafs[|leafs| - 2]] + Path(up, |up| - 1);
      AppendStep(up, h - 1);
    }
  }

  lemma LayoutOfAppend(leafs: seq<Digest>, x: Digest)
    ensures Layout(leafs + [x]) == Layout(leafs) + Tail(leafs + [x])
    ensures Tail(leafs + [x])[0] == x
  {
    assert (leafs + [x])[..|leafs|] == leafs;
  }

  lemma LastPathLength(leafs: seq<Digest>)
    requires leafs != []
    ensures |Path(leafs, |leafs| - 1)| + 1 == TailLength(|leafs|)
  {
    PathLength(leafs, |leafs| - 1);
    LastTreeHeight(|leafs|);
  }

  lemma {:induction false} LastTreeHeight(n: nat)
    requires n > 0
    ensures TreeHeight(n, n - 1) + 1 == TailLength(n)
  {
    if n % 2 == 0 {
      assert (n - 1) / 2 == n / 2 - 1;
      LastTreeHeight(n / 2);
    }
  }

  /** The node over leaf i at height h, once leaf i is x. */
  function NewNode(leafs: seq<Digest>, i: nat, x: Digest, h: nat): Digest
    requires i < |leafs| && Shift(i, h) < Shift(|leafs|, h)
  {
    LevelLength(leafs[i := x], h);
    Level(leafs[i := x], h)[Shift(i, h)]
  }

  /** Changing leaf i changes, at each height, at most the node over it. */
  lemma {:induction false} LevelOfUpdate(leafs: seq<Digest>, i: nat, x: Digest, h: nat, k: nat)
    requires i < |leafs| && k < Shift(|leafs|, h) && k != Shift(i, h)
    ensures |Level(leafs[i := x], h)| == |Level(leafs, h)| == Shift(|leafs|, h)
    ensures Level(leafs[i := x], h)[k] == Level(leafs, h)[k]
    decreases h
  {
    LevelLength(leafs, h);
    LevelLength(leafs[i := x], h);
    if h > 0 {
      ParentsOfUpdate(leafs, i, x);
      if i / 2 < |leafs| / 2 {
        LevelOfUpdate(Parents(leafs), i / 2, ParentDigest(i, x, leafs[Sibling(i)]), h - 1, k);
      }
    }
  }

  /** One step up of the leaf mutation: the new parent from the new node and its unchanged sibling. */
  lemma MutateStep(leafs: seq<Digest>, i: nat, x: Digest, h: nat)
    requires i < |leafs| && Shift(i, h) / 2 < Shift(|leafs|, h) / 2
    ensures var k := Shift(i, h);
            && Shift(i, h + 1) == k / 2 < Shift(|leafs|, h + 1)
            && Sibling(k) < |Level(leafs, h)|
            && NewNode(leafs, i, x, h + 1) == ParentDigest(k, NewNode(leafs, i, x, h), Level(leafs, h)[Sibling(k)])
  {
    var k := Shift(i, h);
    ShiftStep(i, h);
    ShiftStep(|leafs|, h);
    LevelStep(leafs[i := x], h);
    LevelLength(leafs, h);
    LevelLength(leafs[i := x], h);
    LevelOfUpdate(leafs, i, x, h, Sibling(k));
  }

  /** The vector holds the new nodes over leaf i up to height top, and is otherwise the old layout. */
  ghost predicate Written(leafs: seq<Digest>, i: nat, x: Digest, digests: seq<Digest>, top: nat)
    requires i < |leafs|
  {
    && |digests| == |Layout(leafs)| > 0
    && digests[0] == Layout(leafs)[0]
    && forall p | 0 < p < |digests| :: digests[p] ==
         var (h, k) := Locate(p);
         if h <= top && k == Shift(i, h) && k < Shift(|leafs|, h) then NewNode(leafs, i, x, h) else Layout(leafs)[p]
  }

  lemma PositionsOfNodes(leafs: seq<Digest>, p: nat)
    requires 0 < p < |Layout(leafs)|
    ensures var (h, k) := Locate(p); NodeIndex(h, k) == p && k < Shift(|leafs|, h)
  {
    LayoutLength(leafs);
    assert NumNodes(0) == 0;
    LocateFromCorrect(p, 0, |leafs|);
  }

  lemma WriteLeaf(leafs: seq<Digest>, i: nat, x: Digest)
    requires i < |leafs|
    ensures NodeIndex(0, i) < |Layout(leafs)|
    ensures Written(leafs, i, x, Layout(leafs)[NodeIndex(0, i) := x], 0)
    ensures Shift(i, 0) < Shift(|leafs|, 0) && NewNode(leafs, i, x, 0) == x
  {
    LayoutAt(leafs, 0, i);
    LocateInvertsNodeIndex(0, i);
    forall p | 0 < p < |Layout(leafs)| && p != NodeIndex(0, i) ensures Locate(p) != (0, i) {
      PositionsOfNodes(leafs, p);
    }
  }

  lemma WriteNext(leafs: seq<Digest>, i: nat, x: Digest, digests: seq<Digest>, h: nat)
    requires i < |leafs| && Shift(i, h + 1) < Shift(|leafs|, h + 1)
    requires Written(leafs, i, x, digests, h)
    ensures 0 < NodeIndex(h + 1, Shift(i, h + 1)) < |digests|
    ensures Written(leafs, i, x, digests[NodeIndex(h + 1, Shift(i, h + 1)) := NewNode(leafs, i, x, h + 1)], h + 1)
  {
    var q := NodeIndex(h + 1, Shift(i, h + 1));
    LayoutAt(leafs, h + 1, Shift(i, h + 1));
    LocateInvertsNodeIndex(h + 1, Shift(i, h + 1));
    forall p | 0 < p < |digests| && p != q ensures Locate(p) != (h + 1, Shift(i, h + 1)) {
      PositionsOfNodes(leafs, p);
    }
  }

  lemma MutateDone(leafs: seq<Digest>, i: nat, x: Digest, digests: seq<Digest>, top: nat)
    requires i < |leafs| && Written(leafs, i, x, digests, top)
    requires Shift(|leafs|, top) / 2 <= Shift(i, top) / 2
    ensures digests == Layout(leafs[i := x])
  {
    var changed := leafs[i := x];
    LayoutLength(leafs);
    LayoutLength(changed);
    LayoutZero(leafs);
    LayoutZero(changed);
    forall p | 0 < p < |digests| ensures digests[p] == Layout(changed)[p] {
      PositionsOfNodes(leafs, p);
      var (h, k) := Locate(p);
      LayoutAt(leafs, h, k);
      LayoutAt(changed, h, k);
      if k != Shift(i, h) {
        LevelOfUpdate(leafs, i, x, h, k);
      } else if top < h {
        NoNodeAbove(i, |leafs|, top, h);
      }
    }
  }

  lemma {:induction false} LayoutZero(leafs: seq<Digest>)
    ensures |Layout(leafs)| > 0 && Layout(leafs)[0] == Default
  {
    if leafs != [] { LayoutZero(leafs[..|leafs| - 1]); }
  }

  /** Above its peak, leaf i has no node. */
  lemma {:induction false} NoNodeAbove(i: nat, n: nat, top: nat, h: nat)
    requires top < h && Shift(n, top) / 2 <= Shift(i, top) / 2
    ensures Shift(n, h) <= Shift(i, h)
    decreases h
  {
    ShiftStep(n, h - 1);
    ShiftStep(i, h - 1);
    if top < h - 1 { NoNodeAbove(i, n, top, h - 1); }
  }

  /** shared_advanced::right_lineage_length_and_own_height */
  function RightLineageLengthAndOwnHeight(p: nat): (nat, nat)
    requires p > 0
  {
    var (h, k) := Locate(p);
    (RightLineageLength(k), h)
  }

  /** shared_advanced::parent */
  function Parent(p: nat): (parent: nat)
    requires p > 0
    ensures p < parent
  {
    var (h, k) := Locate(p);
    Pow2Positive(h + 1);
    if k % 2 == 1 then p + 1 else p + Pow2(h + 1)
  }

  /** Where the node over leaf i has its sibling and its parent, and when the parent exists. */
  lemma ParentAndSibling(leafs: seq<Digest>, i: nat, h: nat)
    requires i < |leafs| && Shift(i, h) < Shift(|leafs|, h)
    ensures var k := Shift(i, h);
            var p := NodeIndex(h, k);
            && p > 0 && Locate(p) == (h, k)
            && Shift(i, h + 1) == k / 2 && Shift(|leafs|, h + 1) == Shift(|leafs|, h) / 2
            && Parent(p) == NodeIndex(h + 1, k / 2) > p
            && NodeIndex(h, Sibling(k)) == (if k % 2 == 1 then p - Pow2(h + 1) + 1 else p + Pow2(h + 1) - 1)
            && (Parent(p) < |Layout(leafs)| <==> k / 2 < Shift(|leafs|, h) / 2)
            && (RightLineageLength(k) != 0 <==> k % 2 == 1)
  {
    var k := Shift(i, h);
    LocateInvertsNodeIndex(h, k);
    Relatives(h, k);
    ShiftStep(i, h);
    ShiftStep(|leafs|, h);
    Pow2Positive(h + 1);
    LayoutLength(leafs);
    NodePresent(|leafs|, h + 1, k / 2);
    if k / 2 < Shift(|leafs|, h) / 2 { LayoutAt(leafs, h + 1, k / 2); }
  }

  /** One round of the leaf mutation reads the unchanged sibling and writes the new parent. */
  lemma MutateRound(leafs: seq<Digest>, i: nat, x: Digest, digests: seq<Digest>, h: nat)
    requires i < |leafs| && Shift(i, h) < Shift(|leafs|, h)
    requires Written(leafs, i, x, digests, h)
    requires Shift(i, h) / 2 < Shift(|leafs|, h) / 2
    ensures var k := Shift(i, h);
            var s := NodeIndex(h, Sibling(k));
            && Shift(i, h + 1) == k / 2 < Shift(|leafs|, h + 1)
            && s < |digests|
            && NewNode(leafs, i, x, h + 1) == ParentDigest(k, NewNode(leafs, i, x, h), digests[s])
  {
    var k := Shift(i, h);
    MutateStep(leafs, i, x, h);
    LevelLength(leafs, h);
    LayoutAt(leafs, h, Sibling(k));
    LocateInvertsNodeIndex(h, Sibling(k));
  }

  /** The last position holds the top of the last leaf's tail. */
  lemma LastNodeLocated(leafs: seq<Digest>)
    requires leafs != []
    ensures |Layout(leafs)| == |Layout(leafs[..|leafs| - 1])| + |Tail(leafs)| > 1
    ensures Locate(|Layout(leafs)| - 1).0 == |Tail(leafs)| - 1
  {
    hide NodeIndex, NumNodes, Layout, Tail, TailLength, Shift;
    var n := |leafs|;
    var h := TailLength(n) - 1;
    LayoutLength(leafs);
    LayoutLength(leafs[..n - 1]);
    TailLengthCorrect(leafs);
    NumNodesStep(n);
    TailPositions(n, h);
    LocateInvertsNodeIndex(h, Shift(n, h) - 1);
  }

  lemma ModUnique(x: int, q: int, r: int)
    requires x == q * TWO_TO_THE_64 + r && 0 <= r < TWO_TO_THE_64
    ensures Wrap64(x) == r
  {
  }

  /** The sibling of a node as the walk computes it, in wrapping u64 arithmetic. */
  function SiblingIndex(node: nat, pow: nat, left: bool): nat {
    var asOneOrMinusOne := Wrap64(if left then 1 else -1);
    var signedHeightPow := Wrap64(pow * asOneOrMinusOne);
    Wrap64(Wrap64(node + signedHeightPow) - asOneOrMinusOne)
  }

  lemma WrappedSibling(node: nat, pow: nat, left: bool)
    requires left ==> 0 < node && node + pow - 1 < TWO_TO_THE_64
    requires !left ==> pow <= node < TWO_TO_THE_64
    requires 0 < pow
    ensures SiblingIndex(node, pow, left) == if left then node + pow - 1 else node - pow + 1
  {
    var m := TWO_TO_THE_64;
    if left {
      ModUnique(1, 0, 1);
      ModUnique(pow, 0, pow);
      if node + pow < m {
        ModUnique(node + pow, 0, node + pow);
        ModUnique(node + pow - 1, 0, node + pow - 1);
      } else {
        ModUnique(node + pow, 1, 0);
        ModUnique(-1, -1, m - 1);
      }
    } else {
      ModUnique(-1, -1, m - 1);
      assert pow * (m - 1) == (pow - 1) * m + (m - pow);
      ModUnique(pow * (m - 1), pow - 1, m - pow);
      ModUnique(node + m - pow, 1, node - pow);
      ModUnique(node - pow - (m - 1), -1, node - pow + 1);
    }
  }

  /** The walk visits the siblings on the path in the mountain range over the first n leafs. */
  lemma WalkReadsPath(leafs: seq<Digest>, n: nat, i: nat, j: nat)
    requires i < n <= |leafs| && j < |Path(leafs[..n], i)|
    ensures var p := NodeIndex(j, Sibling(Shift(i, j)));
            p < |Layout(leafs)| && Layout(leafs)[p] == Path(leafs[..n], i)[j]
  {
    var k, small := Sibling(Shift(i, j)), leafs[..n];
    PathAt(small, i, j);
    ShiftMonotone(n, |leafs|, j);
    LayoutAt(leafs, j, k);
    LevelPrefix(leafs, n, j);
  }

  /** The walk's index arithmetic moves from node (h, k) to its sibling and its parent. */
  lemma WalkStep(n: nat, k: nat, h: nat)
    requires k < n && MerkleTreeIndex(n, k) > 1
    requires NodeIndex(h, k) < TWO_TO_THE_64 && NodeIndex(h, Sibling(k)) < TWO_TO_THE_64
    ensures var left := MerkleTreeIndex(n, k) % 2 == 0;
            && k / 2 < n / 2
            && SiblingIndex(NodeIndex(h, k), Pow2(h + 1), left) == NodeIndex(h, Sibling(k))
            && NodeIndex(h, k) + (if left then Pow2(h + 1) else 1) == NodeIndex(h + 1, k / 2)
            && MerkleTreeIndex(n, k) / 2 == MerkleTreeIndex(n / 2, k / 2)
            && TreeHeight(n, k) == 1 + TreeHeight(n / 2, k / 2)
  {
    hide NodeIndex, Pow2, SiblingIndex, MerkleTreeIndex, TreeHeight;
    MerkleTreeIndexStep(n, k);
    NodeStep(h, k);
  }

  lemma MerkleTreeIndexStep(n: nat, k: nat)
    requires k < n && MerkleTreeIndex(n, k) > 1
    ensures k / 2 < n / 2
    ensures MerkleTreeIndex(n, k) / 2 == MerkleTreeIndex(n / 2, k / 2)
    ensures MerkleTreeIndex(n, k) % 2 == k % 2
    ensures TreeHeight(n, k) == 1 + TreeHeight(n / 2, k / 2)
  {
    MerkleTreeIndexPositive(n, k);
  }

  lemma NodeStep(h: nat, k: nat)
    requires NodeIndex(h, k) < TWO_TO_THE_64 && NodeIndex(h, Sibling(k)) < TWO_TO_THE_64
    ensures SiblingIndex(NodeIndex(h, k), Pow2(h + 1), k % 2 == 0) == NodeIndex(h, Sibling(k))
    ensures NodeIndex(h, k) + (if k % 2 == 0 then Pow2(h + 1) else 1) == NodeIndex(h + 1, k / 2)
  {
    hide NodeIndex, Pow2, SiblingIndex;
    Relatives(h, k);
    Pow2Positive(h + 1);
    WrappedSibling(NodeIndex(h, k), Pow2(h + 1), k % 2 == 0);
  }

  class ArchivalMmr {
    var digests: seq<Digest>
    ghost var leafs: seq<Digest>

    ghost predicate Valid()
      reads this
    {
      digests == Layout(leafs)
    }

    /** ArchivalMmr::new: restore from storage, adding the dummy to an empty one. */
    constructor (storage: seq<Digest>, ghost stored: seq<Digest>)
      requires (storage == [] && stored == []) || storage == Layout(stored)
      ensures Valid() && leafs == stored
    {
      digests := if |storage| == 0 then [Default] else storage;
      leafs := stored;
      new;
      LayoutZero(stored);
    }

    method IsEmpty() returns (empty: bool)
      requires Valid()
      ensures empty <==> leafs == []
    {
      LayoutLength(leafs);
      LeafNodeIndex(|leafs|);
      empty := |digests| == 1;
      if empty { assert NumNodes(0) == 0; NumNodesMonotone(0, |leafs|); }
    }

    method NumLeafs() returns (n: nat)
      requires Valid()
      ensures n == |leafs|
    {
      LeafIndexFound(leafs);
      n := NodeIndexToLeafIndex(|digests|).value;
    }

    method Append(newLeaf: Digest) returns (path: seq<Digest>)
      requires Valid()
      modifies this
      ensures Valid() && leafs == old(leafs) + [newLeaf]
      ensures path == Path(leafs, |old(leafs)|)
    {
      hide NodeIndex, NumNodes, PopCount, Pow2, Parents, Level, Layout, Tail, Path, Locate;
      LeafIndexFound(leafs);
      LayoutLength(leafs);
      var nodeIndex := |digests|;
      var leafIndex := NodeIndexToLeafIndex(nodeIndex).value;
      var rightLineageLength := RightLineageLength(leafIndex);
      digests := digests + [newLeaf];
      path := [];
      var accHash := newLeaf;
      ghost var all := leafs + [newLeaf];
      RightLineageIsTail(leafIndex);
      TailLengthCorrect(all);
      LastPathLength(all);
      LayoutOfAppend(leafs, newLeaf);
      for height := 0 to rightLineageLength
        invariant leafs == old(leafs) && all == leafs + [newLeaf]
        invariant nodeIndex == NumNodes(|leafs|) + 1 + height
        invariant digests == Layout(leafs) + Tail(all)[..height + 1]
        invariant accHash == Tail(all)[height]
        invariant path == Path(all, |leafs|)[..height]
      {
        AppendNeighbour(leafs, newLeaf, height);
        AppendStep(all, height);
        var leftSiblingHash := digests[nodeIndex - Pow2(height + 1) + 1];
        path := path + [leftSiblingHash];
        accHash := HashPair(leftSiblingHash, accHash);
        digests := digests + [accHash];
        nodeIndex := nodeIndex + 1;
      }
      leafs := all;
    }

    method MutateLeaf(leafIndex: nat, newLeaf: Digest)
      requires Valid() && leafIndex < |leafs|
      modifies this
      ensures Valid() && leafs == old(leafs)[leafIndex := newLeaf]
    {
      hide NodeIndex, NumNodes, PopCount, Pow2, Parents, Level, Layout, Tail, Path, Locate;
      ghost var h: nat := 0;
      LayoutAt(leafs, 0, leafIndex);
      WriteLeaf(leafs, leafIndex, newLeaf);
      var nodeIndex := NodeIndex(0, leafIndex);
      digests := digests[nodeIndex := newLeaf];
      var parentIndex := Parent(nodeIndex);
      var accHash := newLeaf;
      while parentIndex < |digests|
        invariant leafs == old(leafs)
        invariant Shift(leafIndex, h) < Shift(|leafs|, h)
        invariant nodeIndex == NodeIndex(h, Shift(leafIndex, h)) && 0 < nodeIndex < |digests|
        invariant parentIndex == Parent(nodeIndex)
        invariant accHash == NewNode(leafs, leafIndex, newLeaf, h)
        invariant Written(leafs, leafIndex, newLeaf, digests, h)
        decreases |digests| - parentIndex
      {
        ParentAndSibling(leafs, leafIndex, h);
        MutateRound(leafs, leafIndex, newLeaf, digests, h);
        var (rightLineageCount, height) := RightLineageLengthAndOwnHeight(nodeIndex);
        if rightLineageCount != 0 {
          // node is right child
          accHash := HashPair(digests[nodeIndex - Pow2(height + 1) + 1], accHash);
        } else {
          // node is left child
          accHash := HashPair(accHash, digests[nodeIndex + Pow2(height + 1) - 1]);
        }
        WriteNext(leafs, leafIndex, newLeaf, digests, h);
        digests := digests[parentIndex := accHash];
        nodeIndex := parentIndex;
        parentIndex := Parent(parentIndex);
        h := h + 1;
      }
      ParentAndSibling(leafs, leafIndex, h);
      MutateDone(leafs, leafIndex, newLeaf, digests, h);
      leafs := leafs[leafIndex := newLeaf];
    }

    /** Mutate many leafs. The proof at each position becomes that of the leaf mutated at the same position. */
    method BatchMutateLeafAndUpdateMps(proofs: seq<seq<Digest>>, mutations: seq<(nat, Digest)>)
      returns (updated: seq<seq<Digest>>, modified: seq<nat>)
      requires Valid()
      requires forall a, b | 0 <= a < b < |mutations| :: mutations[a].0 != mutations[b].0
      requires forall a | 0 <= a < |mutations| :: mutations[a].0 < |leafs|
      modifies this
      ensures Valid() && |leafs| == |old(leafs)|
      ensures forall a | 0 <= a < |mutations| :: leafs[mutations[a].0] == mutations[a].1
      ensures forall i | 0 <= i < |leafs| ::
                (forall a | 0 <= a < |mutations| :: mutations[a].0 != i) ==> leafs[i] == old(leafs)[i]
      ensures |updated| == |proofs|
      ensures forall k | 0 <= k < |proofs| :: updated[k] == if k < |mutations| then Path(leafs, mutations[k].0) else proofs[k]
      ensures forall k :: k in modified <==> 0 <= k < |proofs| && updated[k] != proofs[k]
    {
      hide Path;
      MutateEach(mutations);
      updated, modified := UpdateProofs(proofs, mutations);
    }

    method MutateEach(mutations: seq<(nat, Digest)>)
      requires Valid()
      requires forall a, b | 0 <= a < b < |mutations| :: mutations[a].0 != mutations[b].0
      requires forall a | 0 <= a < |mutations| :: mutations[a].0 < |leafs|
      modifies this
      ensures Valid() && |leafs| == |old(leafs)|
      ensures forall a | 0 <= a < |mutations| :: leafs[mutations[a].0] == mutations[a].1
      ensures forall i | 0 <= i < |leafs| ::
                (forall a | 0 <= a < |mutations| :: mutations[a].0 != i) ==> leafs[i] == old(leafs)[i]
    {
      for m := 0 to |mutations|
        invariant Valid() && |leafs| == |old(leafs)|
        invariant forall a | 0 <= a < m :: leafs[mutations[a].0] == mutations[a].1
        invariant forall i | 0 <= i < |leafs| ::
                    (forall a | 0 <= a < m :: mutations[a].0 != i) ==> leafs[i] == old(leafs)[i]
      {
        MutateLeaf(mutations[m].0, mutations[m].1);
      }
    }

    /** Replace the proofs one by one, and list those that changed. */
    method UpdateProofs(proofs: seq<seq<Digest>>, mutations: seq<(nat, Digest)>) returns (updated: seq<seq<Digest>>, modified: seq<nat>)
      requires Valid() && forall a | 0 <= a < |mutations| :: mutations[a].0 < |leafs|
      ensures |updated| == |proofs|
      ensures forall k | 0 <= k < |proofs| :: updated[k] == if k < |mutations| then Path(leafs, mutations[k].0) else proofs[k]
      ensures forall k :: k in modified <==> 0 <= k < |proofs| && updated[k] != proofs[k]
    {
      hide Path;
      updated, modified := proofs, [];
      for k := 0 to if |proofs| < |mutations| then |proofs| else |mutations|
        invariant |updated| == |proofs|
        invariant forall j | 0 <= j < |proofs| :: updated[j] == if j < k then Path(leafs, mutations[j].0) else proofs[j]
        invariant forall j :: j in modified <==> 0 <= j < k && updated[j] != proofs[j]
      {
        var newProof := ProveMembership(mutations[k].0);
        if newProof != updated[k] { modified := modified + [k]; }
        updated := updated[k := newProof];
      }
    }

    method ProveMembership(leafIndex: nat) returns (path: seq<Digest>)
      requires Valid() && leafIndex < |leafs|
      ensures path == Path(leafs, leafIndex)
    {
      hide Path, Layout;
      PathLength(leafs, leafIndex);
      path := [];
      var numLeafs := NumLeafs();
      for j := 0 to TreeHeight(numLeafs, leafIndex)
        invariant |path| == j && path == Path(leafs, leafIndex)[..j]
      {
        PathAt(leafs, leafIndex, j);
        LayoutAt(leafs, j, Sibling(Shift(leafIndex, j)));
        path := path + [digests[NodeIndex(j, Sibling(Shift(leafIndex, j)))]];
      }
    }

    method GetLeaf(leafIndex: nat) returns (leaf: Digest)
      requires Valid() && leafIndex < |leafs|
      ensures leaf == leafs[leafIndex]
    {
      LayoutAt(leafs, 0, leafIndex);
      leaf := digests[NodeIndex(0, leafIndex)];
    }

    method TryGetLeaf(leafIndex: nat) returns (leaf: Option<Digest>)
      requires Valid()
      ensures leaf == if leafIndex < |leafs| then Some(leafs[leafIndex]) else None
    {
      var n := NumLeafs();
      if leafIndex >= n {
        leaf := None;
      } else {
        var found := GetLeaf(leafIndex);
        leaf := Some(found);
      }
    }

    method GetLatestLeaf() returns (leaf: Option<Digest>)
      requires Valid()
      ensures leaf == if leafs == [] then None else Some(leafs[|leafs| - 1])
    {
      var empty := IsEmpty();
      if empty { return None; }
      LastNodeLocated(leafs);
      var nodeIndex := |digests| - 1;
      var (_, height) := RightLineageLengthAndOwnHeight(nodeIndex);
      leaf := Some(digests[nodeIndex - height]);
    }

    method RemoveLastLeaf() returns (removed: Option<Digest>)
      requires Valid()
      modifies this
      ensures Valid()
      ensures old(leafs) == [] ==> removed == None && leafs == []
      ensures old(leafs) != [] ==>
                && removed == Some(old(leafs)[|old(leafs)| - 1])
                && leafs == old(leafs)[..|old(leafs)| - 1]
    {
      var empty := IsEmpty();
      if empty { return None; }
      LastNodeLocated(leafs);
      ghost var init := leafs[..|leafs| - 1];
      var nodeIndex := |digests| - 1;
      var last := digests[|digests| - 1];
      digests := digests[..|digests| - 1];
      var (_, height) := RightLineageLengthAndOwnHeight(nodeIndex);
      while height > 0
        invariant leafs == old(leafs)
        invariant height < |Tail(leafs)| && last == Tail(leafs)[height]
        invariant digests == Layout(init) + Tail(leafs)[..height]
      {
        last := digests[|digests| - 1];
        digests := digests[..|digests| - 1];
        height := height - 1;
      }
      leafs := init;
      removed := Some(last);
    }

    method PruneToNumLeafs(numLeafs: nat)
      requires Valid()
      modifies this
      ensures Valid()
      ensures leafs == if numLeafs <= |old(leafs)| then old(leafs)[..numLeafs] else old(leafs)
    {
      LeafNodeIndex(numLeafs);
      LayoutLength(leafs);
      if numLeafs <= |leafs| { LayoutPrefix(leafs, numLeafs); } else { NumNodesMonotone(|leafs|, numLeafs); }
      var indexOfLastRemoval := NodeIndex(0, numLeafs);
      while |digests| > indexOfLastRemoval
        invariant leafs == old(leafs) && |digests| <= |Layout(leafs)|
        invariant |digests| >= indexOfLastRemoval || digests == Layout(leafs)
        invariant digests == Layout(leafs)[..|digests|]
      {
        digests := digests[..|digests| - 1];
      }
      leafs := if numLeafs <= |leafs| then leafs[..numLeafs] else leafs;
    }

    method PeakDigests() returns (peaks: seq<Digest>)
      requires Valid()
      ensures peaks == Peaks(leafs)
    {
      var n := NumLeafs();
      PeaksAt(leafs, 0);
      peaks := GetMany(digests, PeakIndices(n, 0));
    }

    method ProveMembershipRelativeToSmallerMmr(leafIndex: nat, numLeafs: nat) returns (path: seq<Digest>)
      requires Valid() && leafIndex < numLeafs <= |leafs|
      requires |digests| <= TWO_TO_THE_64
      ensures path == Path(leafs[..numLeafs], leafIndex)
      ensures Verify(path, leafIndex, leafs[leafIndex], Peaks(leafs[..numLeafs]), numLeafs)
    {
      ghost var small := leafs[..numLeafs];
      LayoutLength(leafs);
      NumNodesMonotone(numLeafs, |leafs|);
      PathLength(small, leafIndex);
      var nodeIndices := AuthPathNodeIndices(numLeafs, leafIndex);
      forall j | 0 <= j < |nodeIndices|
        ensures nodeIndices[j] < |digests| && digests[nodeIndices[j]] == Path(small, leafIndex)[j]
      {
        WalkReadsPath(leafs, numLeafs, leafIndex, j);
      }
      path := GetMany(digests, nodeIndices);
      assert path == Path(small, leafIndex);
      VerifyIffPath(path, leafIndex, leafs[leafIndex], small);
    }
  }

  /** The positions of the nodes on a leaf's authentication path. */
  method AuthPathNodeIndices(numLeafs: nat, leafIndex: nat) returns (indices: seq<nat>)
    requires leafIndex < numLeafs && NumNodes(numLeafs) < TWO_TO_THE_64
    ensures |indices| == TreeHeight(numLeafs, leafIndex)
    ensures forall j | 0 <= j < |indices| :: indices[j] == NodeIndex(j, Sibling(Shift(leafIndex, j)))
  {
    var merkleTreeIndex := MerkleTreeIndex(numLeafs, leafIndex);
    var nodeIndex := NodeIndex(0, leafIndex);
    var height := 0;
    indices := [];
    ghost var n, k := numLeafs, leafIndex;
    assert Shift(numLeafs, 0) == numLeafs && Shift(leafIndex, 0) == leafIndex;
    hide NodeIndex, NumNodes, Pow2, SiblingIndex, Shift, MerkleTreeIndex, TreeHeight;
    while merkleTreeIndex > 1
      invariant n == Shift(numLeafs, height) && k == Shift(leafIndex, height)
      invariant k < n && merkleTreeIndex == MerkleTreeIndex(n, k) && nodeIndex == NodeIndex(height, k)
      invariant |indices| == height && TreeHeight(numLeafs, leafIndex) == height + TreeHeight(n, k)
      invariant forall j | 0 <= j < height :: indices[j] == NodeIndex(j, Sibling(Shift(leafIndex, j)))
      decreases merkleTreeIndex
    {
      MerkleTreeIndexPositive(n, k);
      NodeWithin(numLeafs, height, k);
      NodeWithin(numLeafs, height, Sibling(k));
      WalkStep(n, k, height);
      ShiftStep(numLeafs, height);
      ShiftStep(leafIndex, height);
      var isLeftSibling := merkleTreeIndex % 2 == 0;
      var heightPow := Pow2(height + 1);
      var sibling := SiblingIndex(nodeIndex, heightPow, isLeftSibling);
      nodeIndex := nodeIndex + (if isLeftSibling then heightPow else 1);
      indices := indices + [sibling];
      merkleTreeIndex := merkleTreeIndex / 2;
      height := height + 1;
      n, k := n / 2, k / 2;
    }
    MerkleTreeIndexPositive(n, k);
  }
}
