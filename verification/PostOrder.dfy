/** The flat vector in which an archival mountain range keeps its nodes: a dummy at position 0, then
    all nodes in post-order. Node (h, k) is the k-th node at height h, counted from the left. */
module PostOrder {
  import opened Digests
  import opened MountainRange

  // ---------- positions ----------

  function Pow2(e: nat): nat {
    if e == 0 then 1 else 2 * Pow2(e - 1)
  }

  function PopCount(k: nat): nat {
    if k == 0 then 0 else k % 2 + PopCount(k / 2)
  }

  lemma {:induction false} PopCountBound(k: nat)
    ensures PopCount(k) <= k
  {
    if k > 0 { PopCountBound(k / 2); }
  }

  lemma {:induction false} Pow2Positive(e: nat)
    ensures Pow2(e) >= 1
  {
    if e > 0 { Pow2Positive(e - 1); }
  }

  lemma {:induction false} Pow2Monotone(a: nat, b: nat)
    requires a <= b
    ensures Pow2(a) <= Pow2(b)
    decreases b
  {
    if a < b { Pow2Monotone(a, b - 1); }
  }

  lemma {:induction false} Pow2Sum(a: nat, b: nat)
    ensures Pow2(a + b) == Pow2(a) * Pow2(b)
    decreases a
  {
    if a > 0 { Pow2Sum(a - 1, b); }
  }

  function NodeIndex(h: nat, k: nat): (p: nat)
    ensures p > k
  {
    PopCountBound(k);
    Pow2Positive(h);
    assert (k + 1) * Pow2(h + 1) >= (k + 1) * 2;
    (k + 1) * Pow2(h + 1) - 1 - PopCount(k)
  }

  /** The number of nodes in a mountain range of n leafs. */
  function NumNodes(n: nat): (r: nat)
    ensures r >= n
  {
    PopCountBound(n);
    2 * n - PopCount(n)
  }

  /** shared_advanced::leaf_index_to_node_index. A new leaf goes right behind the nodes of its predecessors. */
  lemma LeafNodeIndex(n: nat)
    ensures NodeIndex(0, n) == NumNodes(n) + 1
  {
    assert Pow2(1) == 2 * Pow2(0);
  }

  /** sibling = node +- (2^(h+1) - 1); parent = node + 1 from the right, node + 2^(h+1) from the left. */
  lemma Relatives(h: nat, k: nat)
    ensures k % 2 == 0 ==> NodeIndex(h, k + 1) == NodeIndex(h, k) + Pow2(h + 1) - 1
    ensures k % 2 == 0 ==> NodeIndex(h + 1, k / 2) == NodeIndex(h, k) + Pow2(h + 1)
    ensures k % 2 == 1 ==> NodeIndex(h, k - 1) == NodeIndex(h, k) - Pow2(h + 1) + 1
    ensures k % 2 == 1 ==> NodeIndex(h + 1, k / 2) == NodeIndex(h, k) + 1
  {
    var p := Pow2(h + 1);
    assert Pow2(h + 2) == 2 * p;
    if k % 2 == 0 {
      assert PopCount(k + 1) == 1 + PopCount(k / 2);
      assert PopCount(k) == PopCount(k / 2);
      assert (k / 2 + 1) * (2 * p) == (k + 1) * p + p;
      assert (k + 2) * p == (k + 1) * p + p;
    } else {
      assert PopCount(k) == 1 + PopCount(k / 2);
      assert PopCount(k - 1) == PopCount((k - 1) / 2) == PopCount(k / 2);
      assert (k / 2 + 1) * (2 * p) == (k + 1) * p;
      assert (k + 1) * p == k * p + p;
    }
  }

  // ---------- the layout ----------

  /** The nodes that the last leaf completes, bottom up. */
  function Tail(leafs: seq<Digest>): seq<Digest>
    requires leafs != []
    decreases |leafs|
  {
    [leafs[|leafs| - 1]] + if |leafs| % 2 == 0 then Tail(Parents(leafs)) else []
  }

  function Layout(leafs: seq<Digest>): seq<Digest> {
    if leafs == [] then [Default] else Layout(leafs[..|leafs| - 1]) + Tail(leafs)
  }

  /** The number of nodes that the n-th leaf completes. */
  function TailLength(n: nat): (length: nat)
    requires n > 0
    ensures length > 0
  {
    1 + if n % 2 == 0 then TailLength(n / 2) else 0
  }

  lemma {:induction false} TailLengthCorrect(leafs: seq<Digest>)
    requires leafs != []
    ensures |Tail(leafs)| == TailLength(|leafs|)
    decreases |leafs|
  {
    if |leafs| % 2 == 0 { TailLengthCorrect(Parents(leafs)); }
  }

  lemma {:induction false} NumNodesStep(n: nat)
    requires n > 0
    ensures NumNodes(n) == NumNodes(n - 1) + TailLength(n)
  {
    if n % 2 == 0 {
      NumNodesStep(n / 2);
      assert PopCount(n - 1) == 1 + PopCount(n / 2 - 1);
    } else {
      assert PopCount(n - 1) == PopCount(n / 2);
    }
  }

  lemma {:induction false} LayoutLength(leafs: seq<Digest>)
    ensures |Layout(leafs)| == NumNodes(|leafs|) + 1
  {
    if leafs != [] {
      LayoutLength(leafs[..|leafs| - 1]);
      TailLengthCorrect(leafs);
      NumNodesStep(|leafs|);
    }
  }

  lemma {:induction false} NumNodesMonotone(m: nat, n: nat)
    requires m <= n
    ensures NumNodes(m) <= NumNodes(n)
    ensures m < n ==> NumNodes(m) < NumNodes(n)
    decreases n
  {
    if m < n {
      NumNodesStep(n);
      NumNodesMonotone(m, n - 1);
    }
  }

  /** The layout of the first m leafs is a prefix of the layout of all. */
  lemma {:induction false} LayoutPrefix(leafs: seq<Digest>, m: nat)
    requires m <= |leafs|
    ensures NumNodes(m) < |Layout(leafs)|
    ensures Layout(leafs)[..NumNodes(m) + 1] == Layout(leafs[..m])
    decreases |leafs|
  {
    LayoutLength(leafs);
    LeafNodeIndex(m);
    NumNodesMonotone(m, |leafs|);
    if m == |leafs| {
      assert leafs[..m] == leafs;
    } else {
      var init := leafs[..|leafs| - 1];
      LayoutPrefix(init, m);
      assert init[..m] == leafs[..m];
      assert Layout(leafs)[..NumNodes(m) + 1] == Layout(init)[..NumNodes(m) + 1];
    }
  }

  // ---------- which node sits where ----------

  function Level(leafs: seq<Digest>, h: nat): seq<Digest>
    decreases h
  {
    if h == 0 then leafs else Level(Parents(leafs), h - 1)
  }

  function Shift(n: nat, h: nat): nat
    decreases h
  {
    if h == 0 then n else Shift(n / 2, h - 1)
  }

  lemma {:induction false} LevelLength(leafs: seq<Digest>, h: nat)
    ensures |Level(leafs, h)| == Shift(|leafs|, h)
    decreases h
  {
    if h > 0 { LevelLength(Parents(leafs), h - 1); }
  }

  lemma {:induction false} LevelStep(leafs: seq<Digest>, h: nat)
    ensures Level(leafs, h + 1) == Parents(Level(leafs, h))
    decreases h
  {
    if h > 0 { LevelStep(Parents(leafs), h - 1); }
  }

  lemma {:induction false} ShiftStep(n: nat, h: nat)
    ensures Shift(n, h + 1) == Shift(n, h) / 2
    decreases h
  {
    if h > 0 { ShiftStep(n / 2, h - 1); }
  }

  lemma {:induction false} LevelPrefix(leafs: seq<Digest>, m: nat, h: nat)
    requires m <= |leafs|
    ensures |Level(leafs[..m], h)| <= |Level(leafs, h)|
    ensures Level(leafs[..m], h) == Level(leafs, h)[..|Level(leafs[..m], h)|]
    decreases h
  {
    if h > 0 {
      ParentsOfPrefix(leafs, m);
      LevelPrefix(Parents(leafs), m / 2, h - 1);
    }
  }

  /** The tail holds the last node of each level it reaches. */
  lemma {:induction false} TailIsLastNodes(leafs: seq<Digest>, h: nat)
    requires leafs != [] && h < |Tail(leafs)|
    ensures Level(leafs, h) != [] && Tail(leafs)[h] == Level(leafs, h)[|Level(leafs, h)| - 1]
    decreases h
  {
    hide Parents;
    if h > 0 { TailIsLastNodes(Parents(leafs), h - 1); }
  }

  /** The last leaf completes one node at each height its tail reaches, and none beyond. */
  lemma {:induction false} ShiftOfPredecessor(n: nat, h: nat)
    requires n > 0
    ensures h < TailLength(n) ==> Shift(n, h) > 0
    ensures Shift(n - 1, h) == if h < TailLength(n) then Shift(n, h) - 1 else Shift(n, h)
    decreases h
  {
    if h > 0 {
      if n % 2 == 0 {
        assert (n - 1) / 2 == n / 2 - 1;
        ShiftOfPredecessor(n / 2, h - 1);
      } else {
        assert (n - 1) / 2 == n / 2;
      }
    }
  }

  lemma {:induction false} TailPositions(n: nat, h: nat)
    requires n > 0 && h < TailLength(n)
    ensures Shift(n, h) > 0
    ensures NodeIndex(h, Shift(n, h) - 1) == NumNodes(n - 1) + 1 + h
    ensures h + 1 < TailLength(n) <==> Shift(n, h) % 2 == 0
    decreases h
  {
    hide NodeIndex, NumNodes, PopCount, Pow2;
    if h == 0 {
      LeafNodeIndex(n - 1);
      assert Shift(n, 0) == n;
    } else {
      hide Shift, TailLength;
      TailPositions(n, h - 1);
      TailParity(n, h);
      ShiftStep(n, h - 1);
      var s := Shift(n, h - 1);
      Relatives(h - 1, s - 1);
      assert (s - 1) / 2 == s / 2 - 1;
    }
  }

  lemma {:induction false} TailParity(n: nat, h: nat)
    requires n > 0 && h < TailLength(n)
    ensures Shift(n, h) > 0
    ensures h + 1 < TailLength(n) <==> Shift(n, h) % 2 == 0
    decreases h
  {
    if h > 0 { TailParity(n / 2, h - 1); }
  }

  /** Position NodeIndex(h, k) of the vector holds node k of level h. */
  lemma {:induction false} LayoutAt(leafs: seq<Digest>, h: nat, k: nat)
    requires k < Shift(|leafs|, h)
    ensures NodeIndex(h, k) < |Layout(leafs)|
    ensures k < |Level(leafs, h)| && Layout(leafs)[NodeIndex(h, k)] == Level(leafs, h)[k]
    decreases |leafs|
  {
    hide NodeIndex, NumNodes, PopCount, Pow2, Shift, TailLength, Level, Tail;
    LevelLength(leafs, h);
    if leafs == [] {
      ShiftZero(h);
    } else {
      var n, init := |leafs|, leafs[..|leafs| - 1];
      ShiftOfPredecessor(n, h);
      LayoutLength(init);
      LayoutLength(leafs);
      if k < Shift(n - 1, h) {
        LayoutAt(init, h, k);
        LevelPrefix(leafs, n - 1, h);
      } else {
        TailLengthCorrect(leafs);
        TailIsLastNodes(leafs, h);
        TailPositions(n, h);
      }
    }
  }

  lemma {:induction false} ShiftZero(h: nat)
    ensures Shift(0, h) == 0
  {
    if h > 0 { ShiftZero(h - 1); }
  }

  /** The height and place of the node at a position, searching from leaf n on. */
  function LocateFrom(p: nat, n: nat): (nat, nat)
    requires p >= NumNodes(n) + 1
    decreases p - NumNodes(n)
  {
    NumNodesStep(n + 1);
    var h := p - 1 - NumNodes(n);
    if h < TailLength(n + 1) then (h, Shift(n, h)) else LocateFrom(p, n + 1)
  }

  /** The height and place of the node at position p, as right_lineage_length_and_own_height finds them. */
  function Locate(p: nat): (nat, nat)
    requires p > 0
  {
    LocateFrom(p, 0)
  }

  /** Every position of a layout holds a node, which Locate finds. */
  lemma {:induction false} LocateFromCorrect(p: nat, n: nat, end: nat)
    requires NumNodes(n) + 1 <= p <= NumNodes(end)
    ensures n < end
    ensures var (h, k) := LocateFrom(p, n); NodeIndex(h, k) == p && k < Shift(end, h)
    decreases p - NumNodes(n)
  {
    if end <= n { NumNodesMonotone(end, n); }
    NumNodesStep(n + 1);
    var h := p - 1 - NumNodes(n);
    if h < TailLength(n + 1) {
      TailPositions(n + 1, h);
      ShiftOfPredecessor(n + 1, h);
      ShiftMonotone(n + 1, end, h);
    } else {
      if end == n + 1 { assert false; }
      LocateFromCorrect(p, n + 1, end);
    }
  }

  lemma {:induction false} ShiftMonotone(m: nat, n: nat, h: nat)
    requires m <= n
    ensures Shift(m, h) <= Shift(n, h)
    decreases h
  {
    if h > 0 { ShiftMonotone(m / 2, n / 2, h - 1); }
  }

  /** The last leaf below node (h, k) is number (k + 1) 2^h - 1; that leaf completes the node. */
  lemma {:induction false} LastLeafBelow(h: nat, k: nat) returns (n: nat)
    ensures h < TailLength(n + 1) && Shift(n + 1, h) == k + 1
    decreases h
  {
    if h == 0 {
      n := k;
    } else {
      var m := LastLeafBelow(h - 1, k);
      n := 2 * m + 1;
      assert (n + 1) / 2 == m + 1;
    }
  }

  lemma {:induction false} LocateFromFinds(n: nat, h: nat, start: nat)
    requires h < TailLength(n + 1) && start <= n
    ensures NumNodes(n) + 1 + h >= NumNodes(start) + 1
    ensures LocateFrom(NumNodes(n) + 1 + h, start) == (h, Shift(n, h))
    decreases n - start
  {
    NumNodesMonotone(start, n);
    if start < n {
      NumNodesStep(start + 1);
      NumNodesMonotone(start + 1, n);
      LocateFromFinds(n, h, start + 1);
    }
  }

  /** Positions and nodes correspond one to one. */
  lemma LocateInvertsNodeIndex(h: nat, k: nat)
    ensures Locate(NodeIndex(h, k)) == (h, k)
  {
    var n := LastLeafBelow(h, k);
    TailPositions(n + 1, h);
    ShiftOfPredecessor(n + 1, h);
    LeafNodeIndex(n);
    LocateFromFinds(n, h, 0);
  }

  // ---------- peaks and paths, read off the vector ----------

  /** shared_advanced::get_peak_heights_and_peak_node_indices, from height h on. */
  function PeakIndices(n: nat, h: nat): seq<nat>
    decreases n
  {
    if n == 0 then []
    else PeakIndices(n / 2, h + 1) + if n % 2 == 1 then [NodeIndex(h, n - 1)] else []
  }

  /** StorageVec::get_many */
  function GetMany(digests: seq<Digest>, indices: seq<nat>): seq<Digest>
    requires forall k | 0 <= k < |indices| :: indices[k] < |digests|
  {
    seq(|indices|, k requires 0 <= k < |indices| => digests[indices[k]])
  }

  lemma {:induction false} PeaksAt(leafs: seq<Digest>, h: nat)
    ensures var ps := PeakIndices(Shift(|leafs|, h), h);
            && (forall k | 0 <= k < |ps| :: ps[k] < |Layout(leafs)|)
            && GetMany(Layout(leafs), ps) == Peaks(Level(leafs, h))
    decreases Shift(|leafs|, h)
  {
    var n := Shift(|leafs|, h);
    LevelLength(leafs, h);
    if n > 0 {
      ShiftStep(|leafs|, h);
      LevelStep(leafs, h);
      PeaksAt(leafs, h + 1);
      if n % 2 == 1 { LayoutAt(leafs, h, n - 1); }
    }
  }

  /** Entry j of a path is the sibling of the j-th ancestor. */
  lemma {:induction false} PathAt(leafs: seq<Digest>, i: nat, j: nat)
    requires i < |leafs| && j < |Path(leafs, i)|
    ensures Sibling(Shift(i, j)) < Shift(|leafs|, j) == |Level(leafs, j)|
    ensures Path(leafs, i)[j] == Level(leafs, j)[Sibling(Shift(i, j))]
    decreases j
  {
    LevelLength(leafs, j);
    if j > 0 { PathAt(Parents(leafs), i / 2, j - 1); }
  }

  /** shared_basic::leaf_index_to_mt_index_and_peak_index: leaf i as a node of its own tree, root 1. */
  function MerkleTreeIndex(n: nat, i: nat): nat
    requires i < n
  {
    if i / 2 < n / 2 then 2 * MerkleTreeIndex(n / 2, i / 2) + i % 2 else 1
  }

  lemma {:induction false} MerkleTreeIndexPositive(n: nat, i: nat)
    requires i < n
    ensures MerkleTreeIndex(n, i) >= 1
    ensures MerkleTreeIndex(n, i) > 1 <==> i / 2 < n / 2
    ensures MerkleTreeIndex(n, i) > 1 <==> TreeHeight(n, i) > 0
    decreases n
  {
    if i / 2 < n / 2 { MerkleTreeIndexPositive(n / 2, i / 2); }
  }

  lemma NodePresent(n: nat, h: nat, k: nat)
    ensures NodeIndex(h, k) <= NumNodes(n) ==> k < Shift(n, h)
  {
    LocateInvertsNodeIndex(h, k);
    if NodeIndex(h, k) <= NumNodes(n) {
      assert NumNodes(0) == 0;
      LocateFromCorrect(NodeIndex(h, k), 0, n);
    }
  }

  lemma NodeWithin(n: nat, h: nat, k: nat)
    requires k < Shift(n, h)
    ensures NodeIndex(h, k) <= NumNodes(n)
  {
    var leafs := seq(n, _ => Default);
    LayoutAt(leafs, h, k);
    LayoutLength(leafs);
  }
}
