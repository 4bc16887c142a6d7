/** The Merkle tree of the proof-of-work buffer: leafs in one vector, internal nodes heap-shaped in
    another, the root at position 1. Level(leafs, l) is the list of its nodes at height l. */
module MerkleTrees {
  import opened Digests
  import opened MountainRange
  import opened PostOrder

  const CHECKPOINT_DISTANCE: nat := 0x80000

  // ---------- powers of two ----------

  lemma {:induction false} ILog2OfPow2(h: nat)
    ensures Pow2(h) >= 1 && ILog2(Pow2(h)) == h
  {
    Pow2Positive(h);
    if h > 0 { ILog2OfPow2(h - 1); }
  }

  lemma {:induction false} ShiftOfPow2(h: nat, l: nat)
    requires l <= h
    ensures Shift(Pow2(h), l) == Pow2(h - l)
    decreases l
  {
    if l > 0 { ShiftOfPow2(h - 1, l - 1); }
  }

  lemma {:induction false} ShiftBelow(h: nat, i: nat, l: nat)
    requires l <= h && i < Pow2(h)
    ensures Shift(i, l) < Pow2(h - l)
    decreases l
  {
    if l > 0 { ShiftBelow(h - 1, i / 2, l - 1); }
  }

  /** A full tree's paths all have its height. */
  lemma {:induction false} FullTreeHeight(h: nat, i: nat)
    requires i < Pow2(h)
    ensures TreeHeight(Pow2(h), i) == h
    decreases h
  {
    if h > 0 { FullTreeHeight(h - 1, i / 2); }
  }

  lemma LevelOfPow2(leafs: seq<Digest>, h: nat, l: nat)
    requires |leafs| == Pow2(h) && l <= h
    ensures |Level(leafs, l)| == Pow2(h - l)
  {
    LevelLength(leafs, l);
    ShiftOfPow2(h, l);
  }

  function Root(leafs: seq<Digest>, h: nat): Digest
    requires |leafs| == Pow2(h)
  {
    LevelOfPow2(leafs, h, h);
    Level(leafs, h)[0]
  }

  // ---------- one layer of parents ----------

  /** Nodes [start, start + count) have become the hashes of the children's pairs, and nothing else changed. */
  ghost predicate Zipped(before: seq<Digest>, after: seq<Digest>, start: nat, count: nat, children: seq<Digest>)
    requires start + count <= |before| && 2 * count <= |children|
  {
    && |after| == |before|
    && (forall p | 0 <= p < |before| && !(start <= p < start + count) :: after[p] == before[p])
    && (forall j | 0 <= j < count :: after[start + j] == HashPair(children[2 * j], children[2 * j + 1]))
  }

  /** The parents are nodes[start..start + count], the children start at source[from]. */
  method MerkleZip(nodes: array<Digest>, start: nat, count: nat, source: array<Digest>, from: nat)
    requires start + count <= nodes.Length && from + 2 * count <= source.Length
    requires nodes == source ==> start + count <= from
    modifies nodes
    ensures Zipped(old(nodes[..]), nodes[..], start, count, old(source[from..]))
    ensures forall p | 0 <= p < nodes.Length && !(start <= p < start + count) :: nodes[p] == old(nodes[p])
  {
    for j := 0 to count
      invariant Zipped(old(nodes[..]), nodes[..], start, j, old(source[from..]))
      invariant source[from..] == old(source[from..])
    {
      nodes[start + j] := HashPair(source[from + 2 * j], source[from + 2 * j + 1]);
    }
  }

  lemma CheckpointIsPow2()
    ensures Pow2(19) == CHECKPOINT_DISTANCE
  {
    assert Pow2(4) == 16;
    Pow2Sum(4, 4);
    Pow2Sum(8, 8);
    assert Pow2(19) == 8 * Pow2(16);
  }

  lemma CheckpointsCover(e: nat)
    ensures var distance := if Pow2(e) < CHECKPOINT_DISTANCE then Pow2(e) else CHECKPOINT_DISTANCE;
            distance > 0 && distance * (Pow2(e) / distance) == Pow2(e)
  {
    hide Pow2;
    Pow2Positive(e);
    CheckpointIsPow2();
    if e >= 19 {
      Pow2Sum(19, e - 19);
      Pow2Positive(e - 19);
      WholeCheckpoints(Pow2(e), Pow2(e - 19));
    } else {
      Pow2Monotone(e, 19);
      OneCheckpoint(Pow2(e));
    }
  }

  lemma WholeCheckpoints(count: nat, stretches: nat)
    requires count == CHECKPOINT_DISTANCE * stretches && stretches > 0
    ensures count >= CHECKPOINT_DISTANCE && CHECKPOINT_DISTANCE * (count / CHECKPOINT_DISTANCE) == count
  {
  }

  lemma OneCheckpoint(count: nat)
    requires 0 < count
    ensures count * (count / count) == count
  {
    assert count / count == 1;
  }

  lemma ZipNone(nodes: seq<Digest>, start: nat, children: seq<Digest>)
    requires start <= |nodes|
    ensures Zipped(nodes, nodes, start, 0, children)
  {
  }

  lemma ZipJoin(before: seq<Digest>, mid: seq<Digest>, after: seq<Digest>, start: nat, a: nat, b: nat, children: seq<Digest>)
    requires start + a + b <= |before| && 2 * (a + b) <= |children|
    requires Zipped(before, mid, start, a, children) && Zipped(mid, after, start + a, b, children[2 * a..])
    ensures Zipped(before, after, start, a + b, children)
  {
    forall j | 0 <= j < a + b ensures after[start + j] == HashPair(children[2 * j], children[2 * j + 1]) {
      if j < a {
        assert after[start + j] == mid[start + j];
      } else {
        var k := j - a;
        assert after[start + a + k] == HashPair(children[2 * a..][2 * k], children[2 * a..][2 * k + 1]);
      }
    }
  }

  /** The same in stretches of CHECKPOINT_DISTANCE parents. Only whole stretches are processed. */
  method ParMerkleZip(nodes: array<Digest>, start: nat, count: nat, source: array<Digest>, from: nat, ghost e: nat)
    requires start + count <= nodes.Length && from + 2 * count <= source.Length
    requires nodes == source ==> start + count <= from
    requires count == Pow2(e)
    modifies nodes
    ensures Zipped(old(nodes[..]), nodes[..], start, count, old(source[from..]))
  {
    hide Zipped;
    CheckpointsCover(e);
    ZipNone(nodes[..], start, source[from..]);
    var distance := if count < CHECKPOINT_DISTANCE then count else CHECKPOINT_DISTANCE;
    var checkpoints := count / distance;
    for i := 0 to checkpoints
      invariant distance * i <= count
      invariant Zipped(old(nodes[..]), nodes[..], start, distance * i, old(source[from..]))
      invariant source[from..] == old(source[from..])
    {
      assert distance * i + distance == distance * (i + 1) <= distance * checkpoints;
      ghost var mid := nodes[..];
      var skip := distance * i;
      MerkleZip(nodes, start + skip, distance, source, from + 2 * skip);
      assert old(source[from..])[2 * skip..] == old(source[from + 2 * skip..]);
      ZipJoin(old(nodes[..]), mid, nodes[..], start, skip, distance, old(source[from..]));
    }
  }

  // ---------- the heap ----------

  /** The nodes at depth d are in place. */
  ghost predicate DepthDone(nodes: seq<Digest>, leafs: seq<Digest>, h: nat, d: nat)
    requires |leafs| == Pow2(h) && d < h
  {
    LevelOfPow2(leafs, h, h - d);
    Pow2(d + 1) <= |nodes| && nodes[Pow2(d)..Pow2(d + 1)] == Level(leafs, h - d)
  }

  ghost predicate DepthsDone(nodes: seq<Digest>, leafs: seq<Digest>, h: nat, from: nat)
    requires |leafs| == Pow2(h)
  {
    forall d | from <= d < h :: DepthDone(nodes, leafs, h, d)
  }

  /** The hashes of a level's pairs are the next level up. */
  lemma ZippedParents(before: seq<Digest>, after: seq<Digest>, start: nat, count: nat, children: seq<Digest>)
    requires start + count <= |before| && 2 * count <= |children| && Zipped(before, after, start, count, children)
    ensures |after| == |before| && after[start..start + count] == Parents(children[..2 * count])
  {
  }

  lemma FirstLayer(before: seq<Digest>, after: seq<Digest>, leafs: seq<Digest>, h: nat)
    requires h > 0 && |leafs| == Pow2(h) == |before|
    requires Zipped(before, after, Pow2(h - 1), Pow2(h - 1), leafs)
    ensures DepthsDone(after, leafs, h, h - 1)
  {
    hide Zipped, Parents;
    LevelOfPow2(leafs, h, 1);
    ZippedParents(before, after, Pow2(h - 1), Pow2(h - 1), leafs);
    assert leafs[..2 * Pow2(h - 1)] == leafs;
    assert Level(leafs, 1) == Parents(leafs);
  }

  lemma NextLayer(before: seq<Digest>, after: seq<Digest>, leafs: seq<Digest>, h: nat, d: nat)
    requires d + 1 < h && |leafs| == Pow2(h) == |before| && Pow2(d + 2) <= Pow2(h)
    requires DepthsDone(before, leafs, h, d + 1)
    requires Zipped(before, after, Pow2(d), Pow2(d), before[Pow2(d + 1)..])
    ensures DepthsDone(after, leafs, h, d)
  {
    hide Zipped, Parents, Level;
    LevelOfPow2(leafs, h, h - d - 1);
    LevelOfPow2(leafs, h, h - d);
    LevelStep(leafs, h - d - 1);
    ZippedParents(before, after, Pow2(d), Pow2(d), before[Pow2(d + 1)..]);
    assert DepthDone(before, leafs, h, d + 1);
    assert before[Pow2(d + 1)..][..2 * Pow2(d)] == before[Pow2(d + 1)..Pow2(d + 2)];
    forall e | d < e < h ensures DepthDone(after, leafs, h, e) {
      assert DepthDone(before, leafs, h, e);
      Pow2Monotone(d + 1, e);
      Pow2Monotone(e + 1, h);
      ZippedKeeps(before, after, Pow2(d), Pow2(d), before[Pow2(d + 1)..], Pow2(e), Pow2(e + 1));
    }
  }

  lemma ZippedKeeps(before: seq<Digest>, after: seq<Digest>, start: nat, count: nat, children: seq<Digest>, a: nat, b: nat)
    requires start + count <= |before| && 2 * count <= |children| && Zipped(before, after, start, count, children)
    requires start + count <= a <= b <= |before|
    ensures |after| == |before| && after[a..b] == before[a..b]
  {
  }

  class MTree {
    const leafs: array<Digest>
    const internalNodes: array<Digest>
    ghost const height: nat

    ghost predicate Valid()
      reads leafs, internalNodes
    {
      && height > 0 && leafs.Length == Pow2(height) == internalNodes.Length
      && DepthsDone(internalNodes[..], leafs[..], height, 0)
    }

    /** Build the tree within the given vectors. */
    constructor BuildInplace(leafs: array<Digest>, internalNodes: array<Digest>, ghost h: nat)
      requires h > 0 && leafs.Length == Pow2(h) == internalNodes.Length && leafs != internalNodes
      modifies internalNodes
      ensures this.leafs == leafs && this.internalNodes == internalNodes && height == h && Valid()
      ensures leafs[..] == old(leafs[..])
    {
      this.leafs, this.internalNodes := leafs, internalNodes;
      this.height := h;
      new;
      ILog2OfPow2(h);
      var height := ILog2(leafs.Length);
      var sequentialLayers := if height < 8 then height else 8;
      var cutoff := if height - sequentialLayers < 1 then 1 else height - sequentialLayers;
      ghost var before := internalNodes[..];
      assert leafs[0..] == leafs[..];
      ParMerkleZip(internalNodes, Pow2(height - 1), Pow2(height - 1), leafs, 0, height - 1);
      FirstLayer(before, internalNodes[..], leafs[..], h);
      for layer := 1 to cutoff
        invariant leafs[..] == old(leafs[..])
        invariant DepthsDone(internalNodes[..], leafs[..], h, h - layer)
      {
        BuildLayer(layer, true);
      }
      for layer := cutoff to height
        invariant leafs[..] == old(leafs[..])
        invariant DepthsDone(internalNodes[..], leafs[..], h, h - layer)
      {
        BuildLayer(layer, false);
      }
    }

    /** Hash the nodes of one layer into their parents. */
    method BuildLayer(layer: nat, parallel: bool)
      requires 0 < layer < height && leafs.Length == Pow2(height) == internalNodes.Length && leafs != internalNodes
      requires DepthsDone(internalNodes[..], leafs[..], height, height - layer)
      modifies internalNodes
      ensures DepthsDone(internalNodes[..], leafs[..], height, height - layer - 1)
    {
      ILog2OfPow2(height);
      var d := ILog2(leafs.Length) - 1 - layer;
      var parentsStart, midPoint := Pow2(d), Pow2(d + 1);
      Pow2Monotone(d + 2, height);
      ghost var before := internalNodes[..];
      assert internalNodes[midPoint..] == before[midPoint..];
      if parallel {
        ParMerkleZip(internalNodes, parentsStart, midPoint - parentsStart, internalNodes, midPoint, d);
      } else {
        MerkleZip(internalNodes, parentsStart, midPoint - parentsStart, internalNodes, midPoint);
      }
      NextLayer(before, internalNodes[..], leafs[..], height, d);
    }

    function GetRoot(): (root: Digest)
      requires Valid()
      reads leafs, internalNodes
      ensures root == Root(leafs[..], height)
    {
      Pow2Monotone(1, height);
      assert DepthDone(internalNodes[..], leafs[..], height, 0);
      assert internalNodes[..][1..2][0] == internalNodes[1];
      internalNodes[1]
    }

    /** Read the authentication path of a leaf off the two vectors. */
    method Path(index: nat) returns (path: seq<Digest>)
      requires Valid() && index < leafs.Length
      ensures path == MountainRange.Path(leafs[..], index) && |path| == height
    {
      ghost var h := height;
      PathLength(leafs[..], index);
      FullTreeHeight(h, index);
      ILog2OfPow2(h);
      var runningIndex := index + leafs.Length;
      PathAt(leafs[..], index, 0);
      path := [leafs[Sibling(index)]];
      for l := 1 to ILog2(leafs.Length)
        invariant |path| == l && path == MountainRange.Path(leafs[..], index)[..l]
        invariant runningIndex == Pow2(h - l + 1) + Shift(index, l - 1)
      {
        ShiftStep(index, l - 1);
        runningIndex := runningIndex / 2;
        NodeOnPath(index, l);
        path := path + [internalNodes[Sibling(runningIndex)]];
      }
    }

    lemma NodeOnPath(index: nat, l: nat)
      requires Valid() && index < leafs.Length && 0 < l < height && l < |MountainRange.Path(leafs[..], index)|
      ensures Sibling(Pow2(height - l) + Shift(index, l)) < internalNodes.Length
      ensures internalNodes[Sibling(Pow2(height - l) + Shift(index, l))] == MountainRange.Path(leafs[..], index)[l]
    {
      hide Level, MountainRange.Path, Shift;
      var d := height - l;
      PathAt(leafs[..], index, l);
      ShiftOfPow2(height, l);
      assert DepthDone(internalNodes[..], leafs[..], height, d);
      assert Pow2(d) == 2 * Pow2(d - 1);
      var k := Sibling(Shift(index, l));
      assert Sibling(Pow2(d) + Shift(index, l)) == Pow2(d) + k;
      assert internalNodes[..][Pow2(d)..Pow2(d + 1)][k] == internalNodes[Pow2(d) + k];
    }
  }

  // ---------- verification ----------

  /** The digest reached from a node by hashing with the siblings on the path. */
  function Climb(index: nat, path: seq<Digest>, node: Digest): Digest {
    if path == [] then node else Climb(index / 2, path[1..], ParentDigest(index, node, path[0]))
  }

  /** MTree::verify. The early exit lets index 2^|path| pass. */
  method VerifyPath(root: Digest, index: nat, path: seq<Digest>, element: Digest) returns (ok: bool)
    ensures ok <==> index <= Pow2(|path|) && Climb(index, path, element) == root
  {
    if index > Pow2(|path|) { return false; }
    var runningIndex, runningDigest := index, element;
    for k := 0 to |path|
      invariant Climb(runningIndex, path[k..], runningDigest) == Climb(index, path, element)
    {
      assert path[k..][1..] == path[k + 1..];
      if runningIndex % 2 == 1 {
        runningDigest := HashPair(path[k], runningDigest);
      } else {
        runningDigest := HashPair(runningDigest, path[k]);
      }
      runningIndex := runningIndex / 2;
    }
    ok := runningDigest == root;
  }

  /** The index that the comparison lets through although there is no such leaf: 2 in a tree of two leafs. */
  lemma OneIndexTooMany(x: Digest, y: Digest)
    ensures 2 <= Pow2(|[y]|) == |[x, y]|
    ensures Climb(2, [y], x) == Root([x, y], 1)
  {
    assert Climb(2, [y], x) == Climb(1, [], HashPair(x, y));
    assert Level([x, y], 1) == Parents([x, y]);
  }

  /** A path leads to the root exactly when it is the leaf's own path and the leaf is the one in the tree. */
  lemma {:induction false} ClimbIffPath(leafs: seq<Digest>, h: nat, index: nat, path: seq<Digest>, leaf: Digest)
    requires |leafs| == Pow2(h) && index < |leafs| && |path| == h
    ensures Climb(index, path, leaf) == Root(leafs, h) <==>
            leaf == leafs[index] && path == MountainRange.Path(leafs, index)
    decreases h
  {
    PathLength(leafs, index);
    FullTreeHeight(h, index);
    if h > 0 {
      ClimbIffPath(Parents(leafs), h - 1, index / 2, path[1..], ParentDigest(index, leaf, path[0]));
      ParentSplits(leafs, index, leaf, path[0]);
      assert path == [path[0]] + path[1..];
    }
  }
}
