/** Merkle mountain ranges over a list of leafs. Everything is defined by halving: a level's pairs
    hash into the next level up, and what is left unpaired is a peak. */
module MountainRange {
  import opened Digests

  // ---------- levels, peaks and authentication paths ----------

  /** The next level: pair up neighbours, dropping an unpaired last node. */
  function Parents(level: seq<Digest>): (up: seq<Digest>)
    ensures |up| == |level| / 2
  {
    seq(|level| / 2, k requires 0 <= k < |level| / 2 => HashPair(level[2 * k], level[2 * k + 1]))
  }

  /** The peaks, highest tree first. */
  function Peaks(leafs: seq<Digest>): seq<Digest>
    decreases |leafs|
  {
    if leafs == [] then []
    else if |leafs| % 2 == 0 then Peaks(Parents(leafs))
    else Peaks(Parents(leafs)) + [leafs[|leafs| - 1]]
  }

  function Sibling(i: nat): nat {
    if i % 2 == 0 then i + 1 else i - 1
  }

  /** The hash of node i and its sibling, in left-to-right order. */
  function ParentDigest(i: nat, node: Digest, sibling: Digest): Digest {
    if i % 2 == 0 then HashPair(node, sibling) else HashPair(sibling, node)
  }

  /** The siblings met on the way from leaf i to the peak above it. */
  function Path(leafs: seq<Digest>, i: nat): seq<Digest>
    requires i < |leafs|
    decreases |leafs|
  {
    if i / 2 < |leafs| / 2 then [leafs[Sibling(i)]] + Path(Parents(leafs), i / 2) else []
  }

  /** The height of the tree, in a mountain range of n leafs, that leaf i belongs to. */
  function TreeHeight(n: nat, i: nat): nat
    requires i < n
  {
    if i / 2 < n / 2 then 1 + TreeHeight(n / 2, i / 2) else 0
  }

  lemma {:induction false} PathLength(leafs: seq<Digest>, i: nat)
    requires i < |leafs|
    ensures |Path(leafs, i)| == TreeHeight(|leafs|, i)
    decreases |leafs|
  {
    if i / 2 < |leafs| / 2 { PathLength(Parents(leafs), i / 2); }
  }

  /** Peaks of the level above. */
  function UpperPeaks(peaks: seq<Digest>, n: nat): seq<Digest> {
    if n % 2 == 1 && peaks != [] then peaks[..|peaks| - 1] else peaks
  }

  /** MmrMembershipProof::verify */
  predicate Verify(path: seq<Digest>, i: nat, leaf: Digest, peaks: seq<Digest>, n: nat)
    decreases n
  {
    i < n &&
    if i / 2 < n / 2 then
      path != [] && Verify(path[1..], i / 2, ParentDigest(i, leaf, path[0]), UpperPeaks(peaks, n), n / 2)
    else
      path == [] && peaks != [] && leaf == peaks[|peaks| - 1]
  }

  lemma PeaksAbove(leafs: seq<Digest>)
    requires leafs != []
    ensures UpperPeaks(Peaks(leafs), |leafs|) == Peaks(Parents(leafs))
    ensures |leafs| % 2 == 1 ==> Peaks(leafs) == Peaks(Parents(leafs)) + [leafs[|leafs| - 1]]
    ensures |leafs| % 2 == 0 ==> Peaks(leafs) == Peaks(Parents(leafs))
  {
  }

  lemma ParentSplits(leafs: seq<Digest>, i: nat, node: Digest, sibling: Digest)
    requires i / 2 < |leafs| / 2
    ensures ParentDigest(i, node, sibling) == Parents(leafs)[i / 2] <==>
            node == leafs[i] && sibling == leafs[Sibling(i)]
  {
  }

  /** A proof verifies exactly when it is the leaf's own path and the leaf is the one in the list. */
  lemma {:induction false} VerifyIffPath(path: seq<Digest>, i: nat, leaf: Digest, leafs: seq<Digest>)
    ensures Verify(path, i, leaf, Peaks(leafs), |leafs|) <==>
            i < |leafs| && leaf == leafs[i] && path == Path(leafs, i)
    decreases |leafs|
  {
    if i < |leafs| {
      PeaksAbove(leafs);
      var up := Parents(leafs);
      if i / 2 < |leafs| / 2 {
        if path != [] {
          var parent := ParentDigest(i, leaf, path[0]);
          VerifyIffPath(path[1..], i / 2, parent, up);
          ParentSplits(leafs, i, leaf, path[0]);
          assert path == [path[0]] + path[1..];
        }
      }
    }
  }

  /** Peaks and leaf count determine the leafs. */
  lemma {:induction false} PeaksInjective(a: seq<Digest>, b: seq<Digest>)
    requires |a| == |b| && Peaks(a) == Peaks(b)
    ensures a == b
    decreases |a|
  {
    if a != [] {
      PeaksAbove(a);
      PeaksAbove(b);
      PeaksInjective(Parents(a), Parents(b));
      forall i | 0 <= i < |a| ensures a[i] == b[i] {
        if i / 2 < |a| / 2 {
          assert Parents(a)[i / 2] == Parents(b)[i / 2];
        } else {
          assert Peaks(a)[|Peaks(a)| - 1] == Peaks(b)[|Peaks(b)| - 1];
        }
      }
    }
  }

  // ---------- appending a leaf ----------

  lemma ParentsOfAppend(leafs: seq<Digest>, x: Digest)
    ensures Parents(leafs + [x]) ==
            if |leafs| % 2 == 0 then Parents(leafs) else Parents(leafs) + [HashPair(leafs[|leafs| - 1], x)]
  {
  }

  /** MmrAccumulator::append on the peaks. */
  function AppendPeaks(peaks: seq<Digest>, n: nat, x: Digest): seq<Digest> {
    if n % 2 == 0 || peaks == [] then peaks + [x]
    else AppendPeaks(peaks[..|peaks| - 1], n / 2, HashPair(peaks[|peaks| - 1], x))
  }

  /** The authentication path that appending returns for the new leaf. */
  function NewLeafPath(peaks: seq<Digest>, n: nat): seq<Digest> {
    if n % 2 == 0 || peaks == [] then []
    else [peaks[|peaks| - 1]] + NewLeafPath(peaks[..|peaks| - 1], n / 2)
  }

  /** MmrMembershipProof::update_from_append */
  function PathAfterAppend(path: seq<Digest>, i: nat, n: nat, x: Digest, peaks: seq<Digest>): seq<Digest>
    decreases n
  {
    if n % 2 == 0 || peaks == [] then path
    else if i == n - 1 then [x] + NewLeafPath(peaks[..|peaks| - 1], n / 2)
    else if path == [] then []
    else [path[0]] + PathAfterAppend(path[1..], i / 2, n / 2, HashPair(peaks[|peaks| - 1], x), peaks[..|peaks| - 1])
  }

  lemma {:induction false} AppendCorrect(leafs: seq<Digest>, x: Digest)
    ensures AppendPeaks(Peaks(leafs), |leafs|, x) == Peaks(leafs + [x])
    ensures NewLeafPath(Peaks(leafs), |leafs|) == Path(leafs + [x], |leafs|)
    decreases |leafs|
  {
    ParentsOfAppend(leafs, x);
    if |leafs| % 2 == 1 {
      var last := leafs[|leafs| - 1];
      assert Peaks(leafs)[..|Peaks(leafs)| - 1] == Peaks(Parents(leafs));
      AppendCorrect(Parents(leafs), HashPair(last, x));
    }
  }

  lemma {:induction false} PathAfterAppendCorrect(leafs: seq<Digest>, i: nat, x: Digest)
    requires i < |leafs|
    ensures PathAfterAppend(Path(leafs, i), i, |leafs|, x, Peaks(leafs)) == Path(leafs + [x], i)
    decreases |leafs|
  {
    hide Parents;
    ParentsOfAppend(leafs, x);
    if |leafs| % 2 == 1 {
      var last := leafs[|leafs| - 1];
      PeaksAbove(leafs);
      if i == |leafs| - 1 {
        AppendCorrect(Parents(leafs), HashPair(last, x));
      } else {
        PathAfterAppendCorrect(Parents(leafs), i / 2, HashPair(last, x));
      }
    }
  }

  // ---------- changing a leaf ----------

  lemma ParentsOfUpdate(leafs: seq<Digest>, i: nat, x: Digest)
    requires i < |leafs|
    ensures i / 2 < |leafs| / 2 ==>
              Parents(leafs[i := x]) == Parents(leafs)[i / 2 := ParentDigest(i, x, leafs[Sibling(i)])]
    ensures |leafs| / 2 <= i / 2 ==> Parents(leafs[i := x]) == Parents(leafs)
  {
  }

  /** The peaks after leaf i, authenticated by path, becomes x. */
  function MutatePeaks(peaks: seq<Digest>, n: nat, i: nat, path: seq<Digest>, x: Digest): seq<Digest>
    decreases n
  {
    if n == 0 || peaks == [] then peaks
    else if i / 2 < n / 2 then
      if path == [] then peaks
      else
        var up := MutatePeaks(UpperPeaks(peaks, n), n / 2, i / 2, path[1..], ParentDigest(i, x, path[0]));
        if n % 2 == 1 then up + [peaks[|peaks| - 1]] else up
    else peaks[..|peaks| - 1] + [x]
  }

  /** The path of leaf j after leaf i, authenticated by pathI, becomes x. */
  function PathAfterMutation(pathJ: seq<Digest>, j: nat, pathI: seq<Digest>, i: nat, x: Digest): seq<Digest>
    decreases |pathJ|
  {
    if pathJ == [] || pathI == [] || i == j then pathJ
    else if i / 2 == j / 2 then [x] + pathJ[1..]
    else [pathJ[0]] + PathAfterMutation(pathJ[1..], j / 2, pathI[1..], i / 2, ParentDigest(i, x, pathI[0]))
  }

  lemma PathStep(leafs: seq<Digest>, i: nat)
    requires i / 2 < |leafs| / 2
    ensures Path(leafs, i) != [] && Path(leafs, i)[0] == leafs[Sibling(i)]
    ensures Path(leafs, i)[1..] == Path(Parents(leafs), i / 2)
  {
  }

  lemma {:induction false} MutatePeaksCorrect(leafs: seq<Digest>, i: nat, x: Digest)
    requires i < |leafs|
    ensures MutatePeaks(Peaks(leafs), |leafs|, i, Path(leafs, i), x) == Peaks(leafs[i := x])
    decreases |leafs|
  {
    hide Parents, Path, Peaks, UpperPeaks;
    var leafs', up := leafs[i := x], Parents(leafs);
    ParentsOfUpdate(leafs, i, x);
    PeaksAbove(leafs);
    PeaksAbove(leafs');
    PeaksNonempty(leafs);
    if i / 2 < |leafs| / 2 {
      PathStep(leafs, i);
      MutatePeaksCorrect(up, i / 2, ParentDigest(i, x, leafs[Sibling(i)]));
    }
  }

  lemma {:induction false} PeaksNonempty(leafs: seq<Digest>)
    requires leafs != []
    ensures Peaks(leafs) != []
    decreases |leafs|
  {
    if |leafs| % 2 == 0 { PeaksNonempty(Parents(leafs)); }
  }

  lemma {:induction false} PathAfterMutationCorrect(leafs: seq<Digest>, j: nat, i: nat, x: Digest)
    requires i < |leafs| && j < |leafs|
    ensures PathAfterMutation(Path(leafs, j), j, Path(leafs, i), i, x) == Path(leafs[i := x], j)
    decreases |leafs|
  {
    hide Parents;
    ParentsOfUpdate(leafs, i, x);
    var up := Parents(leafs);
    if j / 2 < |leafs| / 2 {
      if i / 2 < |leafs| / 2 {
        var p := ParentDigest(i, x, leafs[Sibling(i)]);
        PathAfterMutationCorrect(up, j / 2, i / 2, p);
        if i / 2 == j / 2 { PathOfUpdatedLeaf(up, i / 2, p); }
      }
    }
  }

  /** A leaf's own value is not on its path. */
  lemma {:induction false} PathOfUpdatedLeaf(leafs: seq<Digest>, i: nat, x: Digest)
    requires i < |leafs|
    ensures Path(leafs[i := x], i) == Path(leafs, i)
    decreases |leafs|
  {
    ParentsOfUpdate(leafs, i, x);
    if i / 2 < |leafs| / 2 {
      PathOfUpdatedLeaf(Parents(leafs), i / 2, ParentDigest(i, x, leafs[Sibling(i)]));
    }
  }

  // ---------- changing many leafs ----------

  datatype LeafMutation = LeafMutation(index: nat, path: seq<Digest>, newLeaf: Digest)

  /** Every mutation carries the path of the leaf it changes. */
  ghost predicate Authentic(leafs: seq<Digest>, ms: seq<LeafMutation>) {
    forall k | 0 <= k < |ms| :: ms[k].index < |leafs| && ms[k].path == Path(leafs, ms[k].index)
  }

  function MutateLeafs(leafs: seq<Digest>, ms: seq<LeafMutation>): seq<Digest>
    decreases |ms|
  {
    if ms == [] || |leafs| <= ms[0].index then leafs
    else MutateLeafs(leafs[ms[0].index := ms[0].newLeaf], ms[1..])
  }

  /** The remaining mutations, their paths brought up to date with mutation m. */
  function Refreshed(ms: seq<LeafMutation>, m: LeafMutation): (r: seq<LeafMutation>)
    ensures |r| == |ms|
  {
    seq(|ms|, k requires 0 <= k < |ms| =>
      ms[k].(path := PathAfterMutation(ms[k].path, ms[k].index, m.path, m.index, m.newLeaf)))
  }

  /** MmrAccumulator::batch_mutate_leaf_and_update_mps, on the peaks. */
  function BatchPeaks(peaks: seq<Digest>, n: nat, ms: seq<LeafMutation>): seq<Digest>
    decreases |ms|
  {
    if ms == [] then peaks
    else BatchPeaks(MutatePeaks(peaks, n, ms[0].index, ms[0].path, ms[0].newLeaf), n, Refreshed(ms[1..], ms[0]))
  }

  /** MmrMembershipProof::batch_update_from_batch_leaf_mutation, for the proof of leaf j. */
  function BatchPath(path: seq<Digest>, j: nat, ms: seq<LeafMutation>): seq<Digest>
    decreases |ms|
  {
    if ms == [] then path
    else BatchPath(PathAfterMutation(path, j, ms[0].path, ms[0].index, ms[0].newLeaf), j, Refreshed(ms[1..], ms[0]))
  }

  lemma RefreshedAuthentic(leafs: seq<Digest>, ms: seq<LeafMutation>, m: LeafMutation)
    requires Authentic(leafs, ms)
    requires m.index < |leafs| && m.path == Path(leafs, m.index)
    ensures Authentic(leafs[m.index := m.newLeaf], Refreshed(ms, m))
  {
    forall k | 0 <= k < |ms|
      ensures Refreshed(ms, m)[k].path == Path(leafs[m.index := m.newLeaf], ms[k].index)
    {
      PathAfterMutationCorrect(leafs, ms[k].index, m.index, m.newLeaf);
    }
  }

  lemma {:induction false} MutateLeafsIgnoresPaths(leafs: seq<Digest>, a: seq<LeafMutation>, b: seq<LeafMutation>)
    requires |a| == |b|
    requires forall k | 0 <= k < |a| :: a[k].index == b[k].index && a[k].newLeaf == b[k].newLeaf
    ensures MutateLeafs(leafs, a) == MutateLeafs(leafs, b)
    decreases |a|
  {
    if a != [] && a[0].index < |leafs| {
      MutateLeafsIgnoresPaths(leafs[a[0].index := a[0].newLeaf], a[1..], b[1..]);
    }
  }

  /** A batch of authentic mutations gives the peaks of the mutated list, and keeps every path current. */
  lemma {:induction false} BatchMutationCorrect(leafs: seq<Digest>, ms: seq<LeafMutation>, j: nat)
    requires Authentic(leafs, ms)
    ensures |MutateLeafs(leafs, ms)| == |leafs|
    ensures BatchPeaks(Peaks(leafs), |leafs|, ms) == Peaks(MutateLeafs(leafs, ms))
    ensures j < |leafs| ==> BatchPath(Path(leafs, j), j, ms) == Path(MutateLeafs(leafs, ms), j)
    decreases |ms|
  {
    if ms != [] {
      var m, rest := ms[0], Refreshed(ms[1..], ms[0]);
      var leafs' := leafs[m.index := m.newLeaf];
      RefreshedAuthentic(leafs, ms[1..], m);
      BatchMutationCorrect(leafs', rest, j);
      MutateLeafsIgnoresPaths(leafs', ms[1..], rest);
      MutatePeaksCorrect(leafs, m.index, m.newLeaf);
      if j < |leafs| { PathAfterMutationCorrect(leafs, j, m.index, m.newLeaf); }
    }
  }

  // ---------- the same leaf in a smaller mountain range ----------

  lemma ParentsOfPrefix(leafs: seq<Digest>, m: nat)
    requires m <= |leafs|
    ensures Parents(leafs[..m]) == Parents(leafs)[..m / 2]
  {
  }

  /** A path in the mountain range over the first m leafs is a prefix of the path in the larger one. */
  lemma {:induction false} PathPrefix(leafs: seq<Digest>, m: nat, i: nat)
    requires i < m <= |leafs|
    ensures TreeHeight(m, i) <= |Path(leafs, i)|
    ensures Path(leafs[..m], i) == Path(leafs, i)[..TreeHeight(m, i)]
    decreases m
  {
    if i / 2 < m / 2 {
      ParentsOfPrefix(leafs, m);
      PathPrefix(Parents(leafs), m / 2, i / 2);
    }
  }

  function Xor(a: nat, b: nat): nat {
    if a == 0 && b == 0 then 0 else 2 * Xor(a / 2, b / 2) + (a % 2 + b % 2) % 2
  }

  function ILog2(x: nat): nat
    requires x > 0
  {
    if x == 1 then 0 else 1 + ILog2(x / 2)
  }

  /** The tree height of leaf i is the position of the highest bit in which i and the leaf count differ. */
  lemma {:induction false} TreeHeightIsTopDifferingBit(n: nat, i: nat)
    requires i < n
    ensures Xor(i, n) > 0
    ensures TreeHeight(n, i) == ILog2(Xor(i, n))
    decreases n
  {
    if i / 2 < n / 2 {
      TreeHeightIsTopDifferingBit(n / 2, i / 2);
      assert Xor(i, n) / 2 == Xor(i / 2, n / 2);
    } else {
      XorSelf(i / 2);
    }
  }

  lemma {:induction false} XorSelf(a: nat)
    ensures Xor(a, a) == 0
  {
    if a > 0 { XorSelf(a / 2); }
  }
}
