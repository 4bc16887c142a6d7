/** A batch of leaf mutations whose paths come from before and from after the change being undone. */
module MixedPaths {
  import opened Digests
  import opened MountainRange

  function Halved(pending: set<nat>): set<nat> {
    set p | p in pending :: p / 2
  }

  /** The path agrees with leaf j's path in the list, except for siblings with a pending leaf below them. */
  ghost predicate Settled(path: seq<Digest>, leafs: seq<Digest>, j: nat, pending: set<nat>)
    requires j < |leafs|
    decreases |leafs|
  {
    if j / 2 < |leafs| / 2 then
      && path != []
      && (Sibling(j) !in pending ==> path[0] == leafs[Sibling(j)])
      && Settled(path[1..], Parents(leafs), j / 2, Halved(pending))
    else path == []
  }

  /** Nothing pending: it is the path. */
  lemma {:induction false} SettledIsPath(path: seq<Digest>, leafs: seq<Digest>, j: nat)
    requires j < |leafs| && Settled(path, leafs, j, {})
    ensures path == Path(leafs, j)
    decreases |leafs|
  {
    if j / 2 < |leafs| / 2 {
      assert Halved({}) == {};
      SettledIsPath(path[1..], Parents(leafs), j / 2);
      assert path == [path[0]] + path[1..];
    }
  }

  /** Two lists that agree outside the pending leafs: a path in one is settled for the other. */
  lemma {:induction false} PathIsSettled(other: seq<Digest>, leafs: seq<Digest>, j: nat, pending: set<nat>)
    requires |other| == |leafs| && j < |leafs|
    requires forall k | 0 <= k < |leafs| && k !in pending :: other[k] == leafs[k]
    ensures Settled(Path(other, j), leafs, j, pending)
    decreases |leafs|
  {
    if j / 2 < |leafs| / 2 {
      var up, up' := Parents(leafs), Parents(other);
      forall k | 0 <= k < |up| && k !in Halved(pending) ensures up'[k] == up[k] {
        assert 2 * k !in pending by { assert 2 * k / 2 == k; }
        assert 2 * k + 1 !in pending by { assert (2 * k + 1) / 2 == k; }
      }
      PathIsSettled(up', up, j / 2, Halved(pending));
      PathStep(other, j);
    }
  }

  /** Only pending leafs that have a sibling matter. */
  lemma {:induction false} SettledElsewhere(path: seq<Digest>, leafs: seq<Digest>, j: nat, before: set<nat>, after: set<nat>)
    requires j < |leafs| && Settled(path, leafs, j, before)
    requires forall p | p in before && p / 2 < |leafs| / 2 :: p in after
    ensures Settled(path, leafs, j, after)
    decreases |leafs|
  {
    if j / 2 < |leafs| / 2 {
      forall q | q in Halved(before) && q / 2 < |leafs| / 2 / 2 ensures q in Halved(after) {
        var p :| p in before && p / 2 == q;
        assert p in after;
      }
      SettledElsewhere(path[1..], Parents(leafs), j / 2, Halved(before), Halved(after));
    }
  }

  /** Setting node i to its value in the list settles what was pending because of it. */
  lemma {:induction false} SettleOne(leafs: seq<Digest>, pathJ: seq<Digest>, j: nat, pathI: seq<Digest>, i: nat, x: Digest,
                                     before: set<nat>, after: set<nat>)
    requires i < |leafs| && j < |leafs| && Settled(pathJ, leafs, j, before) && Settled(pathI, leafs, i, before)
    requires forall p | p in before :: p in after || p == i
    requires i !in after ==> x == leafs[i]
    ensures Settled(PathAfterMutation(pathJ, j, pathI, i, x), leafs, j, after)
    decreases |leafs|
  {
    hide Parents;
    if j / 2 < |leafs| / 2 {
      if i / 2 < |leafs| / 2 {
        var up, p := Parents(leafs), ParentDigest(i, x, pathI[0]);
        SettledParent(leafs, pathI, i, x, before, after);
        SettleOne(up, pathJ[1..], j / 2, pathI[1..], i / 2, p, Halved(before), Halved(after));
      } else {
        SettledElsewhere(pathJ, leafs, j, before, after);
      }
    }
  }

  /** The parent of node i, once nothing below it is pending, has its value in the list. */
  lemma SettledParent(leafs: seq<Digest>, path: seq<Digest>, i: nat, x: Digest, before: set<nat>, after: set<nat>)
    requires i / 2 < |leafs| / 2 && Settled(path, leafs, i, before)
    requires forall p | p in before :: p in after || p == i
    requires i !in after ==> x == leafs[i]
    ensures path != []
    ensures i / 2 !in Halved(after) ==> ParentDigest(i, x, path[0]) == Parents(leafs)[i / 2]
    ensures forall q | q in Halved(before) :: q in Halved(after) || q == i / 2
  {
    if i / 2 !in Halved(after) {
      assert i !in after;
      assert Sibling(i) !in after by { assert Sibling(i) / 2 == i / 2; }
      ParentSplits(leafs, i, x, path[0]);
    }
  }

  function Indices(ms: seq<LeafMutation>): set<nat> {
    if ms == [] then {} else {ms[0].index} + Indices(ms[1..])
  }

  lemma {:induction false} IndicesIgnorePaths(a: seq<LeafMutation>, b: seq<LeafMutation>)
    requires |a| == |b| && forall k | 0 <= k < |a| :: a[k].index == b[k].index
    ensures Indices(a) == Indices(b)
  {
    if a != [] { IndicesIgnorePaths(a[1..], b[1..]); }
  }

  lemma {:induction false} IndicesAre(ms: seq<LeafMutation>, i: nat)
    ensures i in Indices(ms) <==> exists k | 0 <= k < |ms| :: ms[k].index == i
  {
    if ms != [] {
      IndicesAre(ms[1..], i);
      if k :| 0 <= k < |ms[1..]| && ms[1..][k].index == i { assert ms[k + 1].index == i; }
      if k :| 0 < k < |ms| && ms[k].index == i { assert ms[1..][k - 1].index == i; }
    }
  }

  /** Every mutation sets its leaf to the value in the list, and has a path that is settled but for the batch. */
  ghost predicate Restores(ms: seq<LeafMutation>, leafs: seq<Digest>, pending: set<nat>) {
    forall k | 0 <= k < |ms| ::
      ms[k].index < |leafs| && ms[k].newLeaf == leafs[ms[k].index] && Settled(ms[k].path, leafs, ms[k].index, pending)
  }

  /** Such a batch makes every settled path the path in the list, whichever of the two lists each mutation's path is from. */
  lemma {:induction false} RestoringBatch(leafs: seq<Digest>, path: seq<Digest>, j: nat, ms: seq<LeafMutation>)
    requires j < |leafs| && Settled(path, leafs, j, Indices(ms)) && Restores(ms, leafs, Indices(ms))
    ensures BatchPath(path, j, ms) == Path(leafs, j)
    decreases |ms|
  {
    hide Settled, PathAfterMutation;
    if ms == [] {
      SettledIsPath(path, leafs, j);
    } else {
      var m, rest := ms[0], Refreshed(ms[1..], ms[0]);
      IndicesIgnorePaths(ms[1..], rest);
      SettleOne(leafs, path, j, m.path, m.index, m.newLeaf, Indices(ms), Indices(rest));
      forall k | 0 <= k < |rest|
        ensures rest[k].index < |leafs| && rest[k].newLeaf == leafs[rest[k].index] && Settled(rest[k].path, leafs, rest[k].index, Indices(rest))
      {
        assert ms[1..][k] == ms[k + 1];
        SettleOne(leafs, ms[k + 1].path, ms[k + 1].index, m.path, m.index, m.newLeaf, Indices(ms), Indices(rest));
      }
      RestoringBatch(leafs, PathAfterMutation(path, j, m.path, m.index, m.newLeaf), j, rest);
    }
  }
}
