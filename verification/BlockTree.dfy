/** The tree of stored blocks, and what each block's chain amounts to when folded from genesis. */
module BlockTree {
  import opened Digests
  import opened Sorting
  import opened MutatorSets
  import opened RemovalRecords
  import opened MutatorSetUpdates
  import opened Blocks

  /** The genesis block is kept apart from the stored ones. */
  datatype Tree = Tree(genesis: Block, blocks: map<Digest, Block>) {

    predicate Knows(d: Digest) {
      d in blocks || d == genesis.hash
    }

    /** ArchivalState::get_block */
    function Get(d: Digest): Block
      requires Knows(d)
    {
      if d in blocks then blocks[d] else genesis
    }

    /** Every stored block sits one above a known predecessor; only genesis has height 0. */
    ghost predicate WellFormed() {
      && genesis.height == 0 && genesis.hash !in blocks
      && forall d | d in blocks ::
           && blocks[d].hash == d
           && Knows(blocks[d].prevBlockDigest)
           && blocks[d].height == Get(blocks[d].prevBlockDigest).height + 1
    }

    function Parent(d: Digest): Digest
      requires d in blocks
    {
      blocks[d].prevBlockDigest
    }

    /** The chain from genesis up to and including d. */
    ghost function Chain(d: Digest): (c: seq<Digest>)
      requires WellFormed() && Knows(d)
      ensures |c| == Get(d).height + 1 && c[|c| - 1] == d
      decreases Get(d).height
    {
      if d in blocks then Chain(Parent(d)) + [d] else [d]
    }

    /** The block at height k of a chain is the predecessor of the one at height k + 1. */
    lemma {:induction false} ChainAt(d: Digest, k: nat)
      requires WellFormed() && Knows(d) && k <= Get(d).height
      ensures Knows(Chain(d)[k]) && Get(Chain(d)[k]).height == k
      ensures k > 0 ==> Chain(d)[k] in blocks && Parent(Chain(d)[k]) == Chain(d)[k - 1]
      decreases Get(d).height
    {
      if k < Get(d).height { ChainAt(Parent(d), k); }
    }

    /** Every block on the chain has the chain's prefix as its own chain. */
    lemma {:induction false} ChainPrefix(d: Digest, k: nat)
      requires WellFormed() && Knows(d) && k <= Get(d).height
      ensures Knows(Chain(d)[k]) && Chain(Chain(d)[k]) == Chain(d)[..k + 1]
      decreases Get(d).height
    {
      if k == Get(d).height {
        assert Chain(d)[..k + 1] == Chain(d);
      } else {
        ChainPrefix(Parent(d), k);
        assert Chain(d)[..k + 1] == Chain(Parent(d))[..k + 1];
      }
    }

    lemma ChainStep(d: Digest)
      requires WellFormed() && d in blocks
      ensures Chain(d) == Chain(Parent(d)) + [d]
    {
    }

    /** Every chain starts with genesis. */
    lemma ChainOfGenesis(d: Digest, g: Digest)
      requires WellFormed() && Knows(d) && Knows(g) && Get(g).height == 0
      ensures Chain(d)[0] == g && Chain(g) == [g] && Chain(d)[..1] == [g]
    {
      ChainPrefix(d, 0);
      ChainAt(d, 0);
    }

    /** a is d or one of its ancestors. */
    ghost predicate IsAncestor(a: Digest, d: Digest)
      requires WellFormed() && Knows(d)
    {
      a in Chain(d)
    }

    // ---------- the mutator set, folded from genesis ----------

    ghost function Commitments(d: Digest): seq<Digest>
      requires WellFormed() && Knows(d)
      decreases Get(d).height
    {
      if d in blocks then Commitments(Parent(d)) + AdditionsOf(blocks[d]) else genesis.outputs
    }

    ghost function Indices(d: Digest): multiset<nat>
      requires WellFormed() && Knows(d)
      decreases Get(d).height
    {
      if d in blocks then Indices(Parent(d)) + IndicesOf(RemovalsOf(blocks[d])) else multiset{}
    }

    /** A mutator set that is the fold up to d. There is at most one. */
    ghost predicate IsAt(ms: MutatorSet, d: Digest)
      requires WellFormed() && Knows(d)
    {
      ms.aocl == Commitments(d) && Stores(ms, Indices(d))
    }

    /** Every stored block was valid on top of its predecessor. */
    ghost predicate AllValid()
      requires WellFormed()
    {
      forall d | d in blocks :: ValidBlock(d)
    }

    ghost predicate ValidBlock(d: Digest)
      requires WellFormed() && d in blocks
    {
      exists ms :: IsAt(ms, Parent(d)) && ValidOn(blocks[d], ms, Indices(Parent(d)))
    }
  }

  function AdditionsOf(b: Block): seq<Digest> {
    if UpdateOf(b).Some? then UpdateOf(b).value.additions else []
  }

  function RemovalsOf(b: Block): seq<RemovalRecord> {
    if UpdateOf(b).Some? then UpdateOf(b).value.removals else []
  }

  // ---------- paths ----------

  /** The chain from above `low` up to d: the blocks of d's chain with height in (low, height of d]. */
  ghost function Above(t: Tree, d: Digest, low: nat): seq<Digest>
    requires t.WellFormed() && t.Knows(d) && low <= t.Get(d).height
  {
    t.Chain(d)[low + 1..]
  }

  /** luca is the latest common ancestor: on both chains, and nothing above it is. */
  ghost predicate IsLatestCommonAncestor(t: Tree, luca: Digest, start: Digest, stop: Digest)
    requires t.WellFormed() && t.Knows(start) && t.Knows(stop)
  {
    && t.Knows(luca) && t.IsAncestor(luca, start) && t.IsAncestor(luca, stop)
    && forall d | t.Knows(d) && t.IsAncestor(d, start) && t.IsAncestor(d, stop) :: t.Get(d).height <= t.Get(luca).height
  }

  /** A walk down the tree: each block is followed by its predecessor. */
  ghost predicate WalksDown(t: Tree, walk: seq<Digest>)
    requires t.WellFormed()
  {
    && walk != [] && (forall k | 0 <= k < |walk| :: t.Knows(walk[k]))
    && forall k | 0 <= k < |walk| - 1 :: walk[k] in t.blocks && walk[k + 1] == t.Parent(walk[k])
  }

  function Last(walk: seq<Digest>): Digest
    requires walk != []
  {
    walk[|walk| - 1]
  }

  lemma OneStepDown(t: Tree, walk: seq<Digest>)
    requires t.WellFormed() && WalksDown(t, walk)
    ensures t.Knows(Last(walk))
    ensures Last(walk) in t.blocks <==> t.Get(Last(walk)).height > 0
    ensures Last(walk) in t.blocks ==>
              var p := t.Get(Last(walk)).prevBlockDigest;
              && t.Knows(p) && t.Get(p).height == t.Get(Last(walk)).height - 1
              && WalksDown(t, walk + [p]) && Last(walk + [p]) == p
  {
    var p := t.Get(Last(walk)).prevBlockDigest;
    assert forall k | 0 <= k < |walk| :: (walk + [p])[k] == walk[k];
  }

  /** A walk down goes along the chain of the block it starts from. */
  lemma {:induction false} WalkAt(t: Tree, walk: seq<Digest>, j: nat)
    requires t.WellFormed() && WalksDown(t, walk) && j < |walk|
    ensures var height := t.Get(walk[0]).height;
            j <= height && walk[j] == t.Chain(walk[0])[height - j] && t.Get(walk[j]).height == height - j
    decreases j
  {
    if j > 0 {
      WalkAt(t, walk, j - 1);
      var height := t.Get(walk[0]).height;
      t.ChainAt(walk[0], height - j + 1);
    }
  }

  lemma WalkIsChain(t: Tree, walk: seq<Digest>)
    requires t.WellFormed() && WalksDown(t, walk)
    ensures t.Knows(walk[0]) && t.Knows(Last(walk)) && t.Get(Last(walk)).height <= t.Get(walk[0]).height
    ensures walk[..|walk| - 1] == Reverse(Above(t, walk[0], t.Get(Last(walk)).height))
    ensures Reverse(walk[..|walk| - 1]) == Above(t, walk[0], t.Get(Last(walk)).height)
  {
    forall j | 0 <= j < |walk|
      ensures var height := t.Get(walk[0]).height;
              j <= height && walk[j] == t.Chain(walk[0])[height - j] && t.Get(walk[j]).height == height - j
    {
      WalkAt(t, walk, j);
    }
    hide WalksDown, Tree.Chain, Tree.WellFormed;
    var h, above := t.Get(Last(walk)).height, Above(t, walk[0], t.Get(Last(walk)).height);
    assert |above| == |walk| - 1;
    assert forall k | 0 <= k < |above| :: above[k] == walk[|walk| - 2 - k];
  }

  /** Walk down the longer of two chains until both walks are at the same height. */
  method WalkToSameHeight(t: Tree, start: Digest, stop: Digest) returns (leaving: seq<Digest>, arriving: seq<Digest>)
    requires t.WellFormed() && t.Knows(start) && t.Knows(stop)
    ensures WalksDown(t, leaving) && leaving[0] == start
    ensures WalksDown(t, arriving) && arriving[0] == stop
    ensures t.Get(Last(leaving)).height == t.Get(Last(arriving)).height
    ensures |leaving| == 1 || |arriving| == 1
  {
    leaving, arriving := [start], [stop];
    var leavingHeader, arrivingHeader := t.Get(start), t.Get(stop);
    while leavingHeader.height != arrivingHeader.height
      invariant WalksDown(t, leaving) && leaving[0] == start && leavingHeader == t.Get(Last(leaving))
      invariant WalksDown(t, arriving) && arriving[0] == stop && arrivingHeader == t.Get(Last(arriving))
      invariant |leaving| == 1 || (|arriving| == 1 && leavingHeader.height >= arrivingHeader.height)
      invariant |arriving| == 1 || (|leaving| == 1 && leavingHeader.height <= arrivingHeader.height)
      decreases leavingHeader.height + arrivingHeader.height
    {
      OneStepDown(t, leaving);
      OneStepDown(t, arriving);
      hide WalksDown, Tree.WellFormed;
      if leavingHeader.height < arrivingHeader.height {
        arriving := arriving + [arrivingHeader.prevBlockDigest];
        arrivingHeader := t.Get(arrivingHeader.prevBlockDigest);
      } else {
        leaving := leaving + [leavingHeader.prevBlockDigest];
        leavingHeader := t.Get(leavingHeader.prevBlockDigest);
      }
    }
  }

  function FromEnd(walk: seq<Digest>, k: nat): Digest
    requires k < |walk|
  {
    walk[|walk| - 1 - k]
  }

  /** The last m + 1 blocks of two walks, m > 0, are pairwise different except perhaps the very last. */
  ghost predicate DifferAbove(a: seq<Digest>, b: seq<Digest>, m: nat) {
    && m < |a| && m < |b|
    && forall k | 1 <= k <= m :: FromEnd(a, k) != FromEnd(b, k)
  }

  /** ArchivalState::find_path */
  method FindPath(t: Tree, start: Digest, stop: Digest) returns (leaving: seq<Digest>, luca: Digest, arriving: seq<Digest>)
    requires t.WellFormed() && t.Knows(start) && t.Knows(stop)
    ensures IsLatestCommonAncestor(t, luca, start, stop)
    ensures t.Get(luca).height <= t.Get(start).height && leaving == Reverse(Above(t, start, t.Get(luca).height))
    ensures t.Get(luca).height <= t.Get(stop).height && arriving == Above(t, stop, t.Get(luca).height)
  {
    leaving, arriving := WalkToSameHeight(t, start, stop);
    AtHeightZero(t);
    hide WalksDown, IsLatestCommonAncestor, Above, DifferAbove, Tree.Chain, Tree.WellFormed;
    ghost var m := 0;
    DifferNowhere(leaving, arriving);
    while Last(leaving) != Last(arriving)
      invariant WalksDown(t, leaving) && leaving[0] == start
      invariant WalksDown(t, arriving) && arriving[0] == stop
      invariant t.Get(Last(leaving)).height == t.Get(Last(arriving)).height
      invariant DifferAbove(leaving, arriving, m) && (m == |leaving| - 1 || m == |arriving| - 1)
      decreases t.Get(Last(leaving)).height
    {
      OneStepDown(t, leaving);
      OneStepDown(t, arriving);
      DifferOneMore(leaving, arriving, m, t.Get(Last(leaving)).prevBlockDigest, t.Get(Last(arriving)).prevBlockDigest);
      leaving := leaving + [t.Get(Last(leaving)).prevBlockDigest];
      arriving := arriving + [t.Get(Last(arriving)).prevBlockDigest];
      m := m + 1;
    }
    LucaFound(t, leaving, arriving, m);
    WalkIsChain(t, leaving);
    WalkIsChain(t, arriving);
    luca := Last(leaving);
    leaving := leaving[..|leaving| - 1];
    arriving := Reverse(arriving[..|arriving| - 1]);
  }

  lemma AtHeightZero(t: Tree)
    requires t.WellFormed()
    ensures forall d | t.Knows(d) && t.Get(d).height == 0 :: d == t.genesis.hash
  {
  }

  lemma DifferNowhere(a: seq<Digest>, b: seq<Digest>)
    requires a != [] && b != []
    ensures DifferAbove(a, b, 0)
  {
  }

  lemma DifferOneMore(a: seq<Digest>, b: seq<Digest>, m: nat, x: Digest, y: Digest)
    requires DifferAbove(a, b, m) && Last(a) != Last(b)
    ensures DifferAbove(a + [x], b + [y], m + 1)
  {
    forall k | 1 <= k <= m + 1 ensures FromEnd(a + [x], k) != FromEnd(b + [y], k) {
      assert FromEnd(a + [x], k) == FromEnd(a, k - 1) && FromEnd(b + [y], k) == FromEnd(b, k - 1);
    }
  }

  /** Walks that end in the same block, differ above it, and of which one covers the whole common range. */
  lemma LucaFound(t: Tree, leaving: seq<Digest>, arriving: seq<Digest>, m: nat)
    requires t.WellFormed() && WalksDown(t, leaving) && WalksDown(t, arriving)
    requires Last(leaving) == Last(arriving)
    requires DifferAbove(leaving, arriving, m) && (m == |leaving| - 1 || m == |arriving| - 1)
    ensures t.Knows(Last(leaving)) && IsLatestCommonAncestor(t, Last(leaving), leaving[0], arriving[0])
  {
    hide Tree.Chain, Tree.WellFormed;
    var start, stop, h := leaving[0], arriving[0], t.Get(Last(leaving)).height;
    WalkAt(t, leaving, |leaving| - 1);
    WalkAt(t, arriving, |arriving| - 1);
    forall d | t.Knows(d) && t.IsAncestor(d, start) && t.IsAncestor(d, stop) ensures t.Get(d).height <= h {
      NoCommonAbove(t, leaving, arriving, m, d);
    }
  }

  lemma WalkFromEnd(t: Tree, walk: seq<Digest>, i: nat)
    requires t.WellFormed() && WalksDown(t, walk) && i < |walk|
    ensures var h := t.Get(Last(walk)).height;
            && |walk| + h == |t.Chain(walk[0])|
            && FromEnd(walk, i) == t.Chain(walk[0])[h + i]
  {
    hide Tree.Chain, Tree.WellFormed;
    WalkAt(t, walk, |walk| - 1);
    WalkAt(t, walk, |walk| - 1 - i);
  }

  lemma NoCommonAbove(t: Tree, leaving: seq<Digest>, arriving: seq<Digest>, m: nat, d: Digest)
    requires t.WellFormed() && WalksDown(t, leaving) && WalksDown(t, arriving)
    requires Last(leaving) == Last(arriving)
    requires DifferAbove(leaving, arriving, m) && (m == |leaving| - 1 || m == |arriving| - 1)
    requires t.Knows(d) && t.IsAncestor(d, leaving[0]) && t.IsAncestor(d, arriving[0])
    ensures t.Get(d).height <= t.Get(Last(leaving)).height
  {
    hide Tree.Chain, Tree.WellFormed, Tree.IsAncestor;
    var start, stop, h, k := leaving[0], arriving[0], t.Get(Last(leaving)).height, t.Get(d).height;
    AncestorAt(t, d, start);
    AncestorAt(t, d, stop);
    WalkFromEnd(t, leaving, 0);
    WalkFromEnd(t, arriving, 0);
    if h < k {
      var i := k - h;
      assert i <= m;
      WalkFromEnd(t, leaving, i);
      WalkFromEnd(t, arriving, i);
      assert false;
    }
  }

  /** An ancestor is on the chain at its own height. */
  lemma AncestorAt(t: Tree, a: Digest, d: Digest)
    requires t.WellFormed() && t.Knows(d) && t.IsAncestor(a, d)
    ensures t.Knows(a) && t.Get(a).height <= t.Get(d).height && t.Chain(d)[t.Get(a).height] == a
  {
    var k :| 0 <= k < |t.Chain(d)| && t.Chain(d)[k] == a;
    t.ChainAt(d, k);
  }

  // ---------- storing a block ----------

  /** The tree with one more block. */
  function With(t: Tree, b: Block): Tree {
    t.(blocks := t.blocks[b.hash := b])
  }

  /** A new block that sits one above a known one. */
  ghost predicate Attaches(t: Tree, b: Block) {
    !t.Knows(b.hash) && t.Knows(b.prevBlockDigest) && b.height == t.Get(b.prevBlockDigest).height + 1
  }

  lemma StoringKeepsForm(t: Tree, b: Block)
    requires t.WellFormed() && Attaches(t, b)
    ensures With(t, b).WellFormed()
    ensures forall d | t.Knows(d) :: With(t, b).Knows(d) && With(t, b).Get(d) == t.Get(d)
  {
  }

  /** Storing a block changes nothing about the chains of the blocks already known. */
  lemma {:induction false} StoringKeepsFolds(t: Tree, b: Block, d: Digest)
    requires t.WellFormed() && Attaches(t, b) && t.Knows(d)
    ensures With(t, b).WellFormed() && With(t, b).Knows(d)
    ensures With(t, b).Chain(d) == t.Chain(d)
    ensures With(t, b).Commitments(d) == t.Commitments(d)
    ensures With(t, b).Indices(d) == t.Indices(d)
    decreases t.Get(d).height
  {
    StoringKeepsForm(t, b);
    if d in t.blocks { StoringKeepsFolds(t, b, t.Parent(d)); }
  }

  lemma StoringKeepsValidity(t: Tree, b: Block, ms: MutatorSet)
    requires t.WellFormed() && t.AllValid() && Attaches(t, b)
    requires t.IsAt(ms, b.prevBlockDigest) && ValidOn(b, ms, t.Indices(b.prevBlockDigest))
    ensures With(t, b).WellFormed() && With(t, b).AllValid()
  {
    hide ValidOn, Stores;
    var t' := With(t, b);
    StoringKeepsForm(t, b);
    forall d | d in t'.blocks ensures t'.ValidBlock(d) {
      var parent := t'.Parent(d);
      if d == b.hash {
        StoringKeepsFolds(t, b, b.prevBlockDigest);
        assert t'.IsAt(ms, parent);
      } else {
        assert t.ValidBlock(d);
        var m :| t.IsAt(m, t.Parent(d)) && ValidOn(t.blocks[d], m, t.Indices(t.Parent(d)));
        StoringKeepsFolds(t, b, t.Parent(d));
        assert t'.IsAt(m, parent);
      }
    }
  }
}
