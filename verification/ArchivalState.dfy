/** The archival state: it follows the tip through any reorganisation, rolling the mutator set and the
    block mountain range back to the latest common ancestor and forward again. */
module ArchivalStates {
  import opened Digests
  import opened Sorting
  import opened MutatorSets
  import opened RemovalRecords
  import opened MutatorSetAccumulators
  import opened RecordUpdates
  import opened MutatorSetUpdates
  import opened Options
  import opened ArchivalMmrs
  import opened ArchivalMutatorSets
  import opened Blocks
  import opened BlockTree

  lemma {:induction false} PrefixOfSum(records: seq<RemovalRecord>, k: nat)
    requires k <= |records|
    ensures IndicesOf(records[..k]) <= IndicesOf(records)
    decreases |records|
  {
    if k == |records| {
      assert records[..k] == records;
    } else {
      var init := records[..|records| - 1];
      assert init[..k] == records[..k];
      PrefixOfSum(init, k);
    }
  }

  /** Undoing the first k + 1 records is undoing the first k and then record k. */
  lemma UndoStep(records: seq<RemovalRecord>, before: multiset<nat>, k: nat)
    requires k < |records|
    ensures multiset(records[k].absoluteIndices) <= before + IndicesOf(records) - IndicesOf(records[..k])
    ensures before + IndicesOf(records) - IndicesOf(records[..k]) - multiset(records[k].absoluteIndices) ==
            before + IndicesOf(records) - IndicesOf(records[..k + 1])
  {
    assert records[..k + 1][..k] == records[..k];
    PrefixOfSum(records, k + 1);
    var all: multiset<nat> := IndicesOf(records);
    var first: multiset<nat> := IndicesOf(records[..k]);
    assert IndicesOf(records[..k + 1]) == first + multiset(records[k].absoluteIndices);
  }

  lemma BatchIndexMonotone(m: nat, n: nat)
    requires m <= n
    ensures BatchIndex(m) <= BatchIndex(n)
  {
  }

  // ---------- one block forward, one block back ----------

  /** Apply a block's update: its additions one by one, keeping its removal records in step, then all removals. */
  method ApplyUpdate(ams: ArchivalMutatorSet, update: MutatorSetUpdate)
    requires ams.Valid() && AllSynced(update.removals, ams.Value())
    modifies ams, ams.aocl, ams.swbfInactive, ams.swbfActive
    ensures ams.Valid()
    ensures ams.aocl.leafs == old(ams.aocl.leafs) + update.additions
    ensures ams.indices == old(ams.indices) + IndicesOf(update.removals)
  {
    hide Synced, Stores;
    var removals, additions := update.removals, update.additions;
    for k := 0 to |additions|
      invariant ams.Valid() && ams.indices == old(ams.indices)
      invariant ams.aocl.leafs == old(ams.aocl.leafs) + additions[..k]
      invariant SameIndices(update.removals, removals) && AllSynced(removals, ams.Value())
    {
      removals := AddInStep(ams, removals, additions[k]);
      assert additions[..k + 1] == additions[..k] + [additions[k]];
    }
    assert additions[..|additions|] == additions;
    SameIndicesSameSum(update.removals, removals);
    ams.BatchRemove(removals);
  }

  /** Bring the records in step with one addition, then add. */
  method AddInStep(ams: ArchivalMutatorSet, records: seq<RemovalRecord>, addition: Digest) returns (updated: seq<RemovalRecord>)
    requires ams.Valid() && AllSynced(records, ams.Value())
    modifies ams, ams.aocl, ams.swbfInactive, ams.swbfActive
    ensures ams.Valid() && ams.indices == old(ams.indices) && ams.aocl.leafs == old(ams.aocl.leafs) + [addition]
    ensures SameIndices(records, updated) && AllSynced(updated, ams.Value())
  {
    hide Synced, Stores;
    var acc := ams.Accumulator();
    updated := BatchUpdateFromAddition(records, acc, addition);
    ams.Add(addition);
    SyncedToTarget(updated, ams.Value());
  }

  /** Revert a block's removals. */
  method RevertRemovals(ams: ArchivalMutatorSet, removals: seq<RemovalRecord>, ghost base: multiset<nat>)
    requires ams.Valid() && ams.indices == base + IndicesOf(removals)
    modifies ams, ams.swbfInactive, ams.swbfActive
    ensures ams.Valid() && ams.aocl.leafs == old(ams.aocl.leafs) && ams.indices == base
  {
    hide Stores;
    for k := 0 to |removals|
      invariant ams.Valid() && ams.aocl.leafs == old(ams.aocl.leafs)
      invariant ams.indices == base + IndicesOf(removals) - IndicesOf(removals[..k])
    {
      UndoStep(removals, base, k);
      ams.RevertRemove(removals[k]);
    }
    assert removals[..|removals|] == removals;
  }

  /** Revert a block's additions, from last to first. */
  method RevertAdditions(ams: ArchivalMutatorSet, additions: seq<Digest>, ghost below: MutatorSet)
    requires ams.Valid() && ams.aocl.leafs == below.aocl + additions && Stores(below, ams.indices)
    modifies ams, ams.aocl, ams.swbfInactive, ams.swbfActive
    ensures ams.Valid() && ams.aocl.leafs == below.aocl && ams.indices == old(ams.indices)
  {
    StoresParts(below, ams.indices);
    hide Stores, BatchIndex;
    var k := |additions|;
    assert additions[..k] == additions;
    while k > 0
      invariant 0 <= k <= |additions|
      invariant ams.Valid() && ams.indices == old(ams.indices)
      invariant ams.aocl.leafs == below.aocl + additions[..k]
    {
      k := k - 1;
      BatchIndexMonotone(|below.aocl|, |below.aocl| + k);
      var reversible := ams.AddIsReversible(additions[k]);
      assert reversible;
      ams.RevertAdd(additions[k]);
      assert (below.aocl + additions[..k + 1])[..|below.aocl| + k] == below.aocl + additions[..k];
    }
  }

  /** Revert a block's update: the mutator set from before comes back, chunk for chunk. */
  method RevertUpdate(ams: ArchivalMutatorSet, update: MutatorSetUpdate, ghost below: MutatorSet, ghost base: multiset<nat>)
    requires ams.Valid() && Stores(below, base)
    requires ams.aocl.leafs == below.aocl + update.additions
    requires ams.indices == base + IndicesOf(update.removals)
    modifies ams, ams.aocl, ams.swbfInactive, ams.swbfActive
    ensures ams.Valid() && ams.Value() == below && ams.indices == base
  {
    hide Stores;
    RevertRemovals(ams, update.removals, base);
    RevertAdditions(ams, update.additions, below);
    RepresentationUnique(ams.Value(), below, base);
  }

  /** Applying any block and reverting it restores the exact concrete state, down to both node vectors. */
  method ApplyThenRevert(ams: ArchivalMutatorSet, update: MutatorSetUpdate)
    requires ams.Valid() && AllSynced(update.removals, ams.Value())
    modifies ams, ams.aocl, ams.swbfInactive, ams.swbfActive
    ensures ams.Valid() && ams.indices == old(ams.indices)
    ensures ams.aocl.digests == old(ams.aocl.digests) && ams.swbfInactive.digests == old(ams.swbfInactive.digests)
    ensures ams.chunks == old(ams.chunks) && ams.swbfActive.sbf == old(ams.swbfActive.sbf)
  {
    hide Stores;
    ghost var below, base := ams.Value(), ams.indices;
    ApplyUpdate(ams, update);
    RevertUpdate(ams, update, below, base);
  }

  class ArchivalState {
    const ams: ArchivalMutatorSet
    const blockMmr: ArchivalMmr
    var tree: Tree
    var syncLabel: Digest

    ghost predicate Separate()
    {
      && ams.aocl != blockMmr && ams.swbfInactive != blockMmr && ams.aocl != ams.swbfInactive
    }

    /** The tree is well formed and valid, and the mutator set is the fold up to the sync label. */
    ghost predicate Valid()
      reads this, ams, ams.aocl, ams.swbfInactive, ams.swbfActive, blockMmr
    {
      && Separate() && tree.WellFormed() && tree.AllValid()
      && tree.Knows(syncLabel) && Follows(syncLabel)
    }

    ghost predicate Follows(d: Digest)
      requires tree.WellFormed() && tree.Knows(d)
      reads this`tree, ams, ams.aocl, ams.swbfInactive, ams.swbfActive
    {
      ams.Valid() && tree.IsAt(ams.Value(), d) && ams.indices == tree.Indices(d)
    }

    /** ArchivalState::new on empty databases. */
    constructor (genesis: Block)
      requires genesis.height == 0
      ensures Valid() && tree == Tree(genesis, map[]) && syncLabel == genesis.hash
      ensures BlockMmrFollows(genesis.hash)
    {
      ams := new ArchivalMutatorSet();
      blockMmr := new ArchivalMmr([], []);
      tree := Tree(genesis, map[]);
      syncLabel := genesis.hash;
      new;
      PopulateWithGenesis();
      var empty := blockMmr.IsEmpty();
      if empty {
        var _ := blockMmr.Append(genesis.hash);
      }
    }

    /** The leafs of the block mountain range are the chain up to d, in height order. */
    ghost predicate BlockMmrFollows(d: Digest)
      requires tree.WellFormed() && tree.Knows(d)
      reads this`tree, blockMmr
    {
      blockMmr.Valid() && blockMmr.leafs == tree.Chain(d)
    }

    /** Add the genesis outputs to an empty mutator set. */
    method PopulateWithGenesis()
      requires Separate() && tree.WellFormed() && ams.Valid() && ams.aocl.leafs == [] && ams.indices == multiset{}
      modifies ams, ams.aocl, ams.swbfInactive, ams.swbfActive
      ensures Follows(tree.genesis.hash)
    {
      var outputs := tree.genesis.outputs;
      for k := 0 to |outputs|
        invariant ams.Valid() && ams.aocl.leafs == outputs[..k] && ams.indices == multiset{}
      {
        ams.Add(outputs[k]);
      }
      assert outputs[..|outputs|] == outputs;
    }

    /** Roll back the block that the mutator set follows. */
    method RollBack(d: Digest)
      requires Separate() && tree.WellFormed() && tree.AllValid() && d in tree.blocks && Follows(d)
      modifies ams, ams.aocl, ams.swbfInactive, ams.swbfActive
      ensures Follows(tree.Parent(d))
    {
      var block := tree.Get(d);
      ghost var parent, below := tree.Parent(d), StateBelow(tree, d);
      RevertUpdate(ams, UpdateOf(block).value, below, tree.Indices(parent));
    }

    /** Apply a block on top of the one that the mutator set follows. */
    method Apply(d: Digest)
      requires Separate() && tree.WellFormed() && tree.AllValid() && d in tree.blocks && Follows(tree.Parent(d))
      modifies ams, ams.aocl, ams.swbfInactive, ams.swbfActive
      ensures Follows(d)
    {
      var block := tree.Get(d);
      ghost var parent, below := tree.Parent(d), StateBelow(tree, d);
      RepresentationUnique(ams.Value(), below, tree.Indices(parent));
      ApplyUpdate(ams, UpdateOf(block).value);
    }

    /** Roll back all blocks above height low, from the tip down. */
    method RollBackAlong(backwards: seq<Digest>, ghost tip: Digest, ghost low: nat)
      requires Separate() && tree.WellFormed() && tree.AllValid() && tree.Knows(tip) && Follows(tip)
      requires low <= tree.Get(tip).height && backwards == Reverse(Above(tree, tip, low))
      modifies ams, ams.aocl, ams.swbfInactive, ams.swbfActive
      ensures tree.Knows(tree.Chain(tip)[low]) && Follows(tree.Chain(tip)[low])
    {
      hide Tree.Chain, Tree.WellFormed, Tree.AllValid, Follows;
      ghost var top, at := tree.Get(tip).height, tip;
      for k := 0 to |backwards|
        invariant at == tree.Chain(tip)[top - k] && tree.Knows(at) && Follows(at)
      {
        tree.ChainAt(tip, top - k);
        tree.ChainAt(tip, top - k - 1);
        at := tree.Parent(at);
        RollBack(backwards[k]);
      }
    }

    /** Apply all blocks above height low, up to the tip. */
    method ApplyAlong(forwards: seq<Digest>, ghost tip: Digest, ghost low: nat)
      requires Separate() && tree.WellFormed() && tree.AllValid() && tree.Knows(tip)
      requires low <= tree.Get(tip).height && forwards == Above(tree, tip, low)
      requires tree.Knows(tree.Chain(tip)[low]) && Follows(tree.Chain(tip)[low])
      modifies ams, ams.aocl, ams.swbfInactive, ams.swbfActive
      ensures Follows(tip)
    {
      hide Tree.Chain, Tree.WellFormed, Tree.AllValid, Follows;
      ghost var at := tree.Chain(tip)[low];
      assert forall k | 0 <= k < |forwards| :: forwards[k] == tree.Chain(tip)[low + k + 1];
      for k := 0 to |forwards|
        invariant at == tree.Chain(tip)[low + k] && tree.Knows(at) && Follows(at)
      {
        tree.ChainAt(tip, low + k + 1);
        at := tree.Chain(tip)[low + k + 1];
        Apply(forwards[k]);
      }
    }

    /** Follow a stored block, across any reorganisation. */
    method FollowBlock(newBlock: Block)
      requires Valid() && newBlock.hash in tree.blocks && tree.blocks[newBlock.hash] == newBlock
      modifies ams, ams.aocl, ams.swbfInactive, ams.swbfActive
      ensures Follows(newBlock.hash)
    {
      hide Tree.Chain, Tree.WellFormed, Tree.AllValid, IsLatestCommonAncestor, Above, Follows;
      KnownAboveGenesis(tree, newBlock);
      var parent := newBlock.prevBlockDigest;
      if syncLabel != parent {
        var backwards, luca, forwards := FindPath(tree, syncLabel, parent);
        LucaOnChains(tree, luca, syncLabel, parent);
        RollBackAlong(backwards, syncLabel, tree.Get(luca).height);
        ApplyAlong(forwards, parent, tree.Get(luca).height);
      }
      Apply(newBlock.hash);
      var sane := SanityCheck(newBlock);
      assert sane;
    }

    /** Back to the state right after genesis. */
    method FollowGenesis(newBlock: Block)
      requires Valid() && tree.Knows(newBlock.hash) && tree.Get(newBlock.hash) == newBlock && newBlock.height == 0
      modifies ams, ams.aocl, ams.swbfInactive, ams.swbfActive
      ensures Follows(newBlock.hash)
    {
      AtHeightZero(tree);
      ams.Clear();
      PopulateWithGenesis();
    }

    /** Update the mutator set with a new tip. Fails, changing nothing, if the block has no mutator set update. */
    method UpdateMutatorSet(newBlock: Block) returns (ok: bool)
      requires Valid()
      requires newBlock.height == 0 || UpdateOf(newBlock).Some? ==>
                 tree.Knows(newBlock.hash) && tree.Get(newBlock.hash) == newBlock
      modifies this`syncLabel, ams, ams.aocl, ams.swbfInactive, ams.swbfActive
      ensures Valid()
      ensures ok <==> newBlock.height == 0 || UpdateOf(newBlock).Some?
      ensures ok ==> syncLabel == newBlock.hash
      ensures !ok ==> syncLabel == old(syncLabel) && ams.Value() == old(ams.Value())
    {
      hide Tree.WellFormed, Tree.AllValid, Follows;
      if newBlock.height == 0 {
        FollowGenesis(newBlock);
        syncLabel := newBlock.hash;
        ok := true;
      } else if UpdateOf(newBlock).None? {
        ok := false;
      } else {
        KnownAboveGenesis(tree, newBlock);
        FollowBlock(newBlock);
        syncLabel := newBlock.hash;
        ok := true;
      }
    }

    /** Set a block as tip of the block mountain range, across any reorganisation. */
    method AppendToArchivalBlockMmr(newBlock: Block, ghost oldTip: Digest)
      requires tree.WellFormed() && tree.Knows(oldTip) && BlockMmrFollows(oldTip)
      requires tree.Knows(newBlock.hash) && tree.Get(newBlock.hash) == newBlock
      modifies blockMmr
      ensures BlockMmrFollows(newBlock.hash)
    {
      hide Tree.Chain, Tree.WellFormed;
      if newBlock.height == 0 {
        tree.ChainOfGenesis(oldTip, newBlock.hash);
        var leaf := blockMmr.TryGetLeaf(0);
        assert leaf == Some(newBlock.hash);
        blockMmr.PruneToNumLeafs(1);
        return;
      }
      KnownAboveGenesis(tree, newBlock);
      var parent := newBlock.prevBlockDigest;
      var latest := PruneBlockMmr(newBlock.height, oldTip);
      if parent != latest {
        MoveBlockMmr(latest, parent);
      }
      var last := blockMmr.GetLatestLeaf();
      assert last == Some(parent);
      var _ := blockMmr.Append(newBlock.hash);
      tree.ChainStep(newBlock.hash);
    }

    /** Drop all leafs from the given height on, and return the latest leaf that remains. */
    method PruneBlockMmr(height: nat, ghost oldTip: Digest) returns (latest: Digest)
      requires tree.WellFormed() && tree.Knows(oldTip) && BlockMmrFollows(oldTip) && height > 0
      modifies blockMmr
      ensures tree.Knows(latest) && BlockMmrFollows(latest)
    {
      hide Tree.Chain, Tree.WellFormed;
      blockMmr.PruneToNumLeafs(height);
      var leaf := blockMmr.GetLatestLeaf();
      ghost var h := if height <= tree.Get(oldTip).height then height - 1 else tree.Get(oldTip).height;
      tree.ChainPrefix(oldTip, h);
      assert blockMmr.leafs == tree.Chain(oldTip)[..h + 1];
      latest := leaf.value;
    }

    /** Replace the chain of one block by that of another. */
    method MoveBlockMmr(start: Digest, stop: Digest)
      requires tree.WellFormed() && tree.Knows(start) && tree.Knows(stop) && BlockMmrFollows(start)
      modifies blockMmr
      ensures BlockMmrFollows(stop)
    {
      hide Tree.Chain, Tree.WellFormed, IsLatestCommonAncestor;
      var backwards, luca, forwards := FindPath(tree, start, stop);
      LucaOnChains(tree, luca, start, stop);
      RemoveLeafs(|backwards|);
      tree.ChainPrefix(start, tree.Get(luca).height);
      tree.ChainPrefix(stop, tree.Get(luca).height);
      AppendLeafs(forwards);
    }

    /** Remove the latest leafs, one by one. */
    method RemoveLeafs(count: nat)
      requires blockMmr.Valid() && count <= |blockMmr.leafs|
      modifies blockMmr
      ensures blockMmr.Valid() && blockMmr.leafs == old(blockMmr.leafs)[..|old(blockMmr.leafs)| - count]
    {
      for k := 0 to count
        invariant blockMmr.Valid() && blockMmr.leafs == old(blockMmr.leafs)[..|old(blockMmr.leafs)| - k]
      {
        var _ := blockMmr.RemoveLastLeaf();
      }
    }

    /** Append new leafs, one by one. */
    method AppendLeafs(digests: seq<Digest>)
      requires blockMmr.Valid()
      modifies blockMmr
      ensures blockMmr.Valid() && blockMmr.leafs == old(blockMmr.leafs) + digests
    {
      for k := 0 to |digests|
        invariant blockMmr.Valid() && blockMmr.leafs == old(blockMmr.leafs) + digests[..k]
      {
        var _ := blockMmr.Append(digests[k]);
      }
    }

    /** Whether a block is on the chain of the tip, by looking up the leaf at its height. */
    method IsCanonicalBlock(blockHash: Digest, blockHeight: nat, ghost tip: Digest) returns (canonical: bool)
      requires tree.WellFormed() && tree.Knows(tip) && BlockMmrFollows(tip)
      ensures tree.Knows(blockHash) && tree.Get(blockHash).height == blockHeight ==>
                (canonical <==> tree.IsAncestor(blockHash, tip))
      ensures canonical ==> tree.Knows(blockHash) && tree.Get(blockHash).height == blockHeight
    {
      var leaf := blockMmr.TryGetLeaf(blockHeight);
      canonical := leaf.Some? && leaf.value == blockHash;
      if canonical { tree.ChainAt(tip, blockHeight); }
      if tree.IsAncestor(blockHash, tip) { AncestorAt(tree, blockHash, tip); }
    }

    /** Store a block that is not yet known. */
    method StoreBlock(b: Block, ghost below: MutatorSet)
      requires Valid() && Attaches(tree, b)
      requires tree.IsAt(below, b.prevBlockDigest) && ValidOn(b, below, tree.Indices(b.prevBlockDigest))
      modifies this`tree
      ensures Valid() && tree == With(old(tree), b)
      ensures forall d | old(tree).Knows(d) :: tree.Knows(d) && tree.Chain(d) == old(tree).Chain(d)
    {
      hide Tree.WellFormed, Tree.AllValid, Tree.Chain, ValidOn, Attaches;
      ghost var was := tree;
      tree := With(tree, b);
      StoringKeepsValidity(was, b, below);
      forall d | was.Knows(d)
        ensures tree.Knows(d) && tree.Chain(d) == was.Chain(d) && tree.Commitments(d) == was.Commitments(d) && tree.Indices(d) == was.Indices(d)
      {
        StoringKeepsFolds(was, b, d);
      }
    }

    /** Set a new tip: store the block if it is new, then update the block mountain range and the mutator set. */
    method SetNewTip(b: Block, ghost below: MutatorSet)
      requires Valid() && BlockMmrFollows(syncLabel)
      requires tree.Knows(b.hash) ==> tree.Get(b.hash) == b && (b.height == 0 || UpdateOf(b).Some?)
      requires !tree.Knows(b.hash) ==>
                 && Attaches(tree, b) && UpdateOf(b).Some?
                 && tree.IsAt(below, b.prevBlockDigest) && ValidOn(b, below, tree.Indices(b.prevBlockDigest))
      modifies this, blockMmr, ams, ams.aocl, ams.swbfInactive, ams.swbfActive
      ensures Valid() && syncLabel == b.hash && BlockMmrFollows(b.hash)
      ensures tree == if old(tree).Knows(b.hash) then old(tree) else With(old(tree), b)
    {
      hide Tree.WellFormed, Tree.AllValid, Tree.Chain, Follows, ValidOn;
      if !tree.Knows(b.hash) {
        StoreBlock(b, below);
      }
      AppendToArchivalBlockMmr(b, syncLabel);
      var ok := UpdateMutatorSet(b);
      assert ok;
    }

    /** The mutator set accumulator after a known block, from what the block itself commits to. */
    method AccumulatorAfter(d: Digest) returns (acc: MutatorSetAccumulator)
      requires tree.WellFormed() && tree.AllValid() && GenesisCommits(tree.genesis) && tree.Knows(d)
      ensures fresh(acc) && fresh(acc.swbfActive) && acc.Valid()
      ensures tree.IsAt(acc.value, d) && acc.indices == tree.Indices(d)
    {
      hide Stores, AccumulatorOf, Tree.AllValid, Tree.WellFormed;
      if d in tree.blocks {
        ghost var body := BodyState(tree, d);
        acc := MutatorSetAccumulatorAfter(tree.Get(d), body, tree.Indices(d));
      } else {
        ghost var body := GenesisBody(tree.genesis);
        acc := MutatorSetAccumulatorAfter(tree.Get(d), body, multiset{});
      }
    }

    /** One block of an import: skipped if known, refused if its predecessor is not or if it is invalid,
        and the new tip otherwise. The rules that are not modelled enter as a predicate. Without validation the
        caller vouches for the block. */
    method ImportBlock(b: Block, validateBlocks: bool, passesOtherRules: (Block, Block) -> bool) returns (ok: bool, stored: bool)
      requires Valid() && BlockMmrFollows(syncLabel) && GenesisCommits(tree.genesis)
      requires validateBlocks || tree.Knows(b.hash) || CanExtend(tree, b)
      modifies this, blockMmr, ams, ams.aocl, ams.swbfInactive, ams.swbfActive
      ensures Valid() && BlockMmrFollows(syncLabel)
      ensures tree == if stored then With(old(tree), b) else old(tree)
      ensures stored <==> CanExtend(old(tree), b) && (validateBlocks ==> passesOtherRules(b, old(tree).Get(b.prevBlockDigest)))
      ensures stored ==> ok && !old(tree).Knows(b.hash) && syncLabel == b.hash
      ensures !stored ==> syncLabel == old(syncLabel) && (ok <==> old(tree).Knows(b.hash))
    {
      hide Tree.WellFormed, Tree.AllValid, Tree.Chain, Follows, Stores, AllSynced, NoDoubleSpend, BodyCommits, GenesisCommits;
      if tree.Knows(b.hash) { return true, false; }
      if !validateBlocks {
        ghost var below := StateToExtend(tree, b);
        SetNewTip(b, below);
        return true, true;
      }
      if !tree.Knows(b.prevBlockDigest) { return false, false; }
      var predecessor := tree.Get(b.prevBlockDigest);
      if predecessor.height + 1 != b.height { return false, false; }
      var before := AccumulatorAfter(b.prevBlockDigest);
      var validation := Validate(b, before);
      ExtensionIsValid(tree, b, before.value);
      if !validation.Accepted? || !passesOtherRules(b, predecessor) { return false, false; }
      SetNewTip(b, before.value);
      return true, true;
    }

    /** Whatever blocks an import meets, in whatever order and with whatever reorganisations: the mutator set stays
        the fold of a valid chain from genesis, and the block mountain range its list of blocks. Stored are exactly the
        blocks that are accepted in their turn, up to the first refusal, and the last of them is the tip. */
    method ImportBlocks(blocks: seq<Block>, validateBlocks: bool, passesOtherRules: (Block, Block) -> bool)
      returns (ok: bool, numStored: nat)
      requires Valid() && BlockMmrFollows(syncLabel) && GenesisCommits(tree.genesis)
      requires validateBlocks || ValidInTurn(tree, blocks)
      modifies this, blockMmr, ams, ams.aocl, ams.swbfInactive, ams.swbfActive
      ensures Valid() && BlockMmrFollows(syncLabel)
      ensures old(tree).WellFormed() && tree == WithAll(old(tree), AcceptedInTurn(old(tree), blocks, validateBlocks, passesOtherRules))
      ensures syncLabel == LastOf(AcceptedInTurn(old(tree), blocks, validateBlocks, passesOtherRules), old(syncLabel))
      ensures numStored == |AcceptedInTurn(old(tree), blocks, validateBlocks, passesOtherRules)| == |tree.blocks| - |old(tree).blocks|
      ensures ok <==> forall b | b in blocks :: tree.Knows(b.hash)
      ensures !validateBlocks ==> ok
      ensures forall d | old(tree).Knows(d) :: tree.Knows(d) && tree.Get(d) == old(tree).Get(d)
    {
      hide Tree.WellFormed, Tree.AllValid, Tree.Chain, Follows, Stores, GenesisCommits, CanExtend, ValidInTurn, AcceptedInTurn, WithAll, LastOf;
      numStored := 0;
      ghost var done: seq<Block> := [];
      ghost var all := AcceptedInTurn(tree, blocks, validateBlocks, passesOtherRules);
      assert blocks[0..] == blocks && blocks[|blocks|..] == [];
      NoneToImport(tree, validateBlocks, passesOtherRules);
      NoneLast(syncLabel);
      for k := 0 to |blocks|
        invariant Valid() && BlockMmrFollows(syncLabel) && tree.genesis == old(tree).genesis
        invariant forall j | 0 <= j < k :: tree.Knows(blocks[j].hash)
        invariant validateBlocks || ValidInTurn(tree, blocks[k..])
        invariant tree == WithAll(old(tree), done) && syncLabel == LastOf(done, old(syncLabel)) && numStored == |done|
        invariant numStored == |tree.blocks| - |old(tree).blocks|
        invariant all == done + AcceptedInTurn(tree, blocks[k..], validateBlocks, passesOtherRules)
        invariant forall d | old(tree).Knows(d) :: tree.Knows(d) && tree.Get(d) == old(tree).Get(d)
      {
        if !validateBlocks { NextInTurn(tree, blocks, k); }
        NextAccepted(tree, blocks, k, validateBlocks, passesOtherRules);
        var imported, stored := ImportBlock(blocks[k], validateBlocks, passesOtherRules);
        if !imported {
          assert blocks[k] in blocks;
          assert all == done;
          return false, numStored;
        }
        if stored {
          numStored := numStored + 1;
          StoredOneMore(old(tree), done, blocks[k]);
          OneMoreLast(done, blocks[k], old(syncLabel));
          assert all == done + [blocks[k]] + AcceptedInTurn(tree, blocks[k + 1..], validateBlocks, passesOtherRules);
          done := done + [blocks[k]];
        }
      }
      NoneToImport(tree, validateBlocks, passesOtherRules);
      assert all == done;
      ok := true;
    }

    /** The mutator set agrees with the one that the new tip commits to. */
    method SanityCheck(newBlock: Block) returns (agrees: bool)
      requires Separate() && tree.WellFormed() && tree.AllValid()
      requires newBlock.hash in tree.blocks && tree.blocks[newBlock.hash] == newBlock && Follows(newBlock.hash)
      ensures agrees
    {
      var d := newBlock.hash;
      ghost var body := BodyState(tree, d);
      hide Stores;
      var after := MutatorSetAccumulatorAfter(newBlock, body, tree.Indices(d));
      RepresentationUnique(after.value, ams.Value(), tree.Indices(d));
      var acc := ams.Accumulator();
      agrees := after.Hash() == acc.Hash();
    }
  }

  /** Three ways to the mutator set after a valid block: the body's accumulator with the guesser fees added
      to it; all additions and then all removals on the accumulator; the same on the archival mutator set. */
  method ThreeWaysAgree(b: Block, before: MutatorSetAccumulator, ams: ArchivalMutatorSet)
    returns (byBody: MutatorSetAccumulator, byUpdate: MutatorSetAccumulator, byArchive: MutatorSetAccumulator)
    requires before.Valid() && ValidOn(b, before.value, before.indices)
    requires ams.Valid() && ams.Value() == before.value && ams.indices == before.indices && before.swbfActive != ams.swbfActive
    modifies ams, ams.aocl, ams.swbfInactive, ams.swbfActive
    ensures byBody.Valid() && byUpdate.Valid() && byArchive.Valid() && ams.Valid()
    ensures byBody.value == byUpdate.value == byArchive.value == ams.Value()
    ensures byBody.indices == byUpdate.indices == byArchive.indices == ams.indices
    ensures byBody.Hash() == byUpdate.Hash() == byArchive.Hash()
  {
    hide Stores, IndicesOf, AccumulatorOf, BodyCommits, NoDoubleSpend, AllSynced;
    var update := UpdateOf(b).value;
    ghost var after := before.indices + IndicesOf(update.removals);
    ghost var body := BodyWitness(b, before.value, before.indices);
    byBody := MutatorSetAccumulatorAfter(b, body, after);
    byUpdate := new MutatorSetAccumulator.Clone(before);
    NoRecords(before.value);
    var _, _ := ApplyToAccumulatorAndRecords(update, byUpdate, [], [], []);
    RepresentationUnique(byBody.value, byUpdate.value, after);
    ApplyUpdate(ams, update);
    RepresentationUnique(byBody.value, ams.Value(), after);
    byArchive := ams.Accumulator();
  }

  /** A new block that sits one above a known one and is valid on top of it. */
  ghost predicate CanExtend(t: Tree, b: Block)
    requires t.WellFormed()
  {
    Attaches(t, b) && exists ms :: t.IsAt(ms, b.prevBlockDigest) && ValidOn(b, ms, t.Indices(b.prevBlockDigest))
  }

  lemma StateToExtend(t: Tree, b: Block) returns (ms: MutatorSet)
    requires t.WellFormed() && CanExtend(t, b)
    ensures Attaches(t, b) && t.IsAt(ms, b.prevBlockDigest) && ValidOn(b, ms, t.Indices(b.prevBlockDigest))
  {
    hide Tree.WellFormed, Stores, ValidOn;
    ms :| t.IsAt(ms, b.prevBlockDigest) && ValidOn(b, ms, t.Indices(b.prevBlockDigest));
  }

  /** Every block, when its turn comes, is known or extends the tree. */
  ghost predicate ValidInTurn(t: Tree, blocks: seq<Block>)
    requires t.WellFormed()
    decreases |blocks|
  {
    blocks == [] ||
    if t.Knows(blocks[0].hash) then ValidInTurn(t, blocks[1..])
    else CanExtend(t, blocks[0]) && (StoringKeepsForm(t, blocks[0]); ValidInTurn(With(t, blocks[0]), blocks[1..]))
  }

  lemma NextInTurn(t: Tree, blocks: seq<Block>, k: nat)
    requires t.WellFormed() && k < |blocks| && ValidInTurn(t, blocks[k..])
    ensures t.Knows(blocks[k].hash) ==> ValidInTurn(t, blocks[k + 1..])
    ensures !t.Knows(blocks[k].hash) ==>
              CanExtend(t, blocks[k]) && With(t, blocks[k]).WellFormed() && ValidInTurn(With(t, blocks[k]), blocks[k + 1..])
  {
    hide ValidOn, Stores, Tree.WellFormed;
    assert blocks[k..][1..] == blocks[k + 1..];
    if !t.Knows(blocks[k].hash) { StoringKeepsForm(t, blocks[k]); }
  }

  /** The block is new and valid on top of a known one. */
  ghost predicate Accepts(t: Tree, b: Block, validate: bool, passesOtherRules: (Block, Block) -> bool)
    requires t.WellFormed()
  {
    CanExtend(t, b) && (validate ==> passesOtherRules(b, t.Get(b.prevBlockDigest)))
  }

  /** The blocks that are accepted when their turn comes, up to the first that is neither known nor accepted. */
  ghost function AcceptedInTurn(t: Tree, blocks: seq<Block>, validate: bool, passesOtherRules: (Block, Block) -> bool): seq<Block>
    requires t.WellFormed()
    decreases |blocks|
  {
    if blocks == [] then []
    else if t.Knows(blocks[0].hash) then AcceptedInTurn(t, blocks[1..], validate, passesOtherRules)
    else if Accepts(t, blocks[0], validate, passesOtherRules) then
      StoringKeepsForm(t, blocks[0]);
      [blocks[0]] + AcceptedInTurn(With(t, blocks[0]), blocks[1..], validate, passesOtherRules)
    else []
  }

  function WithAll(t: Tree, blocks: seq<Block>): Tree {
    if blocks == [] then t else With(WithAll(t, blocks[..|blocks| - 1]), blocks[|blocks| - 1])
  }

  function LastOf(blocks: seq<Block>, otherwise: Digest): Digest {
    if blocks == [] then otherwise else blocks[|blocks| - 1].hash
  }

  lemma NoneToImport(t: Tree, validate: bool, passesOtherRules: (Block, Block) -> bool)
    requires t.WellFormed()
    ensures AcceptedInTurn(t, [], validate, passesOtherRules) == [] && WithAll(t, []) == t
  {
  }

  lemma NextAccepted(t: Tree, blocks: seq<Block>, k: nat, validate: bool, passesOtherRules: (Block, Block) -> bool)
    requires t.WellFormed() && k < |blocks|
    ensures var b := blocks[k];
            && (t.Knows(b.hash) ==>
                  AcceptedInTurn(t, blocks[k..], validate, passesOtherRules) == AcceptedInTurn(t, blocks[k + 1..], validate, passesOtherRules))
            && (Accepts(t, b, validate, passesOtherRules) ==>
                  && With(t, b).WellFormed()
                  && AcceptedInTurn(t, blocks[k..], validate, passesOtherRules) ==
                     [b] + AcceptedInTurn(With(t, b), blocks[k + 1..], validate, passesOtherRules))
            && (!t.Knows(b.hash) && !Accepts(t, b, validate, passesOtherRules) ==> AcceptedInTurn(t, blocks[k..], validate, passesOtherRules) == [])
  {
    hide Tree.WellFormed, Stores, ValidOn;
    assert blocks[k..][1..] == blocks[k + 1..] && blocks[k..][0] == blocks[k];
    if Accepts(t, blocks[k], validate, passesOtherRules) { StoringKeepsForm(t, blocks[k]); }
  }

  lemma NoneLast(otherwise: Digest)
    ensures LastOf([], otherwise) == otherwise
  {
  }

  lemma OneMoreLast(done: seq<Block>, b: Block, otherwise: Digest)
    ensures LastOf(done + [b], otherwise) == b.hash
  {
  }

  lemma StoredOneMore(t: Tree, done: seq<Block>, b: Block)
    ensures WithAll(t, done + [b]) == With(WithAll(t, done), b)
    ensures !WithAll(t, done).Knows(b.hash) ==> |With(WithAll(t, done), b).blocks| == |WithAll(t, done).blocks| + 1
  {
    assert (done + [b])[..|done|] == done;
    var was := WithAll(t, done).blocks;
    assert was[b.hash := b].Keys == was.Keys + {b.hash};
  }

  /** What is accepted: new blocks, no two of them with the same hash, each valid on top of the tree with those before it. */
  lemma {:induction false} AcceptedAreNew(t: Tree, blocks: seq<Block>, validate: bool, passesOtherRules: (Block, Block) -> bool, k: nat)
    requires t.WellFormed() && k < |AcceptedInTurn(t, blocks, validate, passesOtherRules)|
    ensures var accepted := AcceptedInTurn(t, blocks, validate, passesOtherRules);
            && accepted[k] in blocks && WithAll(t, accepted[..k]).WellFormed()
            && Accepts(WithAll(t, accepted[..k]), accepted[k], validate, passesOtherRules)
            && !t.Knows(accepted[k].hash) && forall j | 0 <= j < k :: accepted[j].hash != accepted[k].hash
    decreases |blocks|
  {
    hide CanExtend, Tree.WellFormed;
    var rest := blocks[1..];
    if t.Knows(blocks[0].hash) {
      AcceptedAreNew(t, rest, validate, passesOtherRules, k);
    } else {
      var b, t' := blocks[0], With(t, blocks[0]);
      AcceptedExtend(t, b);
      var later, accepted := AcceptedInTurn(t', rest, validate, passesOtherRules), AcceptedInTurn(t, blocks, validate, passesOtherRules);
      if k == 0 {
        assert accepted[..0] == [];
      } else {
        AcceptedAreNew(t', rest, validate, passesOtherRules, k - 1);
        assert accepted[..k] == [b] + later[..k - 1];
        FirstThenRest(t, b, later[..k - 1]);
      }
    }
  }

  lemma AcceptedExtend(t: Tree, b: Block)
    requires t.WellFormed() && CanExtend(t, b)
    ensures !t.Knows(b.hash) && With(t, b).WellFormed()
  {
    hide ValidOn, Stores;
    StoringKeepsForm(t, b);
  }

  lemma {:induction false} FirstThenRest(t: Tree, b: Block, rest: seq<Block>)
    ensures WithAll(t, [b] + rest) == WithAll(With(t, b), rest)
    decreases |rest|
  {
    if rest == [] {
      assert [b] + rest == [b] && [b][..0] == [];
    } else {
      var init := rest[..|rest| - 1];
      FirstThenRest(t, b, init);
      assert ([b] + rest)[..|rest|] == [b] + init;
    }
  }

  lemma ExtensionIsValid(t: Tree, b: Block, below: MutatorSet)
    requires t.WellFormed() && Attaches(t, b) && t.IsAt(below, b.prevBlockDigest)
    ensures CanExtend(t, b) <==> ValidOn(b, below, t.Indices(b.prevBlockDigest))
  {
    hide Tree.WellFormed, Stores, ValidOn;
    if CanExtend(t, b) {
      var ms :| t.IsAt(ms, b.prevBlockDigest) && ValidOn(b, ms, t.Indices(b.prevBlockDigest));
      RepresentationUnique(ms, below, t.Indices(b.prevBlockDigest));
    }
  }

  /** The genesis body commits to its outputs, and there is no guesser fee. */
  ghost predicate GenesisCommits(genesis: Block) {
    genesis.guesserFees == Some([]) &&
    exists ms: MutatorSet :: ms.aocl == genesis.outputs && Stores(ms, multiset{}) && genesis.body == AccumulatorOf(ms)
  }

  lemma GenesisBody(genesis: Block) returns (ms: MutatorSet)
    requires GenesisCommits(genesis)
    ensures genesis.guesserFees == Some([]) && ms.aocl + [] == genesis.outputs
    ensures Stores(ms, multiset{}) && genesis.body == AccumulatorOf(ms)
  {
    hide Stores, AccumulatorOf;
    ms :| ms.aocl == genesis.outputs && Stores(ms, multiset{}) && genesis.body == AccumulatorOf(ms);
  }

  lemma NoRecords(ms: MutatorSet)
    ensures AllSynced([], ms)
  {
  }

  lemma FoldStep(t: Tree, d: Digest)
    requires t.WellFormed() && d in t.blocks && t.blocks[d].inputs.Some? && t.blocks[d].guesserFees.Some?
    ensures t.Commitments(d) == t.Commitments(t.Parent(d)) + (t.blocks[d].outputs + t.blocks[d].guesserFees.value)
    ensures t.Indices(d) == t.Indices(t.Parent(d)) + IndicesOf(t.blocks[d].inputs.value)
  {
    hide IndicesOf, Tree.WellFormed;
  }

  lemma BodyWitness(b: Block, below: MutatorSet, before: multiset<nat>) returns (ms: MutatorSet)
    requires b.inputs.Some? && b.guesserFees.Some? && BodyCommits(b, below, before)
    ensures b.body == AccumulatorOf(ms) && Stores(ms, before + IndicesOf(b.inputs.value))
    ensures ms.aocl + b.guesserFees.value == below.aocl + (b.outputs + b.guesserFees.value)
  {
    hide Stores, AccumulatorOf, IndicesOf;
    ms :| Stores(ms, before + IndicesOf(b.inputs.value)) && ms.aocl == below.aocl + b.outputs && b.body == AccumulatorOf(ms);
    assert below.aocl + b.outputs + b.guesserFees.value == below.aocl + (b.outputs + b.guesserFees.value);
  }

  /** The mutator set that a valid block's body commits to. */
  lemma BodyState(t: Tree, d: Digest) returns (ms: MutatorSet)
    requires t.WellFormed() && t.AllValid() && d in t.blocks
    ensures t.blocks[d].guesserFees.Some? && t.blocks[d].body == AccumulatorOf(ms)
    ensures Stores(ms, t.Indices(d)) && ms.aocl + t.blocks[d].guesserFees.value == t.Commitments(d)
  {
    hide Stores, AccumulatorOf, UpdateOf, IndicesOf, BodyCommits, AllSynced, NoDoubleSpend, Tree.AllValid;
    var below := StateBelow(t, d);
    FoldStep(t, d);
    ms := BodyWitness(t.blocks[d], below, t.Indices(t.Parent(d)));
  }

  /** A known block above genesis is stored, and so known with its predecessor. */
  lemma KnownAboveGenesis(t: Tree, b: Block)
    requires t.WellFormed() && t.Knows(b.hash) && t.Get(b.hash) == b && (b.height > 0 || b.hash in t.blocks)
    ensures b.hash in t.blocks && t.Parent(b.hash) == b.prevBlockDigest && t.Knows(b.prevBlockDigest)
  {
  }

  /** The mutator set that the predecessor of a valid block leaves behind. */
  ghost function StateBelow(t: Tree, d: Digest): (ms: MutatorSet)
    requires t.WellFormed() && t.AllValid() && d in t.blocks
    ensures t.IsAt(ms, t.Parent(d)) && ValidOn(t.blocks[d], ms, t.Indices(t.Parent(d)))
    ensures UpdateOf(t.blocks[d]).Some?
  {
    assert t.ValidBlock(d);
    var ms :| t.IsAt(ms, t.Parent(d)) && ValidOn(t.blocks[d], ms, t.Indices(t.Parent(d)));
    ms
  }

  lemma LucaOnChains(t: Tree, luca: Digest, start: Digest, stop: Digest)
    requires t.WellFormed() && t.Knows(start) && t.Knows(stop) && IsLatestCommonAncestor(t, luca, start, stop)
    ensures t.Knows(luca) && t.Get(luca).height <= t.Get(start).height && t.Get(luca).height <= t.Get(stop).height
    ensures t.Chain(start)[t.Get(luca).height] == luca == t.Chain(stop)[t.Get(luca).height]
    ensures t.Chain(start)[t.Get(start).height] == start && t.Chain(stop)[t.Get(stop).height] == stop
  {
    AncestorAt(t, luca, start);
    AncestorAt(t, luca, stop);
  }
}
