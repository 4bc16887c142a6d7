/** Blocks, as far as the chain rules about the mutator set go. */
module Blocks {
  import opened Digests
  import opened Sorting
  import opened MutatorSets
  import opened RemovalRecords
  import opened MutatorSetAccumulators
  import opened RecordUpdates
  import opened MutatorSetUpdates
  import opened Options

  /** The accumulator in a block body: the state after the transaction, before the guesser fees. */
  datatype BodyAccumulator = BodyAccumulator(aocl: Mmra, swbfInactive: Mmra, window: seq<nat>) {
    function Hash(): Digest {
      HashPair(HashPair(aocl.Bag(), swbfInactive.Bag()), HashPair(HashNats(window), Default))
    }
  }

  function AccumulatorOf(ms: MutatorSet): BodyAccumulator {
    BodyAccumulator(MmraOf(ms.aocl), MmraOf(ms.ChunkDigests()), ms.window)
  }

  /** `inputs` are the removal records if they can be unpacked; `guesserFees` are the addition records
      for the guesser if the fee is not negative. */
  datatype Block = Block(hash: Digest, prevBlockDigest: Digest, height: nat,
                         outputs: seq<Digest>, inputs: Option<seq<UnpackedRecord>>, guesserFees: Option<seq<Digest>>,
                         body: BodyAccumulator)

  function AllAdditionRecords(b: Block): Option<seq<Digest>> {
    if b.guesserFees.None? then None else Some(b.outputs + b.guesserFees.value)
  }

  /** Block::mutator_set_update, which fails for a negative fee and for inputs that do not unpack. */
  function UpdateOf(b: Block): Option<MutatorSetUpdate> {
    match (AllAdditionRecords(b), b.inputs)
    case (Some(additions), Some(removals)) => Some(MutatorSetUpdate(removals, additions))
    case _ => None
  }

  /** The block's mutator set rules hold on top of a predecessor that leaves this mutator set behind. */
  ghost predicate ValidOn(b: Block, prev: MutatorSet, indices: multiset<nat>) {
    && b.inputs.Some? && b.guesserFees.Some?
    && AllSynced(b.inputs.value, prev)
    && NoDoubleSpend(b.inputs.value, indices)
    && BodyCommits(b, prev, indices)
  }

  /** The body commits to the predecessor's mutator set with the outputs added and the inputs removed. */
  ghost predicate BodyCommits(b: Block, prev: MutatorSet, indices: multiset<nat>)
    requires b.inputs.Some?
  {
    exists after :: Stores(after, indices + IndicesOf(b.inputs.value)) && after.aocl == prev.aocl + b.outputs && b.body == AccumulatorOf(after)
  }

  /** Block::mutator_set_accumulator_after: the body's accumulator with the guesser fees added. */
  method MutatorSetAccumulatorAfter(b: Block, ghost body: MutatorSet, ghost indices: multiset<nat>)
    returns (acc: MutatorSetAccumulator)
    requires b.guesserFees.Some? && b.body == AccumulatorOf(body) && Stores(body, indices)
    ensures fresh(acc) && fresh(acc.swbfActive) && acc.Valid()
    ensures acc.value.aocl == body.aocl + b.guesserFees.value && acc.indices == indices
  {
    acc := new MutatorSetAccumulator.From(b.body.aocl, b.body.swbfInactive, b.body.window, body, indices);
    var update := MutatorSetUpdate([], b.guesserFees.value);
    var ok, _ := ApplyToAccumulatorAndRecords(update, acc, [], [], []);
    assert ok;
  }

  datatype Validation =
    | Accepted
    | UnpackFailure
    | RemovalRecordsValidity
    | RemovalRecordsUniqueness
    | MutatorSetUpdateImpossible
    | MutatorSetUpdateIntegrity
    | NegativeFee

  /** Two records spend the same index set. */
  predicate Repeats(records: seq<RemovalRecord>) {
    exists j, k | 0 <= j < k < |records| :: records[j].absoluteIndices == records[k].absoluteIndices
  }

  /** The index sets of the records, each once. */
  function DifferentIndexSets(records: seq<RemovalRecord>): set<seq<nat>> {
    set k | 0 <= k < |records| :: records[k].absoluteIndices
  }

  /** There are fewer of them than records exactly if two records have the same. */
  lemma {:induction false} RepeatsIff(records: seq<RemovalRecord>)
    ensures |DifferentIndexSets(records)| <= |records|
    ensures |DifferentIndexSets(records)| != |records| <==> Repeats(records)
    decreases |records|
  {
    if records == [] {
      assert DifferentIndexSets(records) == {};
    } else {
      var init, last := records[..|records| - 1], records[|records| - 1].absoluteIndices;
      RepeatsIff(init);
      assert DifferentIndexSets(records) == DifferentIndexSets(init) + {last} by {
        forall s | s in DifferentIndexSets(init) ensures s in DifferentIndexSets(records) {
          var k :| 0 <= k < |init| && init[k].absoluteIndices == s;
          assert records[k].absoluteIndices == s;
        }
      }
      if last in DifferentIndexSets(init) {
        assert DifferentIndexSets(records) == DifferentIndexSets(init);
        var k :| 0 <= k < |init| && init[k].absoluteIndices == last;
        assert records[k].absoluteIndices == records[|records| - 1].absoluteIndices;
      } else {
        OnlyInInit(records);
      }
    }
  }

  lemma OnlyInInit(records: seq<RemovalRecord>)
    requires records != [] && records[|records| - 1].absoluteIndices !in DifferentIndexSets(records[..|records| - 1])
    ensures Repeats(records) <==> Repeats(records[..|records| - 1])
  {
    var init := records[..|records| - 1];
    forall j, k | 0 <= j < k < |records| && records[j].absoluteIndices == records[k].absoluteIndices ensures k < |init| {
      assert init[j].absoluteIndices in DifferentIndexSets(init);
    }
    if Repeats(records) {
      var j, k :| 0 <= j < k < |records| && records[j].absoluteIndices == records[k].absoluteIndices;
      assert init[j].absoluteIndices == init[k].absoluteIndices;
    }
  }

  /** Every record is in step and, on its own, spends something. */
  ghost predicate EachRemovable(records: seq<RemovalRecord>, ms: MutatorSet, indices: multiset<nat>) {
    forall k | 0 <= k < |records| :: Synced(records[k], ms) && SpendsSomething(records[k].absoluteIndices, indices)
  }

  /** What each refusal means: the first rule that is broken. */
  ghost predicate IsVerdict(v: Validation, b: Block, prev: MutatorSet, indices: multiset<nat>) {
    && (v.UnpackFailure? <==> b.inputs.None?)
    && (b.inputs.Some? ==>
          && (v.RemovalRecordsValidity? <==> !EachRemovable(b.inputs.value, prev, indices))
          && (v.RemovalRecordsUniqueness? <==> EachRemovable(b.inputs.value, prev, indices) && Repeats(b.inputs.value))
          && (v.MutatorSetUpdateImpossible? <==>
                EachRemovable(b.inputs.value, prev, indices) && !Repeats(b.inputs.value) && !NoDoubleSpend(b.inputs.value, indices))
          && (v.MutatorSetUpdateIntegrity? ==> !BodyCommits(b, prev, indices))
          && (v.NegativeFee? ==> b.guesserFees.None? && BodyCommits(b, prev, indices)))
  }

  /** The mutator set rules of Block::validate, on the accumulator after the previous block. */
  method Validate(b: Block, before: MutatorSetAccumulator) returns (v: Validation)
    requires before.Valid()
    ensures v.Accepted? <==> ValidOn(b, before.value, before.indices)
    ensures IsVerdict(v, b, before.value, before.indices)
  {
    hide Synced, Stores, NoDoubleSpend, SpendsSomething, Repeats, BodyCommits, DifferentIndexSets, AccumulatorOf;
    if b.inputs.None? { return UnpackFailure; }
    var inputs := b.inputs.value;
    for k := 0 to |inputs|
      invariant AllSynced(inputs[..k], before.value) && EachRemovable(inputs[..k], before.value, before.indices)
    {
      var can, _ := before.CanRemove(inputs[k]);
      if !can {
        NotRemovable(inputs, k, before.value, before.indices);
        return RemovalRecordsValidity;
      }
    }
    assert inputs[..|inputs|] == inputs;
    RepeatsIff(inputs);
    if |DifferentIndexSets(inputs)| != |inputs| {
      RepeatsSpendTwice(inputs, before.indices);
      return RemovalRecordsUniqueness;
    }
    var acc := new MutatorSetAccumulator.Clone(before);
    var ok, _ := ApplyToAccumulatorAndRecords(MutatorSetUpdate(inputs, b.outputs), acc, [], [], []);
    if !ok { return MutatorSetUpdateImpossible; }
    BodyCommitsIffEqual(b, before.value, before.indices, acc.value);
    if acc.Hash() != b.body.Hash() { return MutatorSetUpdateIntegrity; }
    if b.guesserFees.None? { return NegativeFee; }
    v := Accepted;
  }

  lemma NotRemovable(inputs: seq<RemovalRecord>, k: nat, ms: MutatorSet, indices: multiset<nat>)
    requires k < |inputs|
    requires !(Synced(inputs[k], ms) && SpendsSomething(inputs[k].absoluteIndices, indices))
    ensures !(AllSynced(inputs, ms) && NoDoubleSpend(inputs, indices))
  {
    hide Synced;
    if NoDoubleSpend(inputs, indices) {
      SpendsAtItsTurn(inputs, indices, k);
      var i :| i in inputs[k].absoluteIndices && (indices + IndicesOf(inputs[..k]))[i] == 0;
    }
  }

  lemma {:induction false} SpendsAtItsTurn(records: seq<RemovalRecord>, indices: multiset<nat>, k: nat)
    requires NoDoubleSpend(records, indices) && k < |records|
    ensures SpendsSomething(records[k].absoluteIndices, indices + IndicesOf(records[..k]))
    decreases |records|
  {
    if k < |records| - 1 {
      var init := records[..|records| - 1];
      assert init[..k] == records[..k];
      SpendsAtItsTurn(init, indices, k);
    }
  }

  lemma {:induction false} PartOfSum(records: seq<RemovalRecord>, j: nat)
    requires j < |records|
    ensures multiset(records[j].absoluteIndices) <= IndicesOf(records)
    decreases |records|
  {
    if j < |records| - 1 { PartOfSum(records[..|records| - 1], j); }
  }

  /** A repeated index set is a double spend, so the uniqueness rule never rejects more. */
  lemma RepeatsSpendTwice(records: seq<RemovalRecord>, indices: multiset<nat>)
    requires Repeats(records)
    ensures !NoDoubleSpend(records, indices)
  {
    var j, k :| 0 <= j < k < |records| && records[j].absoluteIndices == records[k].absoluteIndices;
    if NoDoubleSpend(records, indices) {
      SpendsAtItsTurn(records, indices, k);
      var i :| i in records[k].absoluteIndices && (indices + IndicesOf(records[..k]))[i] == 0;
      PartOfSum(records[..k], j);
      CountIsMembership(records[j].absoluteIndices, i);
      assert false;
    }
  }

  lemma BodyCommitsIffEqual(b: Block, prev: MutatorSet, indices: multiset<nat>, after: MutatorSet)
    requires b.inputs.Some? && Stores(after, indices + IndicesOf(b.inputs.value)) && after.aocl == prev.aocl + b.outputs
    ensures BodyCommits(b, prev, indices) <==> b.body == AccumulatorOf(after)
    ensures HashOf(after) == b.body.Hash() <==> b.body == AccumulatorOf(after)
  {
    hide Stores;
    if BodyCommits(b, prev, indices) {
      var other :| Stores(other, indices + IndicesOf(b.inputs.value)) && other.aocl == prev.aocl + b.outputs && b.body == AccumulatorOf(other);
      RepresentationUnique(after, other, indices + IndicesOf(b.inputs.value));
    }
  }
}
