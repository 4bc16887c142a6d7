/** Mutator set updates: the additions and removals of a block, applied to an accumulator while other
    removal records are kept in step. */
module MutatorSetUpdates {
  import opened Digests
  import opened Sorting
  import opened MutatorSets
  import opened RemovalRecords
  import opened MutatorSetAccumulators
  import opened RecordUpdates
  import opened MembershipProofs

  datatype MutatorSetUpdate = MutatorSetUpdate(removals: seq<UnpackedRecord>, additions: seq<Digest>)

  /** All indices of a list of records. */
  function IndicesOf(records: seq<RemovalRecord>): multiset<nat> {
    if records == [] then multiset{}
    else IndicesOf(records[..|records| - 1]) + multiset(records[|records| - 1].absoluteIndices)
  }

  lemma {:induction false} SameIndicesSameSum(a: seq<RemovalRecord>, b: seq<RemovalRecord>)
    requires SameIndices(a, b)
    ensures IndicesOf(a) == IndicesOf(b)
    decreases |a|
  {
    if a != [] { SameIndicesSameSum(a[..|a| - 1], b[..|b| - 1]); }
  }

  /** Each record spends something that neither the mutator set nor an earlier record has spent. */
  ghost predicate NoDoubleSpend(records: seq<RemovalRecord>, indices: multiset<nat>) {
    records == [] ||
    var init := records[..|records| - 1];
    NoDoubleSpend(init, indices) && SpendsSomething(records[|records| - 1].absoluteIndices, indices + IndicesOf(init))
  }

  /** The records still to be applied, last first. */
  ghost predicate RemainsOf(remaining: seq<RemovalRecord>, all: seq<RemovalRecord>) {
    && |remaining| <= |all|
    && forall k | 0 <= k < |remaining| :: remaining[k].absoluteIndices == all[|all| - 1 - k].absoluteIndices
  }

  /** The additions first, then the removals one by one, each after the remaining records have been
      updated for it. Keeps other records and the membership proofs of authenticated items in step.
      Returns whether every record could be removed. A record that is out of step when its turn comes ends the run
      here; the code goes on, but what the accumulator then holds is of no use. */
  method ApplyToAccumulatorAndRecords(update: MutatorSetUpdate, acc: MutatorSetAccumulator, records: seq<RemovalRecord>,
                                      proofs: seq<MsMembershipProof>, indicesOf: seq<seq<nat>>)
    returns (ok: bool, updated: seq<RemovalRecord>)
    requires acc.Valid() && AllSynced(records, acc.value)
    requires |proofs| == |indicesOf| && Distinct(proofs) && AllInStep(proofs, indicesOf, acc.value)
    modifies acc, acc.swbfActive, proofs
    ensures ok ==> NoDoubleSpend(update.removals, old(acc.indices))
    ensures AllSynced(update.removals, old(acc.value)) ==> (ok <==> NoDoubleSpend(update.removals, old(acc.indices)))
    ensures SameIndices(records, updated)
    ensures ok || AllSynced(update.removals, old(acc.value)) ==>
              && acc.Valid()
              && acc.value.aocl == old(acc.value).aocl + update.additions
              && acc.indices == old(acc.indices) + IndicesOf(update.removals)
              && AllSynced(updated, acc.value)
              && AllInStep(proofs, indicesOf, acc.value)
  {
    hide Synced, Stores, NoDoubleSpend, SpendsSomething, IndicesOf, AllInStep, Distinct, Fits;
    ghost var n, inStep := |update.removals|, AllSynced(update.removals, acc.value);
    if inStep { ReversedSynced(update.removals, acc.value); }
    var remaining: seq<RemovalRecord> := Reverse(update.removals);
    remaining, updated := ApplyAdditions(update.additions, acc, remaining, records, proofs, indicesOf);
    ok := true;
    ghost var before := acc.indices;
    NothingApplied(update.removals, before);
    while remaining != []
      invariant acc.Valid() && acc.value.aocl == old(acc.value).aocl + update.additions
      invariant RemainsOf(remaining, update.removals)
      invariant acc.indices == before + IndicesOf(update.removals[..n - |remaining|])
      invariant inStep ==> AllSynced(remaining, acc.value)
      invariant SameIndices(records, updated) && AllSynced(updated, acc.value)
      invariant AllInStep(proofs, indicesOf, acc.value)
      invariant ok <==> NoDoubleSpend(update.removals[..n - |remaining|], before)
      decreases |remaining|
    {
      var applied := remaining[|remaining| - 1];
      remaining := remaining[..|remaining| - 1];
      OneMoreApplied(update.removals, before, n - |remaining| - 1);
      assert applied.absoluteIndices == update.removals[n - |remaining| - 1].absoluteIndices;
      var valid, canRemove;
      valid, canRemove, remaining, updated := ApplyRemoval(applied, acc, remaining, updated, proofs, indicesOf);
      if !valid { return false, updated; }
      if !canRemove { ok := false; }
    }
    assert update.removals[..n] == update.removals;
  }

  /** One round: update the remaining records, the other records and the proofs for the removal, then remove. */
  method ApplyRemoval(applied: RemovalRecord, acc: MutatorSetAccumulator, a: seq<RemovalRecord>, b: seq<RemovalRecord>,
                      proofs: seq<MsMembershipProof>, ghost indicesOf: seq<seq<nat>>)
    returns (valid: bool, canRemove: bool, a': seq<RemovalRecord>, b': seq<RemovalRecord>)
    requires acc.Valid() && Fits(applied.absoluteIndices) && AllSynced(b, acc.value)
    requires |proofs| == |indicesOf| && Distinct(proofs) && AllInStep(proofs, indicesOf, acc.value)
    modifies acc, acc.swbfActive, proofs
    ensures valid <==> Synced(applied, old(acc.value))
    ensures canRemove <==> valid && SpendsSomething(applied.absoluteIndices, old(acc.indices))
    ensures SameIndices(a, a') && SameIndices(b, b')
    ensures valid ==>
              && acc.Valid() && acc.value.aocl == old(acc.value).aocl && AllInStep(proofs, indicesOf, acc.value)
              && acc.indices == old(acc.indices) + multiset(applied.absoluteIndices)
              && (AllSynced(a, old(acc.value)) ==> AllSynced(a', acc.value)) && AllSynced(b', acc.value)
  {
    hide Synced, Stores, SpendsSomething, AllInStep, Distinct, Fits;
    var validity := acc.ValidateInner(applied);
    valid, canRemove, a', b' := validity.Valid?, false, a, b;
    if !valid { return; }
    ChunkCount(acc.value, acc.indices);
    a' := BatchUpdateFromRemove(a, applied, acc.value);
    b' := BatchUpdateFromRemove(b, applied, acc.value);
    BatchUpdateProofsFromRemove(proofs, applied, indicesOf, acc.value);
    var can, _ := acc.CanRemove(applied);
    canRemove := can;
    var _ := acc.Remove(applied);
    RemovalDeterminesChunks(old(acc.value), old(acc.indices), applied.absoluteIndices, acc.value);
    SyncedToTarget(a', acc.value);
    SyncedToTarget(b', acc.value);
    InStepToTarget(proofs, indicesOf, acc.value);
  }

  lemma ReversedSynced(records: seq<RemovalRecord>, ms: MutatorSet)
    requires AllSynced(records, ms)
    ensures AllSynced(Reverse(records), ms)
  {
  }

  /** Add commitments one by one, keeping two lists of records and a list of proofs in step. */
  method ApplyAdditions(additions: seq<Digest>, acc: MutatorSetAccumulator, a: seq<RemovalRecord>, b: seq<RemovalRecord>,
                        proofs: seq<MsMembershipProof>, indicesOf: seq<seq<nat>>)
    returns (a': seq<RemovalRecord>, b': seq<RemovalRecord>)
    requires acc.Valid() && AllSynced(b, acc.value)
    requires |proofs| == |indicesOf| && Distinct(proofs) && AllInStep(proofs, indicesOf, acc.value)
    modifies acc, acc.swbfActive, proofs
    ensures acc.Valid() && acc.indices == old(acc.indices) && acc.value.aocl == old(acc.value).aocl + additions
    ensures AllInStep(proofs, indicesOf, acc.value)
    ensures SameIndices(a, a') && (AllSynced(a, old(acc.value)) ==> AllSynced(a', acc.value))
    ensures SameIndices(b, b') && AllSynced(b', acc.value)
  {
    hide Synced, Stores, AllInStep, Distinct;
    a', b' := a, b;
    for k := 0 to |additions|
      invariant acc.Valid() && acc.indices == old(acc.indices) && acc.value.aocl == old(acc.value).aocl + additions[..k]
      invariant SameIndices(a, a') && (AllSynced(a, old(acc.value)) ==> AllSynced(a', acc.value))
      invariant SameIndices(b, b') && AllSynced(b', acc.value)
      invariant AllInStep(proofs, indicesOf, acc.value)
    {
      a' := BatchUpdateFromAddition(a', acc, additions[k]);
      b' := BatchUpdateFromAddition(b', acc, additions[k]);
      BatchUpdateProofsFromAddition(proofs, indicesOf, acc, additions[k]);
      acc.Add(additions[k]);
      SyncedToTarget(a', acc.value);
      SyncedToTarget(b', acc.value);
      InStepToTarget(proofs, indicesOf, acc.value);
      assert additions[..k + 1] == additions[..k] + [additions[k]];
    }
    assert additions[..|additions|] == additions;
  }

  lemma NothingApplied(records: seq<RemovalRecord>, before: multiset<nat>)
    ensures NoDoubleSpend(records[..0], before)
    ensures before + IndicesOf(records[..0]) == before
  {
  }

  lemma OneMoreApplied(records: seq<RemovalRecord>, before: multiset<nat>, j: nat)
    requires j < |records|
    ensures before + IndicesOf(records[..j + 1]) == before + IndicesOf(records[..j]) + multiset(records[j].absoluteIndices)
    ensures NoDoubleSpend(records[..j + 1], before) <==>
            NoDoubleSpend(records[..j], before) && SpendsSomething(records[j].absoluteIndices, before + IndicesOf(records[..j]))
  {
    assert records[..j + 1][..j] == records[..j];
  }

  // ---------- runs ----------

  /** A mutator set with the indices it stores. */
  datatype State = State(ms: MutatorSet, indices: multiset<nat>)

  datatype Step = Addition(commitment: Digest) | Removal(record: RemovalRecord)

  /** MutatorSetAccumulator::can_remove, as MutatorSetAccumulator.CanRemove decides it. */
  ghost predicate Removable(rr: RemovalRecord, s: State) {
    Synced(rr, s.ms) && SpendsSomething(rr.absoluteIndices, s.indices)
  }

  /** What Add and Remove do. */
  ghost predicate Takes(a: State, step: Step, b: State) {
    && Stores(b.ms, b.indices)
    && match step
       case Addition(commitment) => b.ms.aocl == a.ms.aocl + [commitment] && b.indices == a.indices
       case Removal(rr) =>
         && Removable(rr, a)
         && b.ms.aocl == a.ms.aocl && b.indices == a.indices + multiset(rr.absoluteIndices)
  }

  ghost predicate IsRun(states: seq<State>, steps: seq<Step>) {
    && |states| == |steps| + 1
    && forall k | 0 <= k < |steps| :: Takes(states[k], steps[k], states[k + 1])
  }

  lemma {:induction false} IndicesGrow(states: seq<State>, steps: seq<Step>, j: nat, k: nat)
    requires IsRun(states, steps) && j <= k < |states|
    ensures states[j].indices <= states[k].indices
    decreases k
  {
    if j < k {
      IndicesGrow(states, steps, j, k - 1);
      assert Takes(states[k - 1], steps[k - 1], states[k]);
    }
  }

  /** Once a record has been applied, no record with the same indices can ever be removed again,
      whatever chunks and paths it carries. */
  lemma SpentForever(states: seq<State>, steps: seq<Step>, j: nat, k: nat, rr: RemovalRecord)
    requires IsRun(states, steps) && j < k < |states|
    requires steps[j].Removal? && rr.absoluteIndices == steps[j].record.absoluteIndices
    ensures !Removable(rr, states[k])
  {
    assert Takes(states[j], steps[j], states[j + 1]);
    IndicesGrow(states, steps, j + 1, k);
    forall i | i in rr.absoluteIndices ensures states[k].indices[i] > 0 {
      CountIsMembership(rr.absoluteIndices, i);
    }
  }
}
