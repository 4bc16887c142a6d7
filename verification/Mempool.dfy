/** The mempool: transactions by identifier, and their fee densities in a double-ended priority queue. */
module Mempools {
  import opened Digests
  import opened Options
  import opened RemovalRecords

  datatype Transaction = Transaction(txid: nat, inputs: seq<seq<nat>>, outputs: seq<Digest>, mutatorSetHash: Digest,
                                     timestamp: nat, singleProof: bool, feeDensity: real, size: nat)

  type Dictionary = map<nat, Transaction>
  type Queue = map<nat, real>

  /** Two transactions spend an input with the same index set. */
  predicate Conflict(a: Transaction, b: Transaction) {
    exists s | s in a.inputs :: s in b.inputs
  }

  /** Conflicting transactions have an input in common, and no others conflict. */
  lemma ConflictIffShared(a: Transaction, b: Transaction)
    ensures Conflict(a, b) <==> SharedInputs(a, b) != {}
  {
    var shared := SharedInputs(a, b);
    if Conflict(a, b) {
      var s :| s in a.inputs && s in b.inputs;
      assert s in shared;
    } else {
      assert forall s :: s !in shared;
    }
  }

  ghost function SharedInputs(a: Transaction, b: Transaction): set<seq<nat>> {
    set s | s in a.inputs && s in b.inputs
  }

  /** Whoever conflicts with a transaction that a block includes is not spendable after the block. */
  lemma ConflictIsUnspendable(included: Transaction, other: Transaction, blockIndices: set<nat>)
    requires Conflict(included, other) && forall s, i | s in included.inputs && i in s :: i in blockIndices
    ensures !StillValid(other, blockIndices)
  {
    var s :| s in included.inputs && s in other.inputs;
  }

  /** Still valid means that each input spends something that is not yet set, as removal from the mutator set asks for. */
  lemma StillValidIsSpendable(tx: Transaction, blockIndices: set<nat>, stored: multiset<nat>)
    requires forall i: nat :: i in stored <==> i in blockIndices
    ensures StillValid(tx, blockIndices) <==> forall s | s in tx.inputs :: SpendsSomething(s, stored)
  {
    forall s: seq<nat> ensures SpendsSomething(s, stored) <==> exists i | i in s :: i !in blockIndices {
      assert forall i: nat :: stored[i] == 0 <==> i !in stored;
    }
  }

  ghost predicate NoConflicts(d: Dictionary) {
    forall i, j | i in d && j in d && i != j :: !Conflict(d[i], d[j])
  }

  /** Every input still has an index that the block has not set. */
  predicate StillValid(tx: Transaction, blockIndices: set<nat>) {
    forall s | s in tx.inputs :: exists i | i in s :: i !in blockIndices
  }

  ghost predicate AllStillValid(d: Dictionary, blockIndices: set<nat>) {
    forall id | id in d :: StillValid(d[id], blockIndices)
  }

  /** The transactions that a block has left spendable. */
  ghost function Spendable(d: Dictionary, blockIndices: set<nat>): Dictionary {
    map id | id in d && StillValid(d[id], blockIndices) :: d[id]
  }

  ghost predicate FromPoolOrCache(d: Dictionary, pool: Dictionary, cache: seq<Transaction>) {
    forall id | id in d :: (id in pool && d[id] == pool[id]) || d[id] in cache
  }

  /** Every transaction stays, unless a cached one that is still spendable has its identifier or conflicts with it. */
  ghost predicate KeptOrReplaced(pool: Dictionary, d: Dictionary, cache: seq<Transaction>, blockIndices: set<nat>) {
    forall id | id in pool :: (id in d && d[id] == pool[id]) || IsReplaced(pool[id], id, cache, blockIndices)
  }

  ghost predicate IsReplaced(gone: Transaction, id: nat, cache: seq<Transaction>, blockIndices: set<nat>) {
    exists tx | tx in cache && StillValid(tx, blockIndices) :: tx.txid == id || Conflict(gone, tx)
  }

  ghost predicate Submap(a: Dictionary, b: Dictionary) {
    forall id | id in a :: id in b && a[id] == b[id]
  }

  /** Nothing that was dropped paid more than something that stayed. */
  ghost predicate CheapestDropped(before: Dictionary, after: Dictionary) {
    forall gone, kept | gone in before && gone !in after && kept in after && kept in before ::
      before[gone].feeDensity <= before[kept].feeDensity
  }

  // ---------- the replacement policy ----------

  /** The identifiers of the transactions that conflict with the given one. */
  function ConflictsIn(d: Dictionary, tx: Transaction): set<nat> {
    set id | id in d && Conflict(d[id], tx)
  }

  /** Whether the new transaction's proof is of a higher quality than those it conflicts with. */
  predicate HasHigherProofQuality(d: Dictionary, newTx: Transaction, conflicts: set<nat>, tip: Digest)
    requires conflicts <= d.Keys
  {
    if newTx.singleProof then
      exists id | id in conflicts :: !d[id].singleProof || (id == newTx.txid && newTx.mutatorSetHash == tip)
    else
      forall id | id in conflicts :: !d[id].singleProof && d[id].mutatorSetHash != tip && newTx.mutatorSetHash == tip
  }

  /** Whether an insertion goes ahead: not for an exact copy, and over conflicts only with a better proof or
      a fee density above the lowest of theirs. */
  predicate AdmittedTo(d: Dictionary, newTx: Transaction, tip: Digest) {
    var conflicts := ConflictsIn(d, newTx);
    && !(newTx.txid in conflicts && d[newTx.txid] == newTx)
    && (conflicts == {} || HasHigherProofQuality(d, newTx, conflicts, tip) ||
        exists id | id in conflicts :: d[id].feeDensity < newTx.feeDensity)
  }

  /** The pool with the new transaction in place of everything it conflicts with. */
  function ReplacedIn(d: Dictionary, newTx: Transaction): Dictionary {
    (d - ConflictsIn(d, newTx))[newTx.txid := newTx]
  }

  /** What an insertion leads to if there is room. */
  function AfterInsert(d: Dictionary, newTx: Transaction, tip: Digest): Dictionary {
    if AdmittedTo(d, newTx, tip) then ReplacedIn(d, newTx) else d
  }

  /** What inserting one after the other leads to if there is room. */
  function InsertedInTurn(d: Dictionary, txs: seq<Transaction>, tip: Digest): Dictionary {
    if txs == [] then d else AfterInsert(InsertedInTurn(d, txs[..|txs| - 1], tip), txs[|txs| - 1], tip)
  }

  /** No other transaction in the pool or in the list conflicts with this one or has its identifier. */
  ghost predicate Undisputed(tx: Transaction, d: Dictionary, txs: seq<Transaction>) {
    && (forall id | id in d && d[id] != tx :: !Conflict(d[id], tx) && id != tx.txid)
    && (forall other | other in txs && other != tx :: !Conflict(other, tx) && other.txid != tx.txid)
  }

  /** An undisputed transaction is there afterwards, if it is in the list or was there before. */
  lemma {:induction false} UndisputedComesBack(d: Dictionary, txs: seq<Transaction>, tip: Digest, tx: Transaction)
    requires (forall id | id in d :: d[id].txid == id) && Undisputed(tx, d, txs) && (tx in txs || (tx.txid in d && d[tx.txid] == tx))
    ensures var r := InsertedInTurn(d, txs, tip); tx.txid in r && r[tx.txid] == tx
    decreases |txs|
  {
    hide Conflict;
    if txs != [] {
      var n := |txs| - 1;
      var init, last, before := txs[..n], txs[n], InsertedInTurn(d, txs[..n], tip);
      assert txs == init + [last];
      FromEither(d, init, tip);
      if last == tx {
        UndisputedAdmitted(before, tx, tip);
      } else {
        UndisputedComesBack(d, init, tip, tx);
        ConflictSymmetric(last, tx);
      }
    }
  }

  lemma {:induction false} FromEither(d: Dictionary, txs: seq<Transaction>, tip: Digest)
    requires forall id | id in d :: d[id].txid == id
    ensures var r := InsertedInTurn(d, txs, tip);
            forall id | id in r :: r[id].txid == id && ((id in d && r[id] == d[id]) || r[id] in txs)
    decreases |txs|
  {
    hide Conflict, AdmittedTo;
    if txs != [] {
      FromEither(d, txs[..|txs| - 1], tip);
      assert txs == txs[..|txs| - 1] + [txs[|txs| - 1]];
    }
  }

  lemma UndisputedAdmitted(d: Dictionary, tx: Transaction, tip: Digest)
    requires forall id | id in d && d[id] != tx :: !Conflict(d[id], tx) && id != tx.txid
    requires forall id | id in d :: d[id].txid == id
    ensures var r := AfterInsert(d, tx, tip); tx.txid in r && r[tx.txid] == tx
  {
    hide Conflict;
    forall id | id in ConflictsIn(d, tx) ensures id == tx.txid && d[id] == tx {
      assert d[id] == tx;
    }
  }

  /** A transaction that is lost: the merge pays more than the first input and less than the second. The first is not
      inserted because of the merge, the second then replaces the merge, and nothing in the pool conflicts with the first. */
  lemma RestoredInputLost()
    ensures var a := Transaction(1, [[1]], [], Default, 0, true, 1.0, 1);
            var b := Transaction(2, [[2]], [], Default, 0, true, 3.0, 1);
            var merge := Transaction(3, [[1], [2]], [], Default, 0, true, 2.0, 2);
            InsertedInTurn(map[3 := merge], [a, b], Default) == map[2 := b] && !Conflict(b, a)
  {
    var a := Transaction(1, [[1]], [], Default, 0, true, 1.0, 1);
    var b := Transaction(2, [[2]], [], Default, 0, true, 3.0, 1);
    var merge := Transaction(3, [[1], [2]], [], Default, 0, true, 2.0, 2);
    var d := map[3 := merge];
    assert [1] in merge.inputs && [1] in a.inputs && [2] in merge.inputs && [2] in b.inputs;
    assert ConflictsIn(d, a) == {3} && ConflictsIn(d, b) == {3};
    assert [a, b][..1] == [a] && [a][..0] == [];
    assert InsertedInTurn(d, [a], Default) == d;
    assert ReplacedIn(d, b) == map[2 := b];
    assert [1][0] != [2][0];
  }

  /** Inserting a transaction a second time changes nothing. */
  lemma InsertedTwice(d: Dictionary, tx: Transaction, tip: Digest)
    ensures AfterInsert(AfterInsert(d, tx, tip), tx, tip) == AfterInsert(d, tx, tip)
  {
    hide AdmittedTo;
    var once := AfterInsert(d, tx, tip);
    if AdmittedTo(d, tx, tip) {
      var twice := ReplacedIn(once, tx);
      forall id ensures id in twice <==> id in once {
        if id in once && id != tx.txid { assert !Conflict(once[id], tx); }
      }
      assert twice == once;
    }
  }

  /** Between two conflicting transactions with proofs of the same kind the higher fee density wins, and only a strictly
      higher one. */
  lemma HigherFeeWins(a: Transaction, b: Transaction, tip: Digest)
    requires Conflict(a, b) && a.txid != b.txid && a.singleProof == b.singleProof && (a.singleProof || a.mutatorSetHash == b.mutatorSetHash)
    ensures AfterInsert(map[a.txid := a], b, tip) == if a.feeDensity < b.feeDensity then map[b.txid := b] else map[a.txid := a]
  {
    var d := map[a.txid := a];
    assert ConflictsIn(d, b) == {a.txid};
  }

  /** A merge replaces both its inputs exactly if it pays more than the cheaper of them. */
  lemma MergeReplacesBoth(a: Transaction, b: Transaction, merge: Transaction, tip: Digest)
    requires a.txid != b.txid && merge.txid != a.txid && merge.txid != b.txid && a.singleProof && b.singleProof && merge.singleProof
    requires Conflict(a, merge) && Conflict(b, merge)
    ensures var d := map[a.txid := a, b.txid := b];
            AfterInsert(d, merge, tip) == if a.feeDensity < merge.feeDensity || b.feeDensity < merge.feeDensity then map[merge.txid := merge] else d
  {
    hide Conflict;
    var d := map[a.txid := a, b.txid := b];
    assert ConflictsIn(d, merge) == {a.txid, b.txid};
  }

  /** One conflict without a single proof is enough for a transaction with one to replace all of them, whatever they pay. */
  lemma UnprovedGivesWay(d: Dictionary, newTx: Transaction, id: nat, tip: Digest)
    requires newTx.singleProof && id in d && Conflict(d[id], newTx) && !d[id].singleProof && (newTx.txid in d ==> d[newTx.txid] != newTx)
    ensures AfterInsert(d, newTx, tip) == ReplacedIn(d, newTx) && (id != newTx.txid ==> id !in AfterInsert(d, newTx, tip))
  {
    assert id in ConflictsIn(d, newTx);
  }

  /** One conflict with a single proof is enough to keep out a transaction without one that pays no more than any of them. */
  lemma ProvedStays(d: Dictionary, newTx: Transaction, id: nat, tip: Digest)
    requires !newTx.singleProof && id in d && Conflict(d[id], newTx) && d[id].singleProof
    requires forall other | other in d && Conflict(d[other], newTx) :: newTx.feeDensity <= d[other].feeDensity
    ensures AfterInsert(d, newTx, tip) == d
  {
    assert id in ConflictsIn(d, newTx);
  }

  /** The update of a single-proof transaction to the current mutator set replaces the stale one, whatever the fee. */
  lemma UpdateReplacesStale(stale: Transaction, fresh': Transaction, tip: Digest)
    requires stale.txid == fresh'.txid && stale.inputs == fresh'.inputs != [] && fresh'.singleProof && fresh'.mutatorSetHash == tip && stale != fresh'
    ensures AfterInsert(map[stale.txid := stale], fresh', tip) == map[stale.txid := fresh']
  {
    var d := map[stale.txid := stale];
    assert stale.inputs[0] in stale.inputs && stale.inputs[0] in fresh'.inputs;
    assert ConflictsIn(d, fresh') == {stale.txid};
  }

  /** Two conflicting transactions replace each other, again and again, exactly if one has the higher fee density and the
      other the better proof. */
  lemma ReplaceEachOtherIff(a: Transaction, b: Transaction, tip: Digest)
    requires Conflict(a, b) && a.txid != b.txid
    ensures AdmittedTo(map[a.txid := a], b, tip) && AdmittedTo(map[b.txid := b], a, tip) <==>
            || (a.feeDensity < b.feeDensity && ProvedBetter(a, b, tip))
            || (b.feeDensity < a.feeDensity && ProvedBetter(b, a, tip))
  {
    var d, e := map[a.txid := a], map[b.txid := b];
    ConflictSymmetric(a, b);
    assert ConflictsIn(d, b) == {a.txid} && ConflictsIn(e, a) == {b.txid};
  }

  /** A single proof against none, or two without where only the first is up to date. */
  predicate ProvedBetter(better: Transaction, worse: Transaction, tip: Digest) {
    !worse.singleProof && (better.singleProof || (better.mutatorSetHash == tip && worse.mutatorSetHash != tip))
  }

  // ---------- the cache of merge inputs ----------

  /** A transaction already in the cache keeps its place. */
  function CacheWith(cache: seq<Transaction>, tx: Transaction): seq<Transaction> {
    if cache == [] then [tx]
    else if cache[0].txid == tx.txid then [tx] + cache[1..]
    else [cache[0]] + CacheWith(cache[1..], tx)
  }

  function CacheWithAll(cache: seq<Transaction>, txs: seq<Transaction>): seq<Transaction> {
    if txs == [] then cache else CacheWith(CacheWithAll(cache, txs[..|txs| - 1]), txs[|txs| - 1])
  }

  lemma {:induction false} CacheWithIs(cache: seq<Transaction>, tx: Transaction, k: nat)
    requires k <= |cache| && (forall j | 0 <= j < k :: cache[j].txid != tx.txid) && (k < |cache| ==> cache[k].txid == tx.txid)
    ensures CacheWith(cache, tx) == if k < |cache| then cache[k := tx] else cache + [tx]
    decreases |cache|
  {
    if k > 0 {
      CacheWithIs(cache[1..], tx, k - 1);
      assert cache == [cache[0]] + cache[1..];
    }
  }

  /** The transactions enter the cache one after the other, in some order. */
  ghost predicate CachedInSomeOrder(before: seq<Transaction>, txs: set<Transaction>, after: seq<Transaction>) {
    exists order: seq<Transaction> :: InSomeOrder(order, txs) && after == CacheWithAll(before, order)
  }

  ghost predicate InSomeOrder(order: seq<Transaction>, txs: set<Transaction>) {
    && (forall tx :: tx in order <==> tx in txs)
    && forall j, k | 0 <= j < k < |order| :: order[j] != order[k]
  }

  /** MergeInputCache::update_with_block: the elements that the block has left spendable, oldest first. */
  function StillSpendable(cache: seq<Transaction>, blockIndices: set<nat>): (r: seq<Transaction>)
    ensures forall tx :: tx in r <==> tx in cache && StillValid(tx, blockIndices)
  {
    if cache == [] then []
    else
      var n := |cache| - 1;
      assert cache == cache[..n] + [cache[n]];
      StillSpendable(cache[..n], blockIndices) + if StillValid(cache[n], blockIndices) then [cache[n]] else []
  }

  // ---------- pool and cache together ----------

  datatype PoolState = PoolState(txs: Dictionary, cache: seq<Transaction>)

  ghost predicate IsSuffix(s: seq<Transaction>, t: seq<Transaction>) {
    exists k :: IsSuffixFrom(s, t, k)
  }

  ghost predicate IsSuffixFrom(s: seq<Transaction>, t: seq<Transaction>, k: nat) {
    k <= |t| && s == t[k..]
  }

  ghost predicate IsCheapest(id: nat, d: Dictionary) {
    id in d && forall other | other in d :: d[id].feeDensity <= d[other].feeDensity
  }

  /** All keys of the queue, once each, by descending priority. */
  ghost predicate Descending(q: Queue, ids: seq<nat>) {
    && (forall id :: id in ids <==> id in q)
    && (forall j, k | 0 <= j < k < |ids| :: ids[j] != ids[k])
    && (forall j, k | 0 <= j < k < |ids| :: ids[j] in q && ids[k] in q && q[ids[j]] >= q[ids[k]])
  }

  // ---------- selections from the queue ----------

  predicate Ready(tx: Transaction, tipMutatorSetHash: Digest) {
    tx.singleProof && tx.mutatorSetHash == tipMutatorSetHash
  }

  /** The transactions that a composer could take, in the order of the queue. */
  function ReadyList(d: Dictionary, ids: seq<nat>, tip: Digest): (r: seq<Transaction>)
    requires forall id | id in ids :: id in d
  {
    if ids == [] then []
    else
      var n := |ids| - 1;
      ReadyList(d, ids[..n], tip) + if Ready(d[ids[n]], tip) then [d[ids[n]]] else []
  }

  lemma {:induction false} ReadyListHas(d: Dictionary, ids: seq<nat>, tip: Digest, tx: Transaction)
    requires forall id | id in ids :: id in d
    ensures tx in ReadyList(d, ids, tip) <==> tx.singleProof && tx.mutatorSetHash == tip && exists id | id in ids :: d[id] == tx
    decreases |ids|
  {
    if ids != [] {
      var n := |ids| - 1;
      ReadyListHas(d, ids[..n], tip, tx);
      assert ids == ids[..n] + [ids[n]];
    }
  }

  function TotalSize(txs: seq<Transaction>): nat {
    if txs == [] then 0 else TotalSize(txs[..|txs| - 1]) + txs[|txs| - 1].size
  }

  lemma SelectNothing(d: Dictionary, ids: seq<nat>, tip: Digest)
    requires forall id | id in ids :: id in d
    ensures ReadyList(d, ids[..0], tip) == [] && TotalSize([]) == 0
    ensures Selected([], d, ids[..0], tip) && forall remaining: int :: NothingMoreFits([], d, ids[..0], tip, remaining)
  {
  }

  lemma ReadyStep(d: Dictionary, ids: seq<nat>, tip: Digest, k: nat)
    requires (forall id | id in ids :: id in d) && k < |ids|
    ensures ReadyList(d, ids[..k + 1], tip) ==
            ReadyList(d, ids[..k], tip) + if Ready(d[ids[k]], tip) then [d[ids[k]]] else []
  {
    assert ids[..k + 1][..k] == ids[..k];
  }

  lemma {:induction false} ReadyPrefix(d: Dictionary, ids: seq<nat>, tip: Digest, k: nat)
    requires (forall id | id in ids :: id in d) && k <= |ids|
    ensures ReadyList(d, ids[..k], tip) <= ReadyList(d, ids, tip)
    ensures TotalSize(ReadyList(d, ids[..k], tip)) <= TotalSize(ReadyList(d, ids, tip))
    decreases |ids| - k
  {
    if k == |ids| {
      assert ids[..k] == ids;
    } else {
      ReadyStep(d, ids, tip, k);
      ReadyPrefix(d, ids, tip, k + 1);
      var before, after, all := ReadyList(d, ids[..k], tip), ReadyList(d, ids[..k + 1], tip), ReadyList(d, ids, tip);
      TotalSizeAppend(before, d[ids[k]]);
      assert before == after[..|before|] && after == all[..|after|];
      assert after == before || after == before + [d[ids[k]]];
    }
  }

  lemma TotalSizeAppend(txs: seq<Transaction>, tx: Transaction)
    ensures TotalSize(txs + [tx]) == TotalSize(txs) + tx.size
  {
    assert (txs + [tx])[..|txs|] == txs;
  }

  /** Ready transactions of the given identifiers, once each and in their order of fee density. */
  ghost predicate Selected(txs: seq<Transaction>, d: Dictionary, ids: seq<nat>, tip: Digest) {
    && (forall tx | tx in txs :: Ready(tx, tip) && tx.txid in ids && tx.txid in d && d[tx.txid] == tx)
    && (forall a, b | 0 <= a < b < |txs| :: txs[a].txid != txs[b].txid && txs[a].feeDensity >= txs[b].feeDensity)
  }

  /** No ready transaction that was passed over fits into what is left. */
  ghost predicate NothingMoreFits(txs: seq<Transaction>, d: Dictionary, ids: seq<nat>, tip: Digest, remaining: int) {
    forall id | id in ids && id in d && Ready(d[id], tip) && d[id] !in txs :: d[id].size > remaining
  }

  lemma PassStep(txs: seq<Transaction>, d: Dictionary, ids: seq<nat>, tip: Digest, k: nat, remaining: nat)
    requires k < |ids| && ids[k] in d && NothingMoreFits(txs, d, ids[..k], tip, remaining)
    ensures NothingMoreFits(txs + [d[ids[k]]], d, ids[..k + 1], tip, remaining - d[ids[k]].size)
    ensures !Ready(d[ids[k]], tip) || d[ids[k]].size > remaining ==> NothingMoreFits(txs, d, ids[..k + 1], tip, remaining)
  {
    assert ids[..k + 1] == ids[..k] + [ids[k]];
  }

  lemma SelectionIsSound(txs: seq<Transaction>, d: Dictionary, ids: seq<nat>, tip: Digest)
    requires Selected(txs, d, ids, tip) && NoConflicts(d)
    ensures forall tx | tx in txs :: Ready(tx, tip) && tx.txid in d && d[tx.txid] == tx
    ensures forall a, b | 0 <= a < b < |txs| :: !Conflict(txs[a], txs[b]) && txs[a].feeDensity >= txs[b].feeDensity
  {
    hide Conflict;
    forall a, b | 0 <= a < b < |txs| ensures !Conflict(txs[a], txs[b]) && txs[a].feeDensity >= txs[b].feeDensity {
      assert txs[a] in txs && txs[b] in txs;
    }
  }

  /** What the next identifier changes. */
  lemma SelectStep(txs: seq<Transaction>, d: Dictionary, ids: seq<nat>, tip: Digest, k: nat)
    requires k < |ids| && Selected(txs, d, ids[..k], tip)
    requires (forall id | id in ids :: id in d && d[id].txid == id)
    requires forall a, b | 0 <= a < b < |ids| :: ids[a] != ids[b] && d[ids[a]].feeDensity >= d[ids[b]].feeDensity
    ensures Selected(txs, d, ids[..k + 1], tip)
    ensures Ready(d[ids[k]], tip) ==> Selected(txs + [d[ids[k]]], d, ids[..k + 1], tip)
    ensures TotalSize(txs + [d[ids[k]]]) == TotalSize(txs) + d[ids[k]].size
    ensures ReadyList(d, ids[..k + 1], tip) == ReadyList(d, ids[..k], tip) + if Ready(d[ids[k]], tip) then [d[ids[k]]] else []
    ensures TotalSize(ReadyList(d, ids[..k + 1], tip)) <= TotalSize(ReadyList(d, ids, tip))
  {
    hide ReadyList, TotalSize;
    ReadyStep(d, ids, tip, k);
    ReadyPrefix(d, ids, tip, k + 1);
    TotalSizeAppend(txs, d[ids[k]]);
    var last := d[ids[k]];
    forall a | 0 <= a < |txs| ensures txs[a].txid != last.txid && txs[a].feeDensity >= last.feeDensity {
      assert txs[a] in txs;
      var j :| 0 <= j < k && ids[j] == txs[a].txid;
    }
    assert forall tx | tx in txs + [last] :: tx in txs || tx == last;
    assert forall id | id in ids[..k] :: id in ids[..k + 1];
  }

  class Mempool {
    const maxTotalSize: nat
    // memory use of the pool and of its cache
    const sizeOf: (Dictionary, seq<Transaction>) -> nat
    const cacheSizeOf: seq<Transaction> -> nat
    // the order in which the priority queue is iterated, which is its own choice among equals
    const sortedIter: Queue -> seq<nat>
    // TransactionKernel::have_merge_relationship(output, input)
    const mergedFrom: (Transaction, Transaction) -> bool

    var txDictionary: Dictionary
    var feeDensities: Queue
    var tipDigest: Digest
    var tipMutatorSetHash: Digest
    var mergeInputCache: seq<Transaction>

    ghost predicate Valid()
      reads this
    {
      && IndexesAgree()
      && NoConflicts(txDictionary)
      && (forall q :: Descending(q, sortedIter(q)))
      && (forall d :: 3 * cacheSizeOf([]) <= sizeOf(d, []))
    }

    /** An empty pool. */
    constructor (maxTotalSize: nat, sizeOf: (Dictionary, seq<Transaction>) -> nat, cacheSizeOf: seq<Transaction> -> nat,
                 sortedIter: Queue -> seq<nat>, mergedFrom: (Transaction, Transaction) -> bool,
                 tipDigest: Digest, tipMutatorSetHash: Digest)
      requires forall q :: Descending(q, sortedIter(q))
      requires forall d :: 3 * cacheSizeOf([]) <= sizeOf(d, [])
      ensures Valid() && txDictionary == map[] && mergeInputCache == []
      ensures this.tipDigest == tipDigest && this.tipMutatorSetHash == tipMutatorSetHash
    {
      this.maxTotalSize, this.sizeOf, this.cacheSizeOf := maxTotalSize, sizeOf, cacheSizeOf;
      this.sortedIter, this.mergedFrom := sortedIter, mergedFrom;
      this.tipDigest, this.tipMutatorSetHash := tipDigest, tipMutatorSetHash;
      txDictionary, feeDensities, mergeInputCache := map[], map[], [];
    }

    /** Whatever the pool holds, it is small enough. */
    ghost predicate Unlimited() {
      forall d, cache :: sizeOf(d, cache) <= maxTotalSize
    }

    /** Dictionary and queue have the same keys, and matching fee densities. */
    ghost predicate IndexesAgree()
      reads this
    {
      && feeDensities.Keys == txDictionary.Keys
      && forall id | id in txDictionary :: txDictionary[id].txid == id && feeDensities[id] == txDictionary[id].feeDensity
    }

    function FeeDensityIter(): (ids: seq<nat>)
      reads this
    {
      sortedIter(feeDensities)
    }

    function TransactionsInConflictWith(tx: Transaction): set<nat>
      reads this
    {
      ConflictsIn(txDictionary, tx)
    }

    ghost function State(): PoolState
      reads this
    {
      PoolState(txDictionary, mergeInputCache)
    }

    /** One step of shrinking a pool that is too large: the oldest element of a cache that makes up more than a third goes,
        otherwise a cheapest transaction. */
    ghost predicate ShrinkStep(a: PoolState, b: PoolState) {
      && sizeOf(a.txs, a.cache) > maxTotalSize
      && if cacheSizeOf(a.cache) * 3 > sizeOf(a.txs, a.cache)
         then a.cache != [] && b == PoolState(a.txs, a.cache[1..])
         else exists id :: IsCheapest(id, a.txs) && b == PoolState(a.txs - {id}, a.cache)
    }

    ghost predicate IsShrinkRun(run: seq<PoolState>) {
      run != [] && forall k | 0 <= k < |run| - 1 :: ShrinkStep(run[k], run[k + 1])
    }

    /** The pool is small enough, or there is no transaction left to drop. */
    ghost predicate IsShrunk(a: PoolState) {
      || sizeOf(a.txs, a.cache) <= maxTotalSize
      || (a.txs == map[] && cacheSizeOf(a.cache) * 3 <= sizeOf(a.txs, a.cache))
    }

    /** Step by step from one to the other, and no step further than needed. */
    ghost predicate ShrinksTo(a: PoolState, b: PoolState) {
      IsShrunk(b) && exists run :: IsShrinkRun(run) && run[0] == a && run[|run| - 1] == b
    }

    /** What inserting a transaction does. */
    ghost predicate InsertsTo(a: PoolState, newTx: Transaction, tip: Digest, b: PoolState) {
      if !AdmittedTo(a.txs, newTx, tip) then b == a
      else exists cache ::
        && CachedInSomeOrder(a.cache, MergeInputs(a.txs, newTx), cache)
        && ShrinksTo(PoolState(ReplacedIn(a.txs, newTx), cache), b)
    }

    /** What inserting transactions one after the other does. */
    ghost predicate InsertsAllTo(a: PoolState, txs: seq<Transaction>, tip: Digest, b: PoolState) {
      exists states :: IsInsertRun(states, txs, tip) && states[0] == a && states[|txs|] == b
    }

    ghost predicate IsInsertRun(states: seq<PoolState>, txs: seq<Transaction>, tip: Digest) {
      |states| == |txs| + 1 && forall k | 0 <= k < |txs| :: InsertsTo(states[k], txs[k], tip, states[k + 1])
    }

    /** The single-proof backed inputs of a merge that it replaces. */
    function MergeInputs(d: Dictionary, newTx: Transaction): set<Transaction> {
      set id | id in ConflictsIn(d, newTx) && IsMergeInput(d[id], newTx) :: d[id]
    }

    method Remove(id: nat) returns (found: bool)
      requires Valid()
      modifies this`txDictionary, this`feeDensities
      ensures Valid() && found == (id in old(txDictionary))
      ensures txDictionary == old(txDictionary) - {id}
    {
      found := id in txDictionary;
      if found {
        txDictionary := txDictionary - {id};
        feeDensities := feeDensities - {id};
      }
    }

    /** Remove a set of transactions, one by one. */
    method RemoveAll(victims: set<nat>)
      requires Valid()
      modifies this`txDictionary, this`feeDensities
      ensures Valid() && txDictionary == old(txDictionary) - victims
    {
      hide NoConflicts, Descending;
      var todo := victims;
      while todo != {}
        invariant Valid() && todo <= victims && txDictionary == old(txDictionary) - (victims - todo)
      {
        var id :| id in todo;
        var _ := Remove(id);
        todo := todo - {id};
      }
    }

    /** Remove the transaction with the lowest fee density. */
    method PopMin() returns (popped: Option<nat>)
      requires Valid()
      modifies this`txDictionary, this`feeDensities
      ensures Valid()
      ensures popped.None? <==> old(txDictionary) == map[]
      ensures popped.None? ==> txDictionary == old(txDictionary)
      ensures popped.Some? ==>
                IsCheapest(popped.value, old(txDictionary)) && txDictionary == old(txDictionary) - {popped.value}
    {
      var ids := FeeDensityIter();
      assert Descending(feeDensities, ids);
      if ids == [] {
        assert forall id :: id !in txDictionary;
        return None;
      }
      var id := ids[|ids| - 1];
      assert id in ids;
      forall j | j in txDictionary ensures txDictionary[id].feeDensity <= txDictionary[j].feeDensity {
        assert j in ids;
        var k :| 0 <= k < |ids| && ids[k] == j;
        assert k == |ids| - 1 || feeDensities[ids[k]] >= feeDensities[ids[|ids| - 1]];
      }
      txDictionary := txDictionary - {id};
      feeDensities := feeDensities - {id};
      popped := Some(id);
    }

    /** Drop cache elements or the cheapest transactions until the pool is small enough. */
    method ShrinkToMaxSize()
      requires Valid()
      modifies this`txDictionary, this`feeDensities, this`mergeInputCache
      ensures Valid() && ShrinksTo(old(State()), State()) && StoppedInTime(old(State()), State())
      ensures sizeOf(txDictionary, mergeInputCache) <= maxTotalSize || txDictionary == map[]
      ensures Submap(txDictionary, old(txDictionary)) && CheapestDropped(old(txDictionary), txDictionary)
      ensures old(sizeOf(txDictionary, mergeInputCache)) <= maxTotalSize ==>
                txDictionary == old(txDictionary) && mergeInputCache == old(mergeInputCache)
    {
      hide NoConflicts, Descending, ShrinkStep, Submap, CheapestDropped, StoppedInTime;
      ghost var run := [State()];
      while sizeOf(txDictionary, mergeInputCache) > maxTotalSize
        invariant Valid() && IsShrinkRun(run) && run[0] == old(State()) && run[|run| - 1] == State()
        invariant old(sizeOf(txDictionary, mergeInputCache)) <= maxTotalSize ==>
                    txDictionary == old(txDictionary) && mergeInputCache == old(mergeInputCache)
        decreases |txDictionary| + |mergeInputCache|
      {
        ghost var before := State();
        if cacheSizeOf(mergeInputCache) * 3 > sizeOf(txDictionary, mergeInputCache) {
          mergeInputCache := mergeInputCache[1..];
          CacheStep(before);
        } else {
          var popped := PopMin();
          if popped.None? {
            RunLaws(run, |run| - 1);
            return;
          }
          Smaller(before.txs, txDictionary, popped.value);
          PopStep(before, popped.value);
        }
        run := run + [State()];
      }
      RunLaws(run, |run| - 1);
    }

    /** The cache is the old one without some of its oldest elements. If anything is gone, the last thing to go had to:
        with a best paying one of the dropped transactions back, or with one more element of the cache, the pool is too large. */
    ghost predicate StoppedInTime(a: PoolState, b: PoolState) {
      && IsSuffix(b.cache, a.cache)
      && (b == a || LastTransactionHadToGo(a, b) || LastElementHadToGo(a, b))
    }

    ghost predicate LastTransactionHadToGo(a: PoolState, b: PoolState) {
      exists id | id in a.txs && id !in b.txs ::
        && (forall gone | gone in a.txs && gone !in b.txs :: a.txs[gone].feeDensity <= a.txs[id].feeDensity)
        && sizeOf(b.txs[id := a.txs[id]], b.cache) > maxTotalSize
    }

    ghost predicate LastElementHadToGo(a: PoolState, b: PoolState) {
      exists k :: ElementHadToGoAt(a, b, k)
    }

    ghost predicate ElementHadToGoAt(a: PoolState, b: PoolState, k: nat) {
      0 < k <= |a.cache| && b.cache == a.cache[k..] && sizeOf(b.txs, a.cache[k - 1..]) > maxTotalSize
    }

    /** What all runs of shrinking have in common. */
    lemma {:induction false} RunLaws(run: seq<PoolState>, k: nat)
      requires IsShrinkRun(run) && k < |run|
      ensures Submap(run[k].txs, run[0].txs) && CheapestDropped(run[0].txs, run[k].txs) && StoppedInTime(run[0], run[k])
    {
      hide ShrinkStep;
      if k == 0 {
        assert IsSuffixFrom(run[0].cache, run[0].cache, 0);
      } else {
        RunLaws(run, k - 1);
        assert ShrinkStep(run[k - 1], run[k]);
        StepLaws(run[0], run[k - 1], run[k]);
      }
    }

    lemma StepLaws(a: PoolState, b: PoolState, c: PoolState)
      requires Submap(b.txs, a.txs) && CheapestDropped(a.txs, b.txs) && IsSuffix(b.cache, a.cache) && ShrinkStep(b, c)
      ensures Submap(c.txs, a.txs) && CheapestDropped(a.txs, c.txs) && StoppedInTime(a, c)
    {
      hide Submap, CheapestDropped, IsSuffix, LastElementHadToGo, LastTransactionHadToGo, IsCheapest;
      if cacheSizeOf(b.cache) * 3 > sizeOf(b.txs, b.cache) {
        ElementGoes(a, b);
      } else {
        var id :| IsCheapest(id, b.txs) && c == PoolState(b.txs - {id}, b.cache);
        TransactionGoes(a, b, id);
      }
    }

    lemma ElementGoes(a: PoolState, b: PoolState)
      requires IsSuffix(b.cache, a.cache) && b.cache != [] && sizeOf(b.txs, b.cache) > maxTotalSize
      ensures IsSuffix(b.cache[1..], a.cache) && LastElementHadToGo(a, PoolState(b.txs, b.cache[1..]))
    {
      var k: nat :| IsSuffixFrom(b.cache, a.cache, k);
      assert IsSuffixFrom(b.cache[1..], a.cache, k + 1);
      assert ElementHadToGoAt(a, PoolState(b.txs, b.cache[1..]), k + 1);
    }

    lemma TransactionGoes(a: PoolState, b: PoolState, id: nat)
      requires Submap(b.txs, a.txs) && CheapestDropped(a.txs, b.txs) && IsCheapest(id, b.txs) && sizeOf(b.txs, b.cache) > maxTotalSize
      ensures var c := PoolState(b.txs - {id}, b.cache);
              Submap(c.txs, a.txs) && CheapestDropped(a.txs, c.txs) && LastTransactionHadToGo(a, c)
    {
      var c := PoolState(b.txs - {id}, b.cache);
      assert c.txs[id := a.txs[id]] == b.txs;
      assert id in a.txs && id !in c.txs;
    }

    lemma CacheStep(a: PoolState)
      requires sizeOf(a.txs, a.cache) > maxTotalSize && cacheSizeOf(a.cache) * 3 > sizeOf(a.txs, a.cache) && a.cache != []
      ensures ShrinkStep(a, PoolState(a.txs, a.cache[1..]))
    {
    }

    lemma PopStep(a: PoolState, id: nat)
      requires sizeOf(a.txs, a.cache) > maxTotalSize && cacheSizeOf(a.cache) * 3 <= sizeOf(a.txs, a.cache) && IsCheapest(id, a.txs)
      ensures ShrinkStep(a, PoolState(a.txs - {id}, a.cache))
    {
    }

    predicate Admits(newTx: Transaction)
      reads this
    {
      AdmittedTo(txDictionary, newTx, tipMutatorSetHash)
    }

    function Replaced(newTx: Transaction): Dictionary
      reads this
    {
      ReplacedIn(txDictionary, newTx)
    }

    method Insert(newTx: Transaction)
      requires Valid()
      modifies this`txDictionary, this`feeDensities, this`mergeInputCache
      ensures Valid() && InsertsTo(old(State()), newTx, tipMutatorSetHash, State())
      ensures !old(Admits(newTx)) ==> txDictionary == old(txDictionary)
      ensures old(Admits(newTx)) ==>
                Submap(txDictionary, old(Replaced(newTx))) && CheapestDropped(old(Replaced(newTx)), txDictionary)
      ensures old(Admits(newTx)) ==> sizeOf(txDictionary, mergeInputCache) <= maxTotalSize || txDictionary == map[]
      ensures old(Admits(newTx)) && old(TransactionsInConflictWith(newTx)) == {} && sizeOf(old(Replaced(newTx)), old(mergeInputCache)) <= maxTotalSize ==>
                txDictionary == old(Replaced(newTx)) && mergeInputCache == old(mergeInputCache)
      ensures old(Admits(newTx)) && Unlimited() ==> txDictionary == old(Replaced(newTx))
    {
      hide Descending, NoConflicts, AdmittedTo, ReplacedIn, ShrinksTo, CachedInSomeOrder, StoppedInTime, MergeInputs;
      if !Admits(newTx) { return; }
      ReplaceConflicts(newTx);
      ShrinkToMaxSize();
    }

    /** Put the transaction in place of those it conflicts with, and of one with the same identifier. */
    method ReplaceConflicts(newTx: Transaction)
      requires Valid()
      modifies this`txDictionary, this`feeDensities, this`mergeInputCache
      ensures Valid() && txDictionary == old(Replaced(newTx))
      ensures CachedInSomeOrder(old(mergeInputCache), MergeInputs(old(txDictionary), newTx), mergeInputCache)
      ensures old(TransactionsInConflictWith(newTx)) == {} ==> mergeInputCache == old(mergeInputCache)
    {
      hide Descending, NoConflicts, Conflict, IsMergeInput, CachedInSomeOrder, MergeInputs;
      var conflicts := TransactionsInConflictWith(newTx);
      var was := txDictionary;
      RemoveAll(conflicts);
      CacheMergeInputs(newTx, was, conflicts);
      feeDensities := feeDensities[newTx.txid := newTx.feeDensity];
      txDictionary := txDictionary[newTx.txid := newTx];
      ConflictFree(was, newTx, txDictionary);
    }

    predicate IsMergeInput(tx: Transaction, merged: Transaction) {
      tx.singleProof && merged.singleProof && mergedFrom(merged, tx)
    }

    /** Keep single-proof backed inputs of a merge in the cache. */
    method CacheMergeInputs(newTx: Transaction, was: Dictionary, conflicts: set<nat>)
      requires conflicts == ConflictsIn(was, newTx) && forall id | id in was :: was[id].txid == id
      modifies this`mergeInputCache
      ensures CachedInSomeOrder(old(mergeInputCache), MergeInputs(was, newTx), mergeInputCache)
      ensures conflicts == {} ==> mergeInputCache == old(mergeInputCache)
    {
      hide Conflict, IsMergeInput, CacheWith;
      var todo := conflicts;
      ghost var order: seq<Transaction> := [];
      while todo != {}
        invariant todo <= conflicts && mergeInputCache == CacheWithAll(old(mergeInputCache), order)
        invariant forall tx :: tx in order <==> exists id | id in conflicts - todo && IsMergeInput(was[id], newTx) :: was[id] == tx
        invariant forall j, k | 0 <= j < k < |order| :: order[j] != order[k]
      {
        var id :| id in todo;
        if IsMergeInput(was[id], newTx) {
          CacheInsert(was[id]);
          assert (order + [was[id]])[..|order|] == order;
          OrderGrows(order, was, conflicts, todo, id, newTx);
          order := order + [was[id]];
        }
        todo := todo - {id};
      }
      assert InSomeOrder(order, MergeInputs(was, newTx));
      assert order != [] ==> order[0] in order;
    }

    lemma OrderGrows(order: seq<Transaction>, was: Dictionary, conflicts: set<nat>, todo: set<nat>, id: nat, newTx: Transaction)
      requires conflicts <= was.Keys && todo <= conflicts && id in todo && IsMergeInput(was[id], newTx) && forall id | id in was :: was[id].txid == id
      requires forall tx :: tx in order <==> exists id | id in conflicts - todo && IsMergeInput(was[id], newTx) :: was[id] == tx
      ensures was[id] !in order
      ensures forall tx :: tx in order + [was[id]] <==> exists i | i in conflicts - (todo - {id}) && IsMergeInput(was[i], newTx) :: was[i] == tx
    {
      hide IsMergeInput;
      var more := order + [was[id]];
      forall tx ensures tx in more <==> exists i | i in conflicts - (todo - {id}) && IsMergeInput(was[i], newTx) :: was[i] == tx {
        if tx in order {
          var i :| i in conflicts - todo && IsMergeInput(was[i], newTx) && was[i] == tx;
          assert i in conflicts - (todo - {id});
        }
        assert id in conflicts - (todo - {id});
      }
    }

    method CacheInsert(tx: Transaction)
      modifies this`mergeInputCache
      ensures mergeInputCache == CacheWith(old(mergeInputCache), tx)
    {
      for k := 0 to |mergeInputCache|
        invariant mergeInputCache == old(mergeInputCache) && forall j | 0 <= j < k :: mergeInputCache[j].txid != tx.txid
      {
        if mergeInputCache[k].txid == tx.txid {
          CacheWithIs(mergeInputCache, tx, k);
          mergeInputCache := mergeInputCache[k := tx];
          return;
        }
      }
      CacheWithIs(mergeInputCache, tx, |mergeInputCache|);
      mergeInputCache := mergeInputCache + [tx];
    }

    /** Remove all transactions that do not satisfy a predicate. */
    method Retain(keep: Transaction -> bool)
      requires Valid()
      modifies this`txDictionary, this`feeDensities
      ensures Valid()
      ensures txDictionary == map id | id in old(txDictionary) && keep(old(txDictionary)[id]) :: old(txDictionary)[id]
    {
      hide Descending, NoConflicts;
      var victims := set id | id in feeDensities && !keep(txDictionary[id]);
      RemoveAll(victims);
    }

    method Clear()
      requires Valid()
      modifies this`txDictionary, this`feeDensities, this`mergeInputCache
      ensures Valid() && txDictionary == map[] && mergeInputCache == []
    {
      mergeInputCache := [];
      Retain(_ => false);
    }

    method PruneStaleTransactions(cutoff: nat)
      requires Valid()
      modifies this`txDictionary, this`feeDensities
      ensures Valid() && Submap(txDictionary, old(txDictionary))
      ensures forall id | id in old(txDictionary) :: id in txDictionary <==> cutoff < old(txDictionary)[id].timestamp
    {
      Retain((tx: Transaction) => cutoff < tx.timestamp);
    }

    /** Follow a new block: after a reorganisation forget everything, otherwise drop what the block has
        made unspendable, and bring merge inputs back that it has left spendable. */
    method UpdateWithBlock(prevBlockDigest: Digest, blockIndices: set<nat>, hash: Digest, mutatorSetHash: Option<Digest>) returns (ok: bool)
      requires Valid()
      modifies this
      ensures Valid() && AllStillValid(txDictionary, blockIndices) && tipDigest == hash
      ensures ok <==> mutatorSetHash.Some?
      ensures ok ==> tipMutatorSetHash == mutatorSetHash.value
      ensures old(tipDigest) != prevBlockDigest || (old(txDictionary) == map[] && old(mergeInputCache) == []) ==>
                txDictionary == map[] && mergeInputCache == []
      ensures FromPoolOrCache(txDictionary, old(txDictionary), old(mergeInputCache))
      ensures old(tipDigest) == prevBlockDigest && old(mergeInputCache) == [] ==>
                CheapestDropped(Spendable(old(txDictionary), blockIndices), txDictionary)
      ensures old(tipDigest) == prevBlockDigest && old(mergeInputCache) == [] && sizeOf(Spendable(old(txDictionary), blockIndices), []) <= maxTotalSize ==>
                txDictionary == Spendable(old(txDictionary), blockIndices)
      ensures old(tipDigest) == prevBlockDigest && Unlimited() ==>
                KeptOrReplaced(Spendable(old(txDictionary), blockIndices), txDictionary, old(mergeInputCache), blockIndices)
      ensures old(tipDigest) == prevBlockDigest && Unlimited() ==>
                txDictionary == InsertedInTurn(
                  Spendable(old(txDictionary), blockIndices), StillSpendable(old(mergeInputCache), blockIndices), old(tipMutatorSetHash))
      ensures old(tipDigest) == prevBlockDigest ==> FollowsBlock(old(State()), blockIndices, old(tipMutatorSetHash), State())
    {
      hide Descending, NoConflicts, StillValid, CheapestDropped, Unlimited, FollowsBlock, InsertedInTurn, StillSpendable;
      if txDictionary == map[] {
        NothingToDrop(txDictionary, blockIndices);
        if mergeInputCache == [] { NothingToFollow(blockIndices, tipMutatorSetHash); }
      }
      if !(txDictionary == map[] && mergeInputCache == []) {
        DropSpent(tipDigest != prevBlockDigest, blockIndices);
      }
      ok := SetSyncLabels(hash, mutatorSetHash);
    }

    /** The part of following a block that changes the pool. */
    method DropSpent(reorganized: bool, blockIndices: set<nat>)
      requires Valid()
      modifies this`txDictionary, this`feeDensities, this`mergeInputCache
      ensures Valid() && AllStillValid(txDictionary, blockIndices)
      ensures reorganized ==> txDictionary == map[] && mergeInputCache == []
      ensures FromPoolOrCache(txDictionary, old(txDictionary), old(mergeInputCache))
      ensures !reorganized && old(mergeInputCache) == [] ==> CheapestDropped(Spendable(old(txDictionary), blockIndices), txDictionary)
      ensures !reorganized && old(mergeInputCache) == [] && sizeOf(Spendable(old(txDictionary), blockIndices), []) <= maxTotalSize ==>
                txDictionary == Spendable(old(txDictionary), blockIndices)
      ensures !reorganized && Unlimited() ==>
                KeptOrReplaced(Spendable(old(txDictionary), blockIndices), txDictionary, old(mergeInputCache), blockIndices)
      ensures !reorganized && Unlimited() ==>
                txDictionary == InsertedInTurn(
                  Spendable(old(txDictionary), blockIndices), StillSpendable(old(mergeInputCache), blockIndices), tipMutatorSetHash)
      ensures !reorganized ==> FollowsBlock(old(State()), blockIndices, tipMutatorSetHash, State())
    {
      hide Descending, NoConflicts, StillValid, Submap, CheapestDropped, IsReplaced, InsertsAllTo, ShrinksTo, StoppedInTime, InsertedInTurn, StillSpendable;
      ghost var pool, cache := txDictionary, mergeInputCache;
      if reorganized { Clear(); }
      Retain((tx: Transaction) => StillValid(tx, blockIndices));
      ghost var kept := txDictionary;
      assert !reorganized ==> kept == Spendable(pool, blockIndices);
      assert reorganized ==> kept == map[];
      var restored := RestorableFromCache(mergeInputCache, blockIndices);
      NothingSpendable(blockIndices);
      mergeInputCache := [];
      InsertAll(restored, blockIndices, pool, cache);
      ghost var inserted := State();
      ShrinkToMaxSize();
      SubmapKeeps(txDictionary, inserted.txs, blockIndices, pool, cache);
      NothingCached(inserted, State());
    }

    /** What a block that extends the tip does to the pool: spent transactions go, those from the cache are inserted one
        after the other, and the pool is shrunk. */
    ghost predicate FollowsBlock(a: PoolState, blockIndices: set<nat>, tip: Digest, b: PoolState) {
      exists mid ::
        && InsertsAllTo(PoolState(Spendable(a.txs, blockIndices), []), StillSpendable(a.cache, blockIndices), tip, mid)
        && ShrinksTo(mid, b)
    }

    lemma NothingCached(a: PoolState, b: PoolState)
      requires StoppedInTime(a, b)
      ensures a.cache == [] ==> b.cache == []
    {
    }

    lemma NothingToFollow(blockIndices: set<nat>, tip: Digest)
      requires 3 * cacheSizeOf([]) <= sizeOf(map[], [])
      ensures FollowsBlock(PoolState(map[], []), blockIndices, tip, PoolState(map[], []))
      ensures InsertedInTurn(Spendable(map[], blockIndices), StillSpendable([], blockIndices), tip) == map[]
    {
      var nothing := PoolState(map[], []);
      assert IsInsertRun([nothing], [], tip) && IsShrinkRun([nothing]);
      assert InsertsAllTo(nothing, [], tip, nothing) && ShrinksTo(nothing, nothing);
      assert Spendable(map[], blockIndices) == map[];
    }

    /** Take ready transactions in the order of the queue, as long as both limits allow. */
    method GetTransactionsForBlockComposition(storage: nat, maxNumTxs: Option<nat>) returns (txs: seq<Transaction>)
      requires Valid()
      ensures forall tx | tx in txs ::
                tx.singleProof && tx.mutatorSetHash == tipMutatorSetHash && tx.txid in txDictionary && txDictionary[tx.txid] == tx
      ensures forall j, k | 0 <= j < k < |txs| :: !Conflict(txs[j], txs[k]) && txs[j].feeDensity >= txs[k].feeDensity
      ensures TotalSize(txs) <= storage && (maxNumTxs.Some? ==> |txs| <= maxNumTxs.value)
      ensures maxNumTxs.None? && TotalSize(AllReady()) < storage ==> txs == AllReady()
      ensures (maxNumTxs.Some? && |txs| == maxNumTxs.value) || TotalSize(txs) == storage ||
              NothingMoreFits(txs, txDictionary, FeeDensityIter(), tipMutatorSetHash, storage - TotalSize(txs))
    {
      hide Conflict, ReadyList, TotalSize, Selected, NothingMoreFits, NoConflicts;
      var ids := FeeDensityIter();
      assert Descending(feeDensities, ids);
      SelectNothing(txDictionary, ids, tipMutatorSetHash);
      var remaining: nat := storage;
      txs := [];
      var k := 0;
      while k < |ids| && remaining != 0 && !(maxNumTxs.Some? && |txs| == maxNumTxs.value)
        invariant 0 <= k <= |ids|
        invariant remaining + TotalSize(txs) == storage && (maxNumTxs.Some? ==> |txs| <= maxNumTxs.value)
        invariant Selected(txs, txDictionary, ids[..k], tipMutatorSetHash)
        invariant NothingMoreFits(txs, txDictionary, ids[..k], tipMutatorSetHash, remaining)
        invariant maxNumTxs.None? && TotalSize(AllReady()) < storage ==> txs == ReadyList(txDictionary, ids[..k], tipMutatorSetHash)
      {
        var tx := txDictionary[ids[k]];
        assert ids[k] in ids;
        SelectStep(txs, txDictionary, ids, tipMutatorSetHash, k);
        PassStep(txs, txDictionary, ids, tipMutatorSetHash, k, remaining);
        if Ready(tx, tipMutatorSetHash) && tx.size <= remaining {
          remaining := remaining - tx.size;
          txs := txs + [tx];
        }
        k := k + 1;
      }
      ReadyPrefix(txDictionary, ids, tipMutatorSetHash, k);
      assert ids[..|ids|] == ids;
      assert AllReady() == ReadyList(txDictionary, ids, tipMutatorSetHash);
      SelectionIsSound(txs, txDictionary, ids[..k], tipMutatorSetHash);
    }

    /** What composition returns without limits. */
    ghost function AllReady(): seq<Transaction>
      reads this
      requires Valid()
    {
      assert Descending(feeDensities, FeeDensityIter());
      ReadyList(txDictionary, FeeDensityIter(), tipMutatorSetHash)
    }

    /** All matching transactions, each with its position in the queue if it is ready. */
    method WithMatchingPuts(matches: Transaction -> bool) returns (found: seq<(Transaction, Option<nat>)>)
      requires Valid()
      ensures forall k | 0 <= k < |found| ::
                var (tx, position) := found[k];
                && tx.txid in txDictionary && txDictionary[tx.txid] == tx && matches(tx)
                && (position.Some? <==> tx.singleProof && tx.mutatorSetHash == tipMutatorSetHash)
                && (position.Some? ==> position.value < |AllReady()| && AllReady()[position.value] == tx)
      ensures NoneTwice(found)
      ensures forall id | id in txDictionary && matches(txDictionary[id]) :: IsAmong(txDictionary[id], found)
    {
      hide Conflict, NoConflicts, ReadyList, NoneTwice, AllAmong, IsAmong, Ready, ConflictsIn;
      NoneFound();
      ReadyIff(tipMutatorSetHash);
      var ids := FeeDensityIter();
      assert Descending(feeDensities, ids);
      found := [];
      var queueCount := 0;
      SelectNothing(txDictionary, ids, tipMutatorSetHash);
      for k := 0 to |ids|
        invariant queueCount == |ReadyList(txDictionary, ids[..k], tipMutatorSetHash)|
        invariant forall j | 0 <= j < |found| :: Reported(found[j], matches)
        invariant NoneTwice(found) && AllAmong(found, ids[..k])
        invariant forall j | 0 <= j < k && matches(txDictionary[ids[j]]) :: IsAmong(txDictionary[ids[j]], found)
      {
        var tx := txDictionary[ids[k]];
        assert ids[k] in ids;
        ReadyPrefix(txDictionary, ids, tipMutatorSetHash, k);
        ReadyPrefix(txDictionary, ids, tipMutatorSetHash, k + 1);
        ReadyStep(txDictionary, ids, tipMutatorSetHash, k);
        OneMoreFound(found, ids, k, tx, if Ready(tx, tipMutatorSetHash) then Some(queueCount) else None);
        if matches(tx) {
          found := found + [(tx, if Ready(tx, tipMutatorSetHash) then Some(queueCount) else None)];
        }
        if Ready(tx, tipMutatorSetHash) { queueCount := queueCount + 1; }
      }
    }

    ghost predicate Reported(entry: (Transaction, Option<nat>), matches: Transaction -> bool)
      reads this
      requires Valid()
    {
      var (tx, position) := entry;
      && tx.txid in txDictionary && txDictionary[tx.txid] == tx && matches(tx)
      && (position.Some? <==> Ready(tx, tipMutatorSetHash))
      && (position.Some? ==> position.value < |AllReady()| && AllReady()[position.value] == tx)
    }

    /** Insert what the cache has given back. */
    method InsertAll(restored: seq<Transaction>, ghost blockIndices: set<nat>, ghost pool: Dictionary, ghost cache: seq<Transaction>)
      requires Valid() && AllStillValid(txDictionary, blockIndices) && FromPoolOrCache(txDictionary, pool, cache)
      requires forall tx | tx in restored :: tx in cache && StillValid(tx, blockIndices)
      modifies this`txDictionary, this`feeDensities, this`mergeInputCache
      ensures Valid() && AllStillValid(txDictionary, blockIndices) && FromPoolOrCache(txDictionary, pool, cache)
      ensures InsertsAllTo(old(State()), restored, tipMutatorSetHash, State())
      ensures restored == [] ==> txDictionary == old(txDictionary) && mergeInputCache == old(mergeInputCache)
      ensures Unlimited() ==> KeptOrReplaced(old(txDictionary), txDictionary, cache, blockIndices)
      ensures Unlimited() ==> txDictionary == InsertedInTurn(old(txDictionary), restored, tipMutatorSetHash)
    {
      hide Descending, NoConflicts, StillValid, Conflict, Unlimited, AdmittedTo, InsertsTo, ShrinksTo;
      ghost var states := [State()];
      assert restored[..0] == [];
      for k := 0 to |restored|
        invariant IsInsertRun(states, restored[..k], tipMutatorSetHash) && states[0] == old(State()) && states[k] == State()
        invariant Unlimited() ==> txDictionary == InsertedInTurn(old(txDictionary), restored[..k], tipMutatorSetHash)
        invariant k == 0 ==> txDictionary == old(txDictionary) && mergeInputCache == old(mergeInputCache)
        invariant Valid() && AllStillValid(txDictionary, blockIndices) && FromPoolOrCache(txDictionary, pool, cache)
        invariant Unlimited() ==> KeptOrReplaced(old(txDictionary), txDictionary, cache, blockIndices)
      {
        assert restored[k] in restored;
        assert AllStillValid(Replaced(restored[k]), blockIndices);
        assert FromPoolOrCache(Replaced(restored[k]), pool, cache);
        assert Unlimited() ==> KeptOrReplaced(old(txDictionary), Replaced(restored[k]), cache, blockIndices);
        assert restored[..k + 1] == restored[..k] + [restored[k]] && restored[..k + 1][..k] == restored[..k];
        ghost var before := states;
        Insert(restored[k]);
        states := before + [State()];
        forall j | 0 <= j < k + 1 ensures InsertsTo(states[j], restored[..k + 1][j], tipMutatorSetHash, states[j + 1]) {
          if j < k { assert InsertsTo(before[j], restored[..k][j], tipMutatorSetHash, before[j + 1]); }
        }
      }
      assert restored[..|restored|] == restored;
    }

    method SetSyncLabels(hash: Digest, newMutatorSetHash: Option<Digest>) returns (ok: bool)
      modifies this`tipDigest, this`tipMutatorSetHash
      ensures tipDigest == hash && (ok <==> newMutatorSetHash.Some?)
      ensures ok ==> tipMutatorSetHash == newMutatorSetHash.value
    {
      tipDigest := hash;
      ok := newMutatorSetHash.Some?;
      if ok { tipMutatorSetHash := newMutatorSetHash.value; }
    }
  }

  /** MergeInputCache::update_with_block: the elements that the block has left spendable, oldest first. */
  method RestorableFromCache(cache: seq<Transaction>, blockIndices: set<nat>) returns (restored: seq<Transaction>)
    ensures restored == StillSpendable(cache, blockIndices)
  {
    hide StillValid;
    restored := [];
    assert cache[..0] == [];
    for k := 0 to |cache|
      invariant restored == StillSpendable(cache[..k], blockIndices)
    {
      assert cache[..k + 1][..k] == cache[..k];
      if StillValid(cache[k], blockIndices) { restored := restored + [cache[k]]; }
    }
    assert cache[..|cache|] == cache;
  }

  ghost predicate NoneTwice(found: seq<(Transaction, Option<nat>)>) {
    forall j, k | 0 <= j < k < |found| :: found[j].0.txid != found[k].0.txid
  }

  ghost predicate IsAmong(tx: Transaction, found: seq<(Transaction, Option<nat>)>) {
    exists k | 0 <= k < |found| :: found[k].0 == tx
  }

  ghost predicate AllAmong(found: seq<(Transaction, Option<nat>)>, ids: seq<nat>) {
    forall k | 0 <= k < |found| :: found[k].0.txid in ids
  }

  lemma ReadyIff(tip: Digest)
    ensures forall tx :: Ready(tx, tip) <==> tx.singleProof && tx.mutatorSetHash == tip
  {
  }

  lemma NoneFound()
    ensures NoneTwice([]) && forall ids :: AllAmong([], ids)
  {
  }

  lemma OneMoreFound(found: seq<(Transaction, Option<nat>)>, ids: seq<nat>, k: nat, tx: Transaction, position: Option<nat>)
    requires k < |ids| && ids[k] == tx.txid && NoneTwice(found) && AllAmong(found, ids[..k]) && forall i, j | 0 <= i < j < |ids| :: ids[i] != ids[j]
    ensures AllAmong(found, ids[..k + 1]) && NoneTwice(found + [(tx, position)]) && AllAmong(found + [(tx, position)], ids[..k + 1])
    ensures IsAmong(tx, found + [(tx, position)]) && forall other | IsAmong(other, found) :: IsAmong(other, found + [(tx, position)])
  {
    var more := found + [(tx, position)];
    assert more[|found|].0 == tx && forall i | 0 <= i < |found| :: more[i] == found[i];
    assert ids[..k + 1] == ids[..k] + [ids[k]] && ids[k] !in ids[..k];
  }

  lemma NothingSpendable(blockIndices: set<nat>)
    ensures StillSpendable([], blockIndices) == []
  {
  }

  lemma NothingToDrop(d: Dictionary, blockIndices: set<nat>)
    requires d == map[]
    ensures AllStillValid(d, blockIndices) && CheapestDropped(Spendable(d, blockIndices), d)
  {
  }

  lemma SubmapKeeps(a: Dictionary, b: Dictionary, blockIndices: set<nat>, pool: Dictionary, cache: seq<Transaction>)
    requires Submap(a, b) && AllStillValid(b, blockIndices) && FromPoolOrCache(b, pool, cache)
    ensures AllStillValid(a, blockIndices) && FromPoolOrCache(a, pool, cache)
    ensures b == map[] ==> a == map[]
  {
  }

  lemma Smaller(before: Dictionary, after: Dictionary, id: nat)
    requires id in before && after == before - {id}
    ensures |after| < |before|
  {
    assert before.Keys == after.Keys + {id};
    assert |after.Keys| == |after| && |before.Keys| == |before|;
  }

  lemma ConflictFree(before: Dictionary, newTx: Transaction, after: Dictionary)
    requires NoConflicts(before)
    requires forall id | id in after && id != newTx.txid :: id in before && after[id] == before[id] && !Conflict(before[id], newTx)
    requires newTx.txid in after ==> after[newTx.txid] == newTx
    ensures NoConflicts(after)
  {
    forall i, j | i in after && j in after && i != j ensures !Conflict(after[i], after[j]) {
      ConflictSymmetric(after[i], after[j]);
    }
  }

  lemma ConflictSymmetric(a: Transaction, b: Transaction)
    ensures Conflict(a, b) <==> Conflict(b, a)
  {
  }
}
