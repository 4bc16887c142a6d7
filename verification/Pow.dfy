/** Memory-hard proof of work: a guesser precomputes a Merkle tree of leafs that a validator
    recomputes one by one. */
module ProofsOfWork {
  import opened Arithmetic
  import opened Digests
  import opened Fields
  import opened MountainRange
  import opened PostOrder
  import opened MerkleTrees
  import opened Bitreversals
  import opened Options

  const NUM_INDEX_REPETITIONS: nat := 63
  const NUM_BUD_LAYERS: nat := 5
  const BUDS_PER_LEAF: nat := 32

  // ---------- digests as numbers ----------

  /** Digest::values: five field elements each. What they are for a hash is up to the hash function; a digest that is
      given by a number has its digits. */
  type DigestValues = f: Digest -> seq<nat> | AreValues(f) witness SomeValues

  ghost predicate AreValues(f: Digest -> seq<nat>) {
    && (forall d :: |f(d)| == 5 && AreElements(f(d)))
    && (forall n: nat :: f(Raw(n)) == ElementsOf(n, 5))
  }

  function SomeValues(d: Digest): seq<nat> {
    if d.Raw? then ElementsOf(d.value, 5) else ElementsOf(0, 5)
  }

  /** The order of digests: the last element is the most significant one. */
  predicate Exceeds(a: seq<nat>, b: seq<nat>)
    requires |a| == |b|
    decreases |a|
  {
    a != [] &&
    var n := |a| - 1;
    a[n] > b[n] || (a[n] == b[n] && Exceeds(a[..n], b[..n]))
  }

  /** It is the order of the numbers that the elements denote. */
  lemma {:induction false} ExceedsIffGreater(a: seq<nat>, b: seq<nat>)
    requires |a| == |b| && AreElements(a) && AreElements(b)
    ensures Exceeds(a, b) <==> Number(a) > Number(b)
    decreases |a|
  {
    if a != [] {
      var n := |a| - 1;
      var low, other := a[..n], b[..n];
      ExceedsIffGreater(low, other);
      assert a == low + [a[n]] && b == other + [b[n]];
      NumberSnoc(low, a[n]);
      NumberSnoc(other, b[n]);
      NumberBound(low);
      NumberBound(other);
      TopDecides(a[n], b[n], Number(low), Number(other), FieldPower(n));
    }
  }

  /** The order is total: of two different digests, exactly one exceeds the other. */
  lemma ExceedsIsTotal(a: seq<nat>, b: seq<nat>)
    requires |a| == |b| && AreElements(a) && AreElements(b)
    ensures !Exceeds(a, b) && !Exceeds(b, a) <==> a == b
  {
    ExceedsIffGreater(a, b);
    ExceedsIffGreater(b, a);
    if Number(a) == Number(b) { NumberInjective(a, b); }
  }

  /** The digest, as a number, is at most the target. */
  ghost predicate MeetsTarget(values: DigestValues, d: Digest, target: Digest) {
    Number(values(d)) <= Number(values(target))
  }

  lemma MeetsIffNotExceeds(values: DigestValues, d: Digest, target: Digest)
    ensures MeetsTarget(values, d, target) <==> !Exceeds(values(d), values(target))
  {
    ExceedsIffGreater(values(d), values(target));
  }

  // ---------- the proof ----------

  datatype Pow = Pow(root: Digest, pathA: seq<Digest>, pathB: seq<Digest>, nonce: Digest) {
    /** Tip5::hash_varlen of the encoding, which has the fields in reverse order. */
    function Hash(): Digest {
      HashDigests([nonce] + pathB + pathA + [root])
    }
  }

  datatype Paths = Paths(pow: seq<Digest>, header: seq<Digest>, kernel: seq<Digest>)

  /** The Merkle paths from the proof of work up through header and kernel to the block. */
  type PowMastPaths = p: Paths | |p.pow| == 3 && |p.header| == 2 && |p.kernel| == 1
    witness Paths([Default, Default, Default], [Default, Default], [Default])

  function Commit(paths: PowMastPaths): Digest {
    HashDigests(paths.pow + paths.header + paths.kernel)
  }

  /** PowMastPaths::fast_mast_hash */
  function FastMastHash(paths: PowMastPaths, pow: Pow): Digest {
    var header := HashPair(paths.pow[2], HashPair(HashPair(pow.Hash(), paths.pow[0]), paths.pow[1]));
    var kernel := HashPair(HashPair(HashDigests([header]), paths.header[0]), paths.header[1]);
    HashPair(HashDigests([kernel]), paths.kernel[0])
  }

  function IndexPickerPreimage(root: Digest, paths: PowMastPaths): Digest {
    HashPair(root, Commit(paths))
  }

  function Indexer(hash: Digest, nonce: Digest, repetitions: nat): Digest
    requires repetitions > 0
  {
    if repetitions == 1 then HashPair(hash, nonce) else HashPair(Indexer(hash, nonce, repetitions - 1), Default)
  }

  /** The two leafs that a nonce opens. */
  function PickedIndices(values: DigestValues, h: nat, hash: Digest, nonce: Digest): (r: (nat, nat))
    ensures r.0 < Pow2(h) && r.1 < Pow2(h)
  {
    Pow2Positive(h);
    var indexer := values(Indexer(hash, nonce, NUM_INDEX_REPETITIONS));
    (indexer[0] % Pow2(h), indexer[1] % Pow2(h))
  }

  method Indices(values: DigestValues, h: nat, hash: Digest, nonce: Digest) returns (a: nat, b: nat)
    ensures (a, b) == PickedIndices(values, h, hash, nonce)
  {
    Pow2Positive(h);
    var indexer := HashPair(hash, nonce);
    for k := 1 to NUM_INDEX_REPETITIONS
      invariant indexer == Indexer(hash, nonce, k)
    {
      indexer := HashPair(indexer, Default);
    }
    a, b := values(indexer)[0] % Pow2(h), values(indexer)[1] % Pow2(h);
  }

  /** The picks are the first two elements of the last hash, in that order, and any two leafs can be picked. */
  lemma AnyPicks(h: nat, hash: Digest, nonce: Digest, x: nat, y: nat)
    requires h <= 32 && x < Pow2(h) && y < Pow2(h)
    ensures forall values: DigestValues | values(Indexer(hash, nonce, NUM_INDEX_REPETITIONS))[..2] == [x, y] ::
              PickedIndices(values, h, hash, nonce) == (x, y)
    ensures exists values: DigestValues :: PickedIndices(values, h, hash, nonce) == (x, y)
  {
    var last := Indexer(hash, nonce, NUM_INDEX_REPETITIONS);
    Pow2Monotone(h, 32);
    Pow2Of32();
    QuotientUnique(x, Pow2(h), 0, x);
    QuotientUnique(y, Pow2(h), 0, y);
    forall values: DigestValues | values(last)[..2] == [x, y] ensures PickedIndices(values, h, hash, nonce) == (x, y) {
      assert values(last)[0] == values(last)[..2][0] && values(last)[1] == values(last)[..2][1];
    }
    var f := d => if d == last then [x, y, 0, 0, 0] else SomeValues(d);
    assert AreValues(f);
    var values: DigestValues := f;
    assert values(last)[..2] == [x, y];
  }

  /** What picks the leafs commits to the guesser's root and to all of the block but its proof of work. */
  lemma PreimageBinds(root: Digest, paths: PowMastPaths, root': Digest, paths': PowMastPaths)
    ensures IndexPickerPreimage(root, paths) == IndexPickerPreimage(root', paths') <==> root == root' && paths == paths'
  {
    if Commit(paths) == Commit(paths') {
      var s, t := paths.pow + paths.header + paths.kernel, paths'.pow + paths'.header + paths'.kernel;
      assert s[..3] == paths.pow && t[..3] == paths'.pow;
      assert s[3..5] == paths.header && t[3..5] == paths'.header;
      assert s[5..] == paths.kernel && t[5..] == paths'.kernel;
    }
  }

  /** The last hash commits to preimage and nonce. */
  lemma {:induction false} IndexerInjective(hash: Digest, nonce: Digest, hash': Digest, nonce': Digest, repetitions: nat)
    requires repetitions > 0 && Indexer(hash, nonce, repetitions) == Indexer(hash', nonce', repetitions)
    ensures hash == hash' && nonce == nonce'
  {
    if repetitions > 1 { IndexerInjective(hash, nonce, hash', nonce', repetitions - 1); }
  }

  // ---------- buds and leafs ----------

  function Bud(commitment: Digest, index: nat): Digest {
    HashPair(commitment, Raw(index))
  }

  /** The root over the 2^layer buds that start at index k, going round. */
  function Mixed(commitment: Digest, n: nat, layer: nat, k: nat): Digest
    requires n > 0
  {
    if layer == 0 then Bud(commitment, k)
    else HashPair(Mixed(commitment, n, layer - 1, k), Mixed(commitment, n, layer - 1, (k + Pow2(layer - 1)) % n))
  }

  lemma AddModulo(a: nat, b: nat, n: nat)
    requires n > 0
    ensures (a % n + b) % n == (a + b) % n
  {
    var c := a % n + b;
    assert (a / n + c / n) * n == n * (a / n) + n * (c / n);
    QuotientUnique(a + b, n, a / n + c / n, c % n);
  }

  /** The vector holds the buds from index on, going round. */
  ghost predicate HoldsBuds(buds: seq<Digest>, commitment: Digest, n: nat, index: nat)
    requires n > 0
  {
    forall j | 0 <= j < |buds| :: buds[j] == Bud(commitment, (index + j) % n)
  }

  /** Where the q-th stretch of 2^layer buds begins, counted from index on. */
  function Start(n: nat, index: nat, layer: nat, q: nat): nat
    requires n > 0
  {
    (index + q * Pow2(layer)) % n
  }

  lemma MixedStep(commitment: Digest, n: nat, index: nat, layer: nat, q: nat)
    requires n > 0
    ensures Mixed(commitment, n, layer + 1, Start(n, index, layer + 1, q)) ==
            HashPair(Mixed(commitment, n, layer, Start(n, index, layer, 2 * q)), Mixed(commitment, n, layer, Start(n, index, layer, 2 * q + 1)))
  {
    var p := Pow2(layer);
    var k := index + q * Pow2(layer + 1);
    assert q * Pow2(layer + 1) == 2 * q * p && (2 * q + 1) * p == 2 * q * p + p;
    AddModulo(k, p, n);
  }

  /** The nodes of the tree over these buds, in terms of going round. */
  lemma {:induction false} MixedIsTree(commitment: Digest, n: nat, buds: seq<Digest>, index: nat, h: nat, layer: nat, q: nat)
    requires n > 0 && |buds| == Pow2(h) && layer <= h && q < Pow2(h - layer) && HoldsBuds(buds, commitment, n, index)
    ensures |Level(buds, layer)| == Pow2(h - layer)
    ensures Level(buds, layer)[q] == Mixed(commitment, n, layer, Start(n, index, layer, q))
    decreases layer
  {
    hide Mixed, HoldsBuds, Start, Level;
    LevelOfPow2(buds, h, layer);
    if layer == 0 {
      LeafIsBud(commitment, n, buds, index, q);
    } else {
      LevelOfPow2(buds, h, layer - 1);
      LevelStep(buds, layer - 1);
      MixedIsTree(commitment, n, buds, index, h, layer - 1, 2 * q);
      MixedIsTree(commitment, n, buds, index, h, layer - 1, 2 * q + 1);
      MixedStep(commitment, n, index, layer - 1, q);
    }
  }

  lemma LeafIsBud(commitment: Digest, n: nat, buds: seq<Digest>, index: nat, q: nat)
    requires n > 0 && HoldsBuds(buds, commitment, n, index) && q < |buds|
    ensures Level(buds, 0) == buds && buds[q] == Mixed(commitment, n, 0, Start(n, index, 0, q))
  {
  }

  /** Pow::leaf, the slow way: build the tree over the leaf's own buds. */
  method Leaf(commitment: Digest, index: nat, h: nat) returns (leaf: Digest)
    requires index < Pow2(h)
    ensures leaf == Mixed(commitment, Pow2(h), NUM_BUD_LAYERS, index)
  {
    hide Mixed, Level, Pow2, HoldsBuds;
    Pow2Positive(h);
    Pow2Of5();
    var buds := CollectBuds(commitment, index, Pow2(h));
    var internalNodes := new Digest[BUDS_PER_LEAF](j requires 0 <= j < BUDS_PER_LEAF reads buds => buds[j]);
    var tree := new MTree.BuildInplace(buds, internalNodes, 5);
    leaf := tree.GetRoot();
    LeafIsMixed(commitment, Pow2(h), buds[..], index);
  }

  method CollectBuds(commitment: Digest, index: nat, n: nat) returns (buds: array<Digest>)
    requires n > 0
    ensures fresh(buds) && buds.Length == BUDS_PER_LEAF && HoldsBuds(buds[..], commitment, n, index)
  {
    buds := new Digest[BUDS_PER_LEAF](j requires 0 <= j < BUDS_PER_LEAF => Bud(commitment, (index + j) % n));
  }

  lemma LeafIsMixed(commitment: Digest, n: nat, buds: seq<Digest>, index: nat)
    requires index < n && |buds| == Pow2(5) && HoldsBuds(buds, commitment, n, index)
    ensures Root(buds, 5) == Mixed(commitment, n, 5, index)
  {
    hide Mixed, Level, HoldsBuds;
    MixedIsTree(commitment, n, buds, index, 5, 5, 0);
    assert index + 0 * Pow2(5) == index;
    QuotientUnique(index, n, 0, index);
  }

  lemma Pow2Of5()
    ensures Pow2(5) == BUDS_PER_LEAF
  {
  }

  // ---------- preprocessing ----------

  /** The vector holds, for every k, the root over 2^layer buds from k on. */
  ghost predicate HoldsLayer(a: array<Digest>, commitment: Digest, n: nat, layer: nat)
    requires n > 0
    reads a
  {
    a.Length == n && forall k | 0 <= k < n :: a[k] == Mixed(commitment, n, layer, k)
  }

  method BudLayer(buds: array<Digest>, results: array<Digest>, layer: nat, ghost commitment: Digest)
    requires buds != results && buds.Length == results.Length > 0
    requires HoldsLayer(buds, commitment, buds.Length, layer)
    modifies results
    ensures HoldsLayer(results, commitment, buds.Length, layer + 1)
  {
    for k := 0 to results.Length
      invariant forall j | 0 <= j < k :: results[j] == Mixed(commitment, buds.Length, layer + 1, j)
      invariant HoldsLayer(buds, commitment, buds.Length, layer)
    {
      results[k] := HashPair(buds[k], buds[(k + Pow2(layer)) % buds.Length]);
    }
  }

  /** Pow::swap_indices: for each k the position to swap with, if that lies above. */
  method SwapIndices(length: nat, ghost h: nat) returns (swaps: seq<Option<nat>>)
    requires 1 <= h <= 32 && length == Pow2(h)
    ensures |swaps| == length
    ensures forall k | 0 <= k < length :: swaps[k] == if k < Reversed(k, h) then Some(Reversed(k, h)) else None
  {
    hide Reversed, Pow2;
    ILog2OfPow2(h);
    var log2Length := ILog2(length);
    swaps := [];
    for k := 0 to length
      invariant |swaps| == k
      invariant forall j | 0 <= j < k :: swaps[j] == if j < Reversed(j, h) then Some(Reversed(j, h)) else None
    {
      var reversed := Reversed(k, log2Length);
      swaps := swaps + [if k < reversed then Some(reversed) else None];
    }
  }

  /** Swapping each pair once moves every leaf to its reversed position. */
  method SwapLeafs(leafs: array<Digest>, ghost h: nat)
    requires 1 <= h <= 32 && leafs.Length == Pow2(h)
    modifies leafs
    ensures forall k | 0 <= k < leafs.Length :: Reversed(k, h) < leafs.Length && leafs[k] == old(leafs[Reversed(k, h)])
  {
    hide Reversed, Pow2;
    forall k | 0 <= k < leafs.Length ensures Reversed(k, h) < leafs.Length && Reversed(Reversed(k, h), h) == k {
      ReversedInvolutive(k, h);
    }
    var swaps := SwapIndices(leafs.Length, h);
    for k := 0 to |swaps|
      invariant forall j | 0 <= j < leafs.Length ::
                  leafs[j] == if j < k || Reversed(j, h) < k then old(leafs[Reversed(j, h)]) else old(leafs[j])
    {
      if swaps[k].Some? {
        var reversed := swaps[k].value;
        leafs[k], leafs[reversed] := leafs[reversed], leafs[k];
      }
    }
  }

  /** What the leafs of the guesser's tree must be. */
  ghost function GuesserLeafs(h: nat, commitment: Digest): (leafs: seq<Digest>)
    requires h <= 32
    ensures |leafs| == Pow2(h)
  {
    Pow2Positive(h);
    seq(Pow2(h), k requires 0 <= k < Pow2(h) => Mixed(commitment, Pow2(h), NUM_BUD_LAYERS, Reversed(k, h)))
  }

  lemma {:induction false} MixedBinds(commitment: Digest, commitment': Digest, n: nat, layer: nat, k: nat, k': nat)
    requires n > 0 && Mixed(commitment, n, layer, k) == Mixed(commitment', n, layer, k')
    ensures commitment == commitment' && k == k'
    decreases layer
  {
    if layer > 0 { MixedBinds(commitment, commitment', n, layer - 1, k, k'); }
  }

  /** The leafs are all different, and every one of them commits to the previous block. */
  lemma LeafsBind(h: nat, parent: Digest, parent': Digest, j: nat, k: nat)
    requires 1 <= h <= 32 && j < Pow2(h) && k < Pow2(h)
    ensures GuesserLeafs(h, parent)[j] == GuesserLeafs(h, parent')[k] <==> parent == parent' && j == k
  {
    hide Reversed, Mixed;
    if GuesserLeafs(h, parent)[j] == GuesserLeafs(h, parent')[k] {
      Pow2Positive(h);
      MixedBinds(parent, parent', Pow2(h), NUM_BUD_LAYERS, Reversed(j, h), Reversed(k, h));
      ReversedInvolutive(j, h);
      ReversedInvolutive(k, h);
    }
  }

  datatype GuesserBuffer = GuesserBuffer(merkleTree: MTree, prevBlockDigest: Digest)

  ghost predicate IsBufferFor(buffer: GuesserBuffer, h: nat, parent: Digest)
    requires h <= 32
    reads buffer.merkleTree.leafs, buffer.merkleTree.internalNodes
  {
    && buffer.merkleTree.Valid() && buffer.merkleTree.height == h && buffer.prevBlockDigest == parent
    && buffer.merkleTree.leafs[..] == GuesserLeafs(h, parent)
  }

  method Preprocess(h: nat, prevBlockDigest: Digest) returns (buffer: GuesserBuffer)
    requires 1 <= h <= 32
    ensures IsBufferFor(buffer, h, prevBlockDigest)
  {
    hide Reversed, Mixed;
    Pow2Positive(h);
    var n := Pow2(h);
    MixedZero(prevBlockDigest, n);
    var ins := new Digest[n](i requires 0 <= i < n => Bud(prevBlockDigest, i));
    var outs := new Digest[n](i requires 0 <= i < n reads ins => ins[i]);
    var buds, results := ins, outs;
    var numSwaps := 0;
    for i := 0 to NUM_BUD_LAYERS
      invariant numSwaps == i && {buds, results} == {ins, outs} && buds != results
      invariant buds == if i % 2 == 0 then ins else outs
      invariant HoldsLayer(buds, prevBlockDigest, n, i)
    {
      BudLayer(buds, results, i, prevBlockDigest);
      buds, results := results, buds;
      numSwaps := numSwaps + 1;
    }
    buds, results := results, buds;
    numSwaps := numSwaps + 1;
    var leafs, internalNodes := ins, outs;
    if numSwaps % 2 == 0 { leafs, internalNodes := outs, ins; }
    SwapLeafs(leafs, h);
    assert leafs[..] == GuesserLeafs(h, prevBlockDigest);
    var merkleTree := new MTree.BuildInplace(leafs, internalNodes, h);
    buffer := GuesserBuffer(merkleTree, prevBlockDigest);
  }

  lemma MixedZero(commitment: Digest, n: nat)
    requires n > 0
    ensures forall k: nat :: Mixed(commitment, n, 0, k) == Bud(commitment, k)
  {
  }

  // ---------- guessing and validating ----------

  ghost function GuesserRoot(h: nat, parent: Digest): Digest
    requires h <= 32
  {
    Root(GuesserLeafs(h, parent), h)
  }

  /** The one answer that a nonce has, for a given index picker preimage. */
  ghost function Answer(values: DigestValues, h: nat, parent: Digest, preimage: Digest, nonce: Digest): Pow
    requires h <= 32
  {
    var leafs := GuesserLeafs(h, parent);
    var (a, b) := PickedIndices(values, h, preimage, nonce);
    Pow(GuesserRoot(h, parent), Path(leafs, a), Path(leafs, b), nonce)
  }

  /** GuesserBuffer::index_picker_preimage */
  method BufferPreimage(buffer: GuesserBuffer, paths: PowMastPaths, ghost h: nat) returns (preimage: Digest)
    requires h <= 32 && IsBufferFor(buffer, h, buffer.prevBlockDigest)
    ensures preimage == IndexPickerPreimage(GuesserRoot(h, buffer.prevBlockDigest), paths)
  {
    preimage := IndexPickerPreimage(buffer.merkleTree.GetRoot(), paths);
  }

  method Guess(values: DigestValues, h: nat, buffer: GuesserBuffer, paths: PowMastPaths, preimage: Digest, nonce: Digest, target: Digest)
    returns (r: Option<Pow>)
    requires 1 <= h <= 32 && IsBufferFor(buffer, h, buffer.prevBlockDigest)
    ensures var answer := Answer(values, h, buffer.prevBlockDigest, preimage, nonce);
            r == if MeetsTarget(values, FastMastHash(paths, answer), target) then Some(answer) else None
  {
    var root := buffer.merkleTree.GetRoot();
    var a, b := Indices(values, h, preimage, nonce);
    var pathA := buffer.merkleTree.Path(a);
    var pathB := buffer.merkleTree.Path(b);
    var pow := Pow(root, pathA, pathB, nonce);
    MeetsIffNotExceeds(values, FastMastHash(paths, pow), target);
    r := if Exceeds(values(FastMastHash(paths, pow)), values(target)) then None else Some(pow);
  }

  datatype PowValidation = Ok | PathAInvalid | PathBInvalid | ThresholdNotMet

  /** Pow::validate. Path lengths are fixed by the type in the source. */
  method Validate(values: DigestValues, h: nat, pow: Pow, paths: PowMastPaths, target: Digest, parent: Digest)
    returns (v: PowValidation)
    requires 1 <= h <= 32 && |pow.pathA| == h == |pow.pathB|
    ensures v.Ok? <==> Accepted(values, h, pow, paths, target, parent)
    ensures v.ThresholdNotMet? ==> !MeetsTarget(values, FastMastHash(paths, pow), target)
  {
    hide Reversed, Mixed;
    var indexA, indexB := Indices(values, h, IndexPickerPreimage(pow.root, paths), pow.nonce);
    ReversedInvolutive(indexA, h);
    ReversedInvolutive(indexB, h);
    var leafA := Leaf(parent, Reversed(indexA, h), h);
    var leafB := Leaf(parent, Reversed(indexB, h), h);
    var okA := VerifyPath(pow.root, indexA, pow.pathA, leafA);
    if !okA { return PathAInvalid; }
    var okB := VerifyPath(pow.root, indexB, pow.pathB, leafB);
    if !okB { return PathBInvalid; }
    MeetsIffNotExceeds(values, FastMastHash(paths, pow), target);
    if Exceeds(values(FastMastHash(paths, pow)), values(target)) { return ThresholdNotMet; }
    v := Ok;
  }

  /** Both paths lead from the leafs that the nonce picks to the stated root, and the hash meets the target. */
  ghost predicate Accepted(values: DigestValues, h: nat, pow: Pow, paths: PowMastPaths, target: Digest, parent: Digest)
    requires h <= 32
  {
    var (a, b) := PickedIndices(values, h, IndexPickerPreimage(pow.root, paths), pow.nonce);
    && Climb(a, pow.pathA, GuesserLeafs(h, parent)[a]) == pow.root
    && Climb(b, pow.pathB, GuesserLeafs(h, parent)[b]) == pow.root
    && MeetsTarget(values, FastMastHash(paths, pow), target)
  }

  /** A proof with the guesser's root passes validation exactly when guessing with its nonce returns it. */
  lemma AcceptedIffAnswer(values: DigestValues, h: nat, pow: Pow, paths: PowMastPaths, target: Digest, parent: Digest)
    requires h <= 32 && |pow.pathA| == h == |pow.pathB| && pow.root == GuesserRoot(h, parent)
    ensures Accepted(values, h, pow, paths, target, parent) <==>
            && pow == Answer(values, h, parent, IndexPickerPreimage(pow.root, paths), pow.nonce)
            && MeetsTarget(values, FastMastHash(paths, pow), target)
  {
    hide PickedIndices, GuesserLeafs, MeetsTarget, FastMastHash;
    var leafs := GuesserLeafs(h, parent);
    var (a, b) := PickedIndices(values, h, IndexPickerPreimage(pow.root, paths), pow.nonce);
    ClimbIffPath(leafs, h, a, pow.pathA, leafs[a]);
    ClimbIffPath(leafs, h, b, pow.pathB, leafs[b]);
  }

  /** Whatever guessing with the buffer's own index picker preimage returns passes validation. */
  lemma AnswerAccepted(values: DigestValues, h: nat, paths: PowMastPaths, nonce: Digest, target: Digest, parent: Digest)
    requires h <= 32
    ensures var answer := Answer(values, h, parent, IndexPickerPreimage(GuesserRoot(h, parent), paths), nonce);
            && |answer.pathA| == h == |answer.pathB|
            && (Accepted(values, h, answer, paths, target, parent) <==>
                MeetsTarget(values, FastMastHash(paths, answer), target))
  {
    hide PickedIndices, GuesserLeafs, MeetsTarget, FastMastHash;
    var answer := Answer(values, h, parent, IndexPickerPreimage(GuesserRoot(h, parent), paths), nonce);
    var leafs := GuesserLeafs(h, parent);
    var (a, b) := PickedIndices(values, h, IndexPickerPreimage(answer.root, paths), nonce);
    PathLength(leafs, a);
    PathLength(leafs, b);
    FullTreeHeight(h, a);
    FullTreeHeight(h, b);
    AcceptedIffAnswer(values, h, answer, paths, target, parent);
  }

  /** From the parent block to a proof and through its validation: a proof that is found is accepted. */
  method GuessAndValidate(values: DigestValues, h: nat, parent: Digest, paths: PowMastPaths, nonce: Digest, target: Digest)
    returns (found: Option<Pow>, v: PowValidation)
    requires 1 <= h <= 32
    ensures found.Some? ==> v.Ok?
    ensures found.Some? <==>
            var answer := Answer(values, h, parent, IndexPickerPreimage(GuesserRoot(h, parent), paths), nonce);
            MeetsTarget(values, FastMastHash(paths, answer), target)
  {
    hide Answer, GuesserRoot, Accepted, MeetsTarget, FastMastHash, GuesserLeafs;
    var buffer := Preprocess(h, parent);
    var preimage := BufferPreimage(buffer, paths, h);
    found := Guess(values, h, buffer, paths, preimage, nonce, target);
    v := ThresholdNotMet;
    AnswerAccepted(values, h, paths, nonce, target, parent);
    if found.Some? {
      v := Validate(values, h, found.value, paths, target, parent);
    }
  }
}
