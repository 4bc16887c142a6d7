/** Block hashes as Merkle roots over the fields of header, kernel and block, the lazily computed
    digest of a block, and the proof of work that is checked against them. */
module BlockHashes {
  import opened Digests
  import opened MountainRange
  import opened PostOrder
  import opened MerkleTrees
  import opened Options
  import opened Fields
  import opened ProofsOfWork
  import D = Difficulties

  // ---------- padded Merkle trees ----------

  function BitAnd(a: nat, b: nat): nat {
    if a == 0 || b == 0 then 0 else 2 * BitAnd(a / 2, b / 2) + (if a % 2 == 1 && b % 2 == 1 then 1 else 0)
  }

  lemma {:induction false} BitAndSelf(a: nat)
    ensures BitAnd(a, a) == a
  {
    if a > 0 { BitAndSelf(a / 2); }
  }

  /** The height of the smallest tree with room for n leafs. */
  function CeilLog2(n: nat): nat
    requires n > 0
  {
    if n == 1 then 0 else 1 + CeilLog2((n + 1) / 2)
  }

  lemma {:induction false} CeilLog2Least(n: nat)
    requires n > 0
    ensures n <= Pow2(CeilLog2(n))
    ensures n == Pow2(CeilLog2(n)) <==> BitAnd(n, n - 1) == 0
    ensures forall k: nat | n <= k <= Pow2(CeilLog2(n)) :: CeilLog2(k) == CeilLog2(n)
  {
    if n > 1 {
      var half := (n + 1) / 2;
      CeilLog2Least(half);
      if n % 2 == 1 {
        BitAndSelf(n / 2);
      } else {
        assert (n - 1) / 2 == n / 2 - 1;
      }
      forall k: nat | n <= k <= Pow2(CeilLog2(n)) ensures CeilLog2(k) == CeilLog2(n) {
        assert half <= (k + 1) / 2 <= Pow2(CeilLog2(half));
      }
    }
  }

  function Padding(count: nat): (p: seq<Digest>)
    ensures |p| == count
  {
    seq(count, _ => Default)
  }

  function Padded(leafs: seq<Digest>): (r: seq<Digest>)
    requires leafs != []
    ensures |r| == Pow2(CeilLog2(|leafs|))
  {
    CeilLog2Least(|leafs|);
    leafs + Padding(Pow2(CeilLog2(|leafs|)) - |leafs|)
  }

  /** The padding loop of MastHash::merkle_tree. */
  method PadLeafs(leafs: seq<Digest>) returns (r: seq<Digest>)
    requires leafs != []
    ensures r == Padded(leafs)
  {
    ghost var size := Pow2(CeilLog2(|leafs|));
    CeilLog2Least(|leafs|);
    r := leafs;
    while BitAnd(|r|, |r| - 1) != 0
      invariant |leafs| <= |r| <= size
      invariant r == leafs + Padding(|r| - |leafs|)
      decreases size - |r|
    {
      CeilLog2Least(|r|);
      r := r + [Default];
    }
    CeilLog2Least(|r|);
  }

  function MastHash(leafs: seq<Digest>): Digest
    requires leafs != []
  {
    Root(Padded(leafs), CeilLog2(|leafs|))
  }

  function MastPath(leafs: seq<Digest>, field: nat): seq<Digest>
    requires field < |leafs|
  {
    CeilLog2Least(|leafs|);
    Path(Padded(leafs), field)
  }

  /** A field's path leads to the root, and replacing the field changes only the start of the climb. */
  lemma MastPathLeads(leafs: seq<Digest>, field: nat, x: Digest)
    requires field < |leafs|
    ensures |MastPath(leafs, field)| == CeilLog2(|leafs|)
    ensures MastPath(leafs[field := x], field) == MastPath(leafs, field)
    ensures Climb(field, MastPath(leafs, field), x) == MastHash(leafs[field := x])
  {
    var h := CeilLog2(|leafs|);
    CeilLog2Least(|leafs|);
    var padded, changed := Padded(leafs), Padded(leafs[field := x]);
    assert changed == padded[field := x];
    PathOfUpdatedLeaf(padded, field, x);
    PathLength(padded, field);
    FullTreeHeight(h, field);
    ClimbIffPath(changed, h, field, Path(changed, field), x);
  }

  /** The root commits to every leaf. */
  lemma MastHashInjective(a: seq<Digest>, b: seq<Digest>)
    requires a != [] && |a| == |b| && MastHash(a) == MastHash(b)
    ensures a == b
  {
    hide Root, Climb;
    var h := CeilLog2(|a|);
    CeilLog2Least(|a|);
    forall k | 0 <= k < |a| ensures a[k] == b[k] {
      var path := Path(Padded(b), k);
      PathLength(Padded(b), k);
      FullTreeHeight(h, k);
      ClimbIffPath(Padded(b), h, k, path, b[k]);
      ClimbIffPath(Padded(a), h, k, path, b[k]);
    }
  }

  // ---------- header, kernel, block ----------

  datatype Header = Header(version: nat, height: nat, prevBlockDigest: Digest, timestamp: nat, pow: Pow,
                           work: D.ProofOfWork, difficulty: D.Difficulty, receiverDigest: Digest, lockScriptHash: Digest) {
    function Leafs(): (r: seq<Digest>)
      ensures |r| == 8
    {
      [ HashNats([version]), HashNats([height]), HashDigests([prevBlockDigest]), HashNats([timestamp]), pow.Hash(),
        HashNats(work), HashNats(difficulty), HashDigests([lockScriptHash, receiverDigest]) ]
    }
  }

  const POW_FIELD: nat := 4

  /** A block without its cached digest. Body, appendix and proof enter by their digests. */
  datatype Content = Content(header: Header, bodyHash: Digest, appendixLeaf: Digest, proofLeaf: Digest) {
    function HeaderHash(): Digest {
      MastHash(header.Leafs())
    }

    function KernelLeafs(): (r: seq<Digest>)
      ensures |r| == 3
    {
      [HashDigests([HeaderHash()]), HashDigests([bodyHash]), appendixLeaf]
    }

    function Leafs(): (r: seq<Digest>)
      ensures |r| == 2
    {
      [HashDigests([MastHash(KernelLeafs())]), proofLeaf]
    }

    function BlockHash(): Digest {
      MastHash(Leafs())
    }

    function WithPow(pow: Pow): Content {
      this.(header := header.(pow := pow))
    }
  }

  lemma TreeHeights()
    ensures CeilLog2(2) == 1 && CeilLog2(3) == 2 && CeilLog2(8) == 3
  {
    assert CeilLog2(4) == 2;
  }

  /** Block::pow_mast_paths */
  function PathsOf(c: Content): PowMastPaths {
    TreeHeights();
    MastPathLeads(c.header.Leafs(), POW_FIELD, c.header.pow.Hash());
    MastPathLeads(c.KernelLeafs(), 0, Default);
    MastPathLeads(c.Leafs(), 0, Default);
    Paths(MastPath(c.header.Leafs(), POW_FIELD), MastPath(c.KernelLeafs(), 0), MastPath(c.Leafs(), 0))
  }

  /** The paths do not depend on the proof of work. */
  lemma PathsIgnorePow(c: Content, pow: Pow)
    ensures PathsOf(c.WithPow(pow)) == PathsOf(c)
  {
    var d := c.WithPow(pow);
    assert d.header.Leafs() == c.header.Leafs()[POW_FIELD := pow.Hash()];
    assert d.KernelLeafs() == c.KernelLeafs()[0 := d.KernelLeafs()[0]];
    assert d.Leafs() == c.Leafs()[0 := d.Leafs()[0]];
    MastPathLeads(c.header.Leafs(), POW_FIELD, pow.Hash());
    MastPathLeads(c.KernelLeafs(), 0, d.KernelLeafs()[0]);
    MastPathLeads(c.Leafs(), 0, d.Leafs()[0]);
  }

  lemma ClimbOne(path: seq<Digest>, x: Digest)
    requires |path| == 1
    ensures Climb(0, path, x) == HashPair(x, path[0])
  {
    assert Climb(0, path[1..], HashPair(x, path[0])) == HashPair(x, path[0]);
  }

  lemma ClimbTwo(path: seq<Digest>, x: Digest)
    requires |path| == 2
    ensures Climb(0, path, x) == HashPair(HashPair(x, path[0]), path[1])
  {
    ClimbOne(path[1..], HashPair(x, path[0]));
  }

  lemma ClimbPow(path: seq<Digest>, x: Digest)
    requires |path| == 3
    ensures Climb(POW_FIELD, path, x) == HashPair(path[2], HashPair(HashPair(x, path[0]), path[1]))
  {
    var y := HashPair(HashPair(x, path[0]), path[1]);
    assert path[1..][1..] == path[2..] && path[2..][1..] == [];
    assert Climb(1, path[2..], y) == Climb(0, [], HashPair(path[2], y));
    assert Climb(2, path[1..], HashPair(x, path[0])) == Climb(1, path[2..], y);
  }

  /** The fast hash over a block's paths is the hash that the block has with that proof of work installed. */
  lemma FastMastHashIsBlockHash(c: Content, pow: Pow)
    ensures FastMastHash(PathsOf(c), pow) == c.WithPow(pow).BlockHash()
  {
    hide MastHash, MastPath, Climb;
    var d := c.WithPow(pow);
    var paths := PathsOf(c);
    assert d.header.Leafs() == c.header.Leafs()[POW_FIELD := pow.Hash()];
    MastPathLeads(c.header.Leafs(), POW_FIELD, pow.Hash());
    ClimbPow(paths.pow, pow.Hash());
    assert d.KernelLeafs() == c.KernelLeafs()[0 := HashDigests([d.HeaderHash()])];
    MastPathLeads(c.KernelLeafs(), 0, HashDigests([d.HeaderHash()]));
    ClimbTwo(paths.header, HashDigests([d.HeaderHash()]));
    assert d.Leafs() == c.Leafs()[0 := HashDigests([MastHash(d.KernelLeafs())])];
    MastPathLeads(c.Leafs(), 0, HashDigests([MastHash(d.KernelLeafs())]));
    ClimbOne(paths.kernel, HashDigests([MastHash(d.KernelLeafs())]));
  }

  lemma PowHashInjective(a: Pow, b: Pow)
    requires |a.pathA| == |b.pathA| && |a.pathB| == |b.pathB| && a.Hash() == b.Hash()
    ensures a == b
  {
    var s, t := [a.nonce] + a.pathB + a.pathA + [a.root], [b.nonce] + b.pathB + b.pathA + [b.root];
    var m, n := |a.pathB|, |a.pathA|;
    assert s[0] == a.nonce && t[0] == b.nonce && s[1 + m + n] == a.root && t[1 + m + n] == b.root;
    assert s[1..1 + m] == a.pathB && t[1..1 + m] == b.pathB;
    assert s[1 + m..1 + m + n] == a.pathA && t[1 + m..1 + m + n] == b.pathA;
  }

  /** The block hash commits to the whole block. The lengths of the paths are fixed by their type in the source. */
  lemma BlockHashCommits(a: Content, b: Content)
    requires |a.header.pow.pathA| == |b.header.pow.pathA| && |a.header.pow.pathB| == |b.header.pow.pathB|
    ensures a.BlockHash() == b.BlockHash() <==> a == b
  {
    hide MastHash, Pow.Hash;
    if a.BlockHash() == b.BlockHash() {
      MastHashInjective(a.Leafs(), b.Leafs());
      assert a.Leafs()[0] == b.Leafs()[0] && a.Leafs()[1] == b.Leafs()[1];
      assert [MastHash(a.KernelLeafs())][0] == [MastHash(b.KernelLeafs())][0];
      MastHashInjective(a.KernelLeafs(), b.KernelLeafs());
      var k, l := a.KernelLeafs(), b.KernelLeafs();
      assert k[0] == l[0] && k[1] == l[1] && k[2] == l[2];
      assert [a.HeaderHash()][0] == [b.HeaderHash()][0] && [a.bodyHash][0] == [b.bodyHash][0];
      HeaderHashCommits(a.header, b.header);
    }
  }

  lemma HeaderHashCommits(a: Header, b: Header)
    requires |a.pow.pathA| == |b.pow.pathA| && |a.pow.pathB| == |b.pow.pathB|
    requires MastHash(a.Leafs()) == MastHash(b.Leafs())
    ensures a == b
  {
    hide MastHash, Pow.Hash;
    MastHashInjective(a.Leafs(), b.Leafs());
    var k, l := a.Leafs(), b.Leafs();
    assert forall i | 0 <= i < 8 :: k[i] == l[i];
    assert k[0] == l[0] && k[1] == l[1] && k[2] == l[2] && k[3] == l[3] && k[4] == l[4] && k[5] == l[5] && k[6] == l[6] && k[7] == l[7];
    assert [a.version][0] == [b.version][0] && [a.height][0] == [b.height][0] && [a.timestamp][0] == [b.timestamp][0];
    assert [a.prevBlockDigest][0] == [b.prevBlockDigest][0];
    assert [a.lockScriptHash, a.receiverDigest][0] == [b.lockScriptHash, b.receiverDigest][0];
    assert [a.lockScriptHash, a.receiverDigest][1] == [b.lockScriptHash, b.receiverDigest][1];
    PowHashInjective(a.pow, b.pow);
  }

  // ---------- a header with the rest of the block as a witness ----------

  datatype HeaderWithWitness = HeaderWithWitness(header: Header, bodyLeaf: Digest, appendixLeaf: Digest, proofLeaf: Digest) {
    /** BlockHeaderWithBlockHashWitness::hash, whose kernel leafs are padded by hand. */
    function Hash(): Digest {
      var kernelLeafs := [HashDigests([MastHash(header.Leafs())]), bodyLeaf, appendixLeaf, Default];
      assert Pow2(1) == 2 && Pow2(2) == 4;
      var kernelHash := Root(kernelLeafs, 2);
      Root([HashDigests([kernelHash]), proofLeaf], 1)
    }
  }

  function WitnessOf(c: Content): HeaderWithWitness {
    HeaderWithWitness(c.header, HashDigests([c.bodyHash]), c.appendixLeaf, c.proofLeaf)
  }

  lemma WitnessHashIsBlockHash(c: Content)
    ensures WitnessOf(c).Hash() == c.BlockHash()
  {
    TreeHeights();
    assert Pow2(1) == 2 && Pow2(2) == 4;
    assert Padded(c.KernelLeafs()) == c.KernelLeafs() + [Default];
    assert Padded(c.Leafs()) == c.Leafs();
  }

  // ---------- the cached digest ----------

  class Block {
    var content: Content
    var digest: Option<Digest>

    /** A digest, once computed, is that of the current content. */
    ghost predicate Valid()
      reads this
    {
      digest.Some? ==> digest.value == content.BlockHash()
    }

    constructor (content: Content)
      ensures Valid() && this.content == content
    {
      this.content := content;
      digest := None;
    }

    method Hash() returns (hash: Digest)
      requires Valid()
      modifies this`digest
      ensures Valid() && hash == content.BlockHash()
    {
      if digest.None? { digest := Some(content.BlockHash()); }
      hash := digest.value;
    }

    method UnsetDigest()
      modifies this`digest
      ensures Valid()
    {
      digest := None;
    }

    method SetHeaderPow(pow: Pow)
      modifies this
      ensures Valid() && content == old(content).WithPow(pow)
    {
      content := content.(header := content.header.(pow := pow));
      UnsetDigest();
    }

    method SetHeaderGuesserReceiverData(privacyDigest: Digest, lockScriptHash: Digest)
      modifies this
      ensures Valid()
      ensures content == old(content).(header := old(content).header.(receiverDigest := privacyDigest, lockScriptHash := lockScriptHash))
    {
      content := content.(header := content.header.(receiverDigest := privacyDigest));
      content := content.(header := content.header.(lockScriptHash := lockScriptHash));
      UnsetDigest();
    }

    method SetHeaderTimestampAndDifficulty(timestamp: nat, difficulty: D.Difficulty)
      modifies this
      ensures Valid()
      ensures content == old(content).(header := old(content).header.(timestamp := timestamp, difficulty := difficulty))
    {
      content := content.(header := content.header.(timestamp := timestamp));
      content := content.(header := content.header.(difficulty := difficulty));
      UnsetDigest();
    }

    /** The new content comes with its own cached digest. */
    method SetBlock(other: Block)
      requires other.Valid()
      modifies this
      ensures Valid() && content == old(other.content)
    {
      content, digest := other.content, other.digest;
    }

    /** Block::has_proof_of_work */
    method HasProofOfWork(values: DigestValues, h: nat, network: Network, previousTimestamp: FieldElement) returns (has: bool)
      requires Valid() && 1 <= h <= 32 && |content.header.pow.pathA| == h == |content.header.pow.pathB|
      requires content.header.timestamp < FIELD
      modifies this`digest
      ensures Valid() && (has <==> Solved(values, h, network, previousTimestamp, content))
    {
      hide PathsOf, FastMastHash, Accepted, MeetsTarget, D.Val, Target;
      var header := content.header;
      if ShouldResetDifficulty(network, header.timestamp, previousTimestamp) && header.difficulty == network.genesisDifficulty {
        return true;
      }
      if D.Val(header.difficulty) < D.MINIMUM { return false; }
      var target := Target(header.difficulty);
      if network.allowsMockPow {
        var hash := Hash();
        MeetsIffNotExceeds(values, hash, target);
        if !Exceeds(values(hash), values(target)) { return true; }
      }
      var paths := PathsOf(content);
      var verdict := Validate(values, h, header.pow, paths, target, header.prevBlockDigest);
      has := verdict.Ok?;
    }
  }

  // ---------- proof of work of a block ----------

  datatype Network = Network(difficultyResetInterval: Option<nat>, genesisDifficulty: D.Difficulty, allowsMockPow: bool)

  predicate ShouldResetDifficulty(network: Network, timestamp: FieldElement, previousTimestamp: FieldElement) {
    network.difficultyResetInterval.Some? &&
    FieldSub(timestamp, previousTimestamp) >= network.difficultyResetInterval.value
  }

  /** The difficulty is reset once the time since the previous block has reached the interval, and also if the clock has
      gone back by any ordinary amount, since timestamps wrap around. */
  lemma ResetWhen(network: Network, timestamp: FieldElement, previousTimestamp: FieldElement)
    ensures network.difficultyResetInterval.None? ==> !ShouldResetDifficulty(network, timestamp, previousTimestamp)
    ensures network.difficultyResetInterval.Some? && previousTimestamp <= timestamp ==>
              (ShouldResetDifficulty(network, timestamp, previousTimestamp) <==> previousTimestamp + network.difficultyResetInterval.value <= timestamp)
    ensures network.difficultyResetInterval.Some? && timestamp < previousTimestamp ==>
              (ShouldResetDifficulty(network, timestamp, previousTimestamp) <==> previousTimestamp - timestamp <= FIELD - network.difficultyResetInterval.value)
  {
  }

  /** The largest digest, as a number. */
  const MAX_DIGEST: nat := FieldPower(5) - 1

  /** Difficulty::target */
  function Target(difficulty: D.Difficulty): Digest
    requires D.Val(difficulty) > 0
  {
    Raw(MAX_DIGEST / D.Val(difficulty))
  }

  /** A digest meets the target exactly if its number times the difficulty is at most the largest digest. */
  lemma TargetMetIff(values: DigestValues, d: Digest, difficulty: D.Difficulty)
    requires D.Val(difficulty) > 0
    ensures MeetsTarget(values, d, Target(difficulty)) <==> Number(values(d)) * D.Val(difficulty) <= MAX_DIGEST
  {
    hide D.Val, FieldPower, Number;
    var v, t := D.Val(difficulty), MAX_DIGEST / D.Val(difficulty);
    DividedBelow(MAX_DIGEST, v);
    NumberOfElements(t, 5);
    assert values(Raw(t)) == ElementsOf(t, 5);
    QuotientIsLargest(Number(values(d)), MAX_DIGEST, v);
  }

  lemma DividedBelow(m: nat, v: nat)
    requires v > 0
    ensures 0 <= m / v <= m
  {
    QuotientIsLargest(0, m, v);
    QuotientIsLargest(m + 1, m, v);
    assert (m + 1) * v >= m + 1;
  }

  lemma QuotientIsLargest(x: nat, m: nat, v: nat)
    requires v > 0
    ensures x <= m / v <==> x * v <= m
  {
    var q := m / v;
    assert m == v * q + m % v;
    if x <= q {
      assert x * v <= q * v;
    } else {
      assert x * v >= (q + 1) * v;
    }
  }

  /** What meets the target of a difficulty meets those of all lower ones. */
  lemma TargetsDescend(values: DigestValues, d: Digest, lower: D.Difficulty, higher: D.Difficulty)
    requires 0 < D.Val(lower) <= D.Val(higher) && MeetsTarget(values, d, Target(higher))
    ensures MeetsTarget(values, d, Target(lower))
  {
    hide D.Val, MeetsTarget, Target, Number;
    TargetMetIff(values, d, lower);
    TargetMetIff(values, d, higher);
    var x := Number(values(d));
    assert x * D.Val(lower) <= x * D.Val(higher);
  }

  ghost predicate Solved(values: DigestValues, h: nat, network: Network, previousTimestamp: FieldElement, c: Content)
    requires h <= 32 && c.header.timestamp < FIELD
  {
    || (ShouldResetDifficulty(network, c.header.timestamp, previousTimestamp) && c.header.difficulty == network.genesisDifficulty)
    || (D.Val(c.header.difficulty) >= D.MINIMUM &&
        var target := Target(c.header.difficulty);
        || (network.allowsMockPow && MeetsTarget(values, c.BlockHash(), target))
        || Accepted(values, h, c.header.pow, PathsOf(c), target, c.header.prevBlockDigest))
  }

  /** Installing what guessing returned, for the block's own paths and target, solves the block on any network. */
  lemma InstalledGuessSolves(values: DigestValues, h: nat, network: Network, previousTimestamp: FieldElement, c: Content, nonce: Digest)
    requires h <= 32 && c.header.timestamp < FIELD && D.Val(c.header.difficulty) >= D.MINIMUM
    ensures var parent, target := c.header.prevBlockDigest, Target(c.header.difficulty);
            var pow := Answer(values, h, parent, IndexPickerPreimage(GuesserRoot(h, parent), PathsOf(c)), nonce);
            MeetsTarget(values, FastMastHash(PathsOf(c), pow), target) ==>
              && Solved(values, h, network, previousTimestamp, c.WithPow(pow))
              && MeetsTarget(values, c.WithPow(pow).BlockHash(), target)
  {
    hide PathsOf, FastMastHash, Answer, Accepted, MeetsTarget, Content.BlockHash;
    var parent, target := c.header.prevBlockDigest, Target(c.header.difficulty);
    var pow := Answer(values, h, parent, IndexPickerPreimage(GuesserRoot(h, parent), PathsOf(c)), nonce);
    PathsIgnorePow(c, pow);
    AnswerAccepted(values, h, PathsOf(c), nonce, target, parent);
    FastMastHashIsBlockHash(c, pow);
  }
}
