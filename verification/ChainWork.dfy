/** The header rules about time, difficulty and cumulative work, and how fast work can grow. */
module ChainWork {
  import opened Arithmetic
  import opened Fields
  import opened Difficulties

  // ---------- cumulative work ----------

  lemma CarryStep(a: nat, b: nat, base: nat, x: nat, y: nat, before: nat, carry: nat)
    requires before + carry * base == a + b
    ensures var sum := carry + y + x;
            before + (sum % LIMB) * base + (sum / LIMB) * (LIMB * base) == (a + x * base) + (b + y * base)
  {
    var sum := carry + y + x;
    assert (sum % LIMB) * base + (sum / LIMB) * (LIMB * base) == sum * base;
    assert sum * base == carry * base + y * base + x * base;
  }

  /** The ProofOfWork addition: limb by limb, the carry out of the last limb is lost. */
  method AddWork(work: ProofOfWork, difficulty: Difficulty) returns (r: ProofOfWork)
    ensures Val(r) == (Val(work) + Val(difficulty)) % Base(POW_NUM_LIMBS)
  {
    hide Val, Base;
    NoLimbs();
    var result: seq<U32> := [];
    var carry: U32 := 0;
    for i := 0 to DIFFICULTY_NUM_LIMBS
      invariant |result| == i && carry <= 1
      invariant Val(result) + carry * Base(i) == Val(work[..i]) + Val(difficulty[..i])
    {
      var sum := carry + difficulty[i] + work[i];
      ValTake(work, i);
      ValTake(difficulty, i);
      ValAppend(result, sum % LIMB);
      CarryStep(Val(work[..i]), Val(difficulty[..i]), Base(i), work[i], difficulty[i], Val(result), carry);
      result := result + [sum % LIMB];
      carry := sum / LIMB;
    }
    assert difficulty[..DIFFICULTY_NUM_LIMBS] == difficulty;
    for i := DIFFICULTY_NUM_LIMBS to POW_NUM_LIMBS
      invariant |result| == i && carry <= 1
      invariant Val(result) + carry * Base(i) == Val(work[..i]) + Val(difficulty)
    {
      var sum := carry + work[i];
      ValTake(work, i);
      ValAppend(result, sum % LIMB);
      CarryStep(Val(work[..i]), Val(difficulty), Base(i), work[i], 0, Val(result), carry);
      result := result + [sum % LIMB];
      carry := sum / LIMB;
    }
    assert work[..POW_NUM_LIMBS] == work;
    ValBound(result);
    QuotientUnique(Val(work) + Val(difficulty), Base(POW_NUM_LIMBS), carry, Val(result));
    r := result;
  }

  // ---------- the header rules ----------

  datatype Header = Header(height: nat, timestamp: FieldElement, difficulty: Difficulty, work: ProofOfWork)

  /** What a network fixes. There is no difficulty reset. */
  datatype Rules = Rules(target: FieldElement, minimumBlockTime: FieldElement)

  predicate Sensible(rules: Rules) {
    rules.target > 0 && rules.minimumBlockTime <= rules.target
  }

  ghost predicate Succeeds(prev: Header, next: Header, rules: Rules)
    requires rules.target > 0
  {
    && next.height == prev.height + 1
    && FieldAdd(prev.timestamp, rules.minimumBlockTime) <= next.timestamp
    && Val(next.difficulty) == NextDifficulty(Val(prev.difficulty), FieldSub(next.timestamp, prev.timestamp), rules.target, prev.height)
    && Val(next.work) == (Val(prev.work) + Val(next.difficulty)) % Base(POW_NUM_LIMBS)
  }

  datatype HeaderValidation = Valid | BlockHeight | MinimumBlockTime | DifficultyWrong | CumulativeProofOfWork | Panics

  lemma {:induction false} ValInjective(a: seq<U32>, b: seq<U32>)
    requires |a| == |b| && Val(a) == Val(b)
    ensures a == b
    decreases |a|
  {
    if a != [] {
      ValInjective(a[1..], b[1..]);
      assert a == [a[0]] + a[1..] && b == [b[0]] + b[1..];
    }
  }

  /** Rules 0.a, 0.d, 0.e and 0.f of Block::validate. In builds with overflow checks the difficulty rule panics
      when the block time does not fit an i64. */
  method ValidateHeader(prev: Header, next: Header, rules: Rules, overflowChecks: bool) returns (v: HeaderValidation)
    requires rules.target > 0
    ensures v.Panics? <==>
              && overflowChecks && prev.height > 0 && !NoI64Overflow(FieldSub(next.timestamp, prev.timestamp), rules.target)
              && next.height == prev.height + 1 && FieldAdd(prev.timestamp, rules.minimumBlockTime) <= next.timestamp
    ensures !v.Panics? ==> (v.Valid? <==> Succeeds(prev, next, rules))
  {
    hide Val, Base, NextDifficulty;
    if prev.height + 1 != next.height { return BlockHeight; }
    if FieldAdd(prev.timestamp, rules.minimumBlockTime) > next.timestamp { return MinimumBlockTime; }
    var controlled := DifficultyControl(next.timestamp, prev.timestamp, prev.difficulty, rules.target, prev.height, overflowChecks);
    if controlled.None? { return Panics; }
    var expected := controlled.value;
    if next.difficulty != expected {
      if Val(next.difficulty) == Val(expected) { ValInjective(next.difficulty, expected); }
      return DifficultyWrong;
    }
    var expectedWork := AddWork(prev.work, next.difficulty);
    if next.work != expectedWork {
      if Val(next.work) == Val(expectedWork) { ValInjective(next.work, expectedWork); }
      return CumulativeProofOfWork;
    }
    v := HeaderValidation.Valid;
  }

  // ---------- chains ----------

  ghost predicate IsChain(headers: seq<Header>, rules: Rules)
    requires rules.target > 0
  {
    && headers != [] && Val(headers[0].difficulty) >= MINIMUM
    && (forall k | 0 <= k < |headers| - 1 :: Succeeds(headers[k], headers[k + 1], rules))
  }

  /** Difficulty never falls below the minimum. */
  lemma {:induction false} DifficultyAboveMinimum(headers: seq<Header>, rules: Rules, k: nat)
    requires rules.target > 0 && IsChain(headers, rules) && k < |headers|
    ensures MINIMUM <= Val(headers[k].difficulty) < Base(DIFFICULTY_NUM_LIMBS)
  {
    hide Val, Base, NextDifficulty;
    ValBound(headers[k].difficulty);
    if k > 0 {
      DifficultyAboveMinimum(headers, rules, k - 1);
      var prev, next := headers[k - 1], headers[k];
      assert Succeeds(prev, next, rules);
      ScalesWithinBounds(Val(prev.difficulty), FieldSub(next.timestamp, prev.timestamp), rules.target, prev.height);
    }
  }

  /** Work grows strictly from block to block, exactly as long as the sum stays below 2^192. */
  lemma WorkGrows(headers: seq<Header>, rules: Rules, k: nat)
    requires rules.target > 0 && IsChain(headers, rules) && k + 1 < |headers|
    ensures Val(headers[k].work) < Val(headers[k + 1].work) <==>
            Val(headers[k].work) + Val(headers[k + 1].difficulty) < Base(POW_NUM_LIMBS)
    ensures Val(headers[k].work) + Val(headers[k + 1].difficulty) < Base(POW_NUM_LIMBS) ==>
            Val(headers[k + 1].work) == Val(headers[k].work) + Val(headers[k + 1].difficulty)
  {
    hide Val, Base, NextDifficulty;
    assert Succeeds(headers[k], headers[k + 1], rules);
    DifficultyAboveMinimum(headers, rules, k + 1);
    ValBound(headers[k].work);
    var a: nat, d: nat, b := Val(headers[k].work), Val(headers[k + 1].difficulty), Base(POW_NUM_LIMBS);
    SixLimbsAreMore();
    if a + d < b {
      QuotientUnique(a + d, b, 0, a + d);
    } else {
      QuotientUnique(a + d, b, 1, a + d - b);
    }
  }

  /** A valid step over which the work wraps around: from 2^192 - 1 to 15999. */
  lemma WorkWrapsAround()
    ensures var rules := Rules(384_000, 60_000);
            var prev := Header(1, 0, [16_000, 0, 0, 0, 0], [LIMB - 1, LIMB - 1, LIMB - 1, LIMB - 1, LIMB - 1, LIMB - 1]);
            var next := Header(2, 384_000, [16_000, 0, 0, 0, 0], [15_999, 0, 0, 0, 0, 0]);
            IsChain([prev, next], rules) && Val(next.work) < Val(prev.work)
  {
    hide Base;
    var full: ProofOfWork := [LIMB - 1, LIMB - 1, LIMB - 1, LIMB - 1, LIMB - 1, LIMB - 1];
    SmallNumber(16_000);
    SmallNumber(15_999);
    AllOnes(6);
    assert full == Ones(6);
    SixLimbsAreMore();
    TwoLimbsFit();
    QuotientUnique(Val(full) + 16_000, Base(POW_NUM_LIMBS), 1, 15_999);
    assert Factor(384_000, 384_000) == LIMB;
  }

  function Zeros(n: nat): (r: seq<U32>)
    ensures |r| == n
  {
    if n == 0 then [] else [0] + Zeros(n - 1)
  }

  function Ones(n: nat): (r: seq<U32>)
    ensures |r| == n
  {
    if n == 0 then [] else [LIMB - 1] + Ones(n - 1)
  }

  lemma {:induction false} ZerosAreZero(n: nat)
    ensures Val(Zeros(n)) == 0
  {
    if n > 0 { ZerosAreZero(n - 1); }
  }

  lemma OneLimb(x: U32, n: nat)
    ensures Val([x] + Zeros(n)) == x
  {
    ZerosAreZero(n);
    assert ([x] + Zeros(n))[1..] == Zeros(n);
  }

  lemma {:induction false} AllOnes(n: nat)
    ensures Val(Ones(n)) == Base(n) - 1
  {
    if n > 0 {
      AllOnes(n - 1);
      assert Ones(n)[1..] == Ones(n - 1);
    }
  }

  lemma SixLimbsAreMore()
    ensures Base(DIFFICULTY_NUM_LIMBS) < Base(POW_NUM_LIMBS)
  {
  }

  // ---------- the bound ----------

  const EPSILON: real := 0.000001

  /** The largest factor, on reals, by which one block can raise the difficulty. */
  function MaxFactor(rules: Rules): real
    requires rules.target > 0
  {
    1.0 + (rules.target - rules.minimumBlockTime) as real / rules.target as real / 16.0 + EPSILON
  }

  function WorkBound(work: real, difficulty: real, f: real, blocks: nat): real
    decreases blocks
  {
    if blocks == 0 then work else WorkBound(work + difficulty * f, difficulty * f, f, blocks - 1)
  }

  /** max_cumulative_pow_after, rounded down and capped at the largest proof of work. */
  function MaxWorkAfter(work: nat, difficulty: nat, blocks: nat, rules: Rules): int
    requires rules.target > 0
  {
    var bound := WorkBound(work as real * (1.0 + EPSILON), difficulty as real, MaxFactor(rules), blocks).Floor;
    if bound >= Base(POW_NUM_LIMBS) then Base(POW_NUM_LIMBS) - 1 else bound
  }

  lemma {:induction false} WorkBoundGrows(work: real, difficulty: real, f: real, blocks: nat)
    requires difficulty >= 0.0 && f >= 0.0
    ensures WorkBound(work, difficulty, f, blocks) >= work
    decreases blocks
  {
    if blocks > 0 {
      assert difficulty * f >= 0.0;
      WorkBoundGrows(work + difficulty * f, difficulty * f, f, blocks - 1);
    }
  }

  lemma WorkBoundStep(work: real, difficulty: real, f: real, blocks: nat)
    requires blocks > 0 && difficulty >= 0.0 && f >= 0.0
    ensures difficulty * f >= 0.0
    ensures WorkBound(work, difficulty, f, blocks) == WorkBound(work + difficulty * f, difficulty * f, f, blocks - 1)
  {
  }

  lemma WorkBoundDone(work: real, difficulty: real, f: real)
    ensures WorkBound(work, difficulty, f, 0) == work
  {
  }

  function RealPower(f: real, n: nat): real {
    if n == 0 then 1.0 else f * RealPower(f, n - 1)
  }

  /** f + f^2 + ... + f^n */
  function SumOfPowers(f: real, n: nat): real {
    if n == 0 then 0.0 else SumOfPowers(f, n - 1) + RealPower(f, n)
  }

  /** The most work that n more blocks can lead to: a millionth on top of the work at the start, and for each block the
      difficulty at the start times one more factor. */
  function MostWork(work: nat, difficulty: nat, blocks: nat, rules: Rules): real
    requires rules.target > 0
  {
    work as real * 1.000001 + difficulty as real * SumOfPowers(MaxFactor(rules), blocks)
  }

  lemma {:induction false} SumStep(f: real, n: nat)
    ensures SumOfPowers(f, n + 1) == f + f * SumOfPowers(f, n)
  {
    if n > 0 {
      SumStep(f, n - 1);
      var s, p := SumOfPowers(f, n - 1), RealPower(f, n);
      assert f * (s + p) == f * s + f * p;
    } else {
      assert RealPower(f, 1) == f * RealPower(f, 0);
    }
  }

  /** The sum in closed form. */
  lemma {:induction false} SumOfPowersClosed(f: real, n: nat)
    ensures (f - 1.0) * SumOfPowers(f, n) == RealPower(f, n + 1) - f
  {
    if n > 0 {
      SumOfPowersClosed(f, n - 1);
      assert (f - 1.0) * (SumOfPowers(f, n - 1) + RealPower(f, n)) == (f - 1.0) * SumOfPowers(f, n - 1) + f * RealPower(f, n) - RealPower(f, n);
    } else {
      assert RealPower(f, 1) == f * RealPower(f, 0);
    }
  }

  lemma {:induction false} WorkBoundClosed(work: real, difficulty: real, f: real, blocks: nat)
    ensures WorkBound(work, difficulty, f, blocks) == work + difficulty * SumOfPowers(f, blocks)
    decreases blocks
  {
    if blocks > 0 {
      WorkBoundClosed(work + difficulty * f, difficulty * f, f, blocks - 1);
      SumStep(f, blocks - 1);
      var s := SumOfPowers(f, blocks - 1);
      assert difficulty * (f + f * s) == difficulty * f + difficulty * f * s;
    }
  }

  /** The factor, free of divisions. */
  lemma MaxFactorIs(rules: Rules)
    requires rules.target > 0
    ensures 16_000_000.0 * rules.target as real * MaxFactor(rules) ==
            17_000_016.0 * rules.target as real - 1_000_000.0 * rules.minimumBlockTime as real
  {
    var t, m := rules.target as real, rules.minimumBlockTime as real;
    var y := (t - m) / t;
    assert (rules.target - rules.minimumBlockTime) as real == t - m;
    assert t * y == t - m;
    assert MaxFactor(rules) == 1.0 + y / 16.0 + EPSILON;
  }

  /** For every start and every number of blocks the bound is the most work, rounded down and capped. */
  lemma MaxWorkIsMostWork(work: nat, difficulty: nat, blocks: nat, rules: Rules)
    requires rules.target > 0
    ensures var most := MostWork(work, difficulty, blocks, rules).Floor;
            MaxWorkAfter(work, difficulty, blocks, rules) == if most < Base(POW_NUM_LIMBS) then most else Base(POW_NUM_LIMBS) - 1
  {
    hide Base, MaxFactor;
    WorkBoundClosed(work as real * (1.0 + EPSILON), difficulty as real, MaxFactor(rules), blocks);
  }

  /** The loop stops early once the cap is reached. */
  method MaxCumulativePowAfter(work: ProofOfWork, difficulty: Difficulty, blocks: nat, rules: Rules) returns (bound: int)
    requires rules.target > 0 && rules.minimumBlockTime <= rules.target
    ensures bound == MaxWorkAfter(Val(work), Val(difficulty), blocks, rules)
  {
    hide Val, Base, MaxFactor, WorkBound;
    var f := MaxFactor(rules);
    MaxFactorAtLeastOne(rules);
    var maxDifficulty := Val(difficulty) as real;
    var maxWork := Val(work) as real * (1.0 + EPSILON);
    var cap := (Base(POW_NUM_LIMBS) - 1) as real;
    ghost var total := WorkBound(maxWork, maxDifficulty, f, blocks);
    for k := 0 to blocks
      invariant maxDifficulty >= 0.0
      invariant WorkBound(maxWork, maxDifficulty, f, blocks - k) == total
    {
      WorkBoundStep(maxWork, maxDifficulty, f, blocks - k);
      maxDifficulty := maxDifficulty * f;
      maxWork := maxWork + maxDifficulty;
      if maxWork >= cap {
        WorkBoundGrows(maxWork, maxDifficulty, f, blocks - k - 1);
        return Base(POW_NUM_LIMBS) - 1;
      }
    }
    WorkBoundDone(maxWork, maxDifficulty, f);
    bound := if maxWork.Floor >= Base(POW_NUM_LIMBS) then Base(POW_NUM_LIMBS) - 1 else maxWork.Floor;
  }

  lemma MaxFactorAtLeastOne(rules: Rules)
    requires rules.target > 0 && rules.minimumBlockTime <= rules.target
    ensures MaxFactor(rules) >= 1.0
  {
    var t := rules.target as real;
    var d := (rules.target - rules.minimumBlockTime) as real;
    assert d / t >= 0.0;
  }

  /** The step's factor is no larger than the one that the bound uses. */
  ghost predicate Moderate(deltaT: FieldElement, rules: Rules)
    requires rules.target > 0
  {
    Factor(deltaT, rules.target) as real <= LIMB as real * MaxFactor(rules)
  }

  /** Every block time from the minimum up to where it counts as negative is moderate. One that counts as negative is
      moderate only if the minimum is so small that the bound's margin covers it. */
  lemma ModerateWhen(deltaT: FieldElement, rules: Rules)
    requires Sensible(rules)
    ensures rules.minimumBlockTime <= deltaT < TWO_TO_THE_63 + rules.target || LIMB < rules.target ==> Moderate(deltaT, rules)
    ensures TWO_TO_THE_63 + rules.target <= deltaT && rules.target <= LIMB ==>
              (Moderate(deltaT, rules) <==> 1_000_000 * rules.minimumBlockTime <= 16 * rules.target)
  {
    hide Factor, MaxFactor;
    if rules.target > LIMB {
      NoControl(deltaT, rules.target);
      MaxFactorAtLeastOne(rules);
    } else if deltaT < TWO_TO_THE_63 + rules.target {
      if rules.minimumBlockTime <= deltaT {
        FactorBound(deltaT, rules);
        FactorInRange(deltaT, rules.target);
        RealFactorBound(Factor(deltaT, rules.target), rules);
      }
    } else {
      HugeFactor(deltaT, rules.target);
      MarginCovers(rules);
    }
  }

  lemma MarginCovers(rules: Rules)
    requires Sensible(rules)
    ensures (LIMB + LIMB / 16) as real <= LIMB as real * MaxFactor(rules) <==> 1_000_000 * rules.minimumBlockTime <= 16 * rules.target
  {
    var t, m := rules.target as real, rules.minimumBlockTime as real;
    var y := (t - m) / t;
    assert (rules.target - rules.minimumBlockTime) as real == t - m;
    assert MaxFactor(rules) == 1.0 + y / 16.0 + EPSILON;
    assert (LIMB + LIMB / 16) as real <= LIMB as real * MaxFactor(rules) <==> 1.0 <= y + 16.0 * EPSILON;
    QuotientAtLeast(t - m, t, 1.0 - 16.0 * EPSILON);
    assert (1_000_000 * rules.minimumBlockTime) as real == 1_000_000.0 * m && (16 * rules.target) as real == 16.0 * t;
  }

  lemma QuotientAtLeast(x: real, t: real, a: real)
    requires t > 0.0
    ensures x / t >= a <==> x >= a * t
  {
    var y := x / t;
    assert y * t == x;
    if y >= a {
      assert (y - a) * t >= 0.0;
    } else {
      assert (a - y) * t > 0.0;
    }
  }

  /** On whole numbers: the factor exceeds 1 by at most a sixteenth of (target - minimum) / target. */
  lemma FactorBound(deltaT: FieldElement, rules: Rules)
    requires Sensible(rules) && rules.target <= LIMB && rules.minimumBlockTime <= deltaT < TWO_TO_THE_63 + rules.target
    ensures 16 * (Factor(deltaT, rules.target) - LIMB) <= (rules.target - rules.minimumBlockTime) * (LIMB / rules.target)
  {
    hide AbsoluteError;
    AbsoluteErrorValue(deltaT, rules.target);
    var t: int, m: int := rules.target, rules.minimumBlockTime;
    var q := LIMB / t;
    ProductMonotone(m - t, deltaT - t, q);
    assert (m - t) * q == -((t - m) * q);
    assert (t - m) * q >= 0;
  }

  /** A moderate block multiplies the difficulty by at most the largest factor. */
  lemma StepBound(v: nat, deltaT: FieldElement, rules: Rules, height: nat)
    requires Sensible(rules) && (height == 0 || Moderate(deltaT, rules)) && v >= MINIMUM
    ensures NextDifficulty(v, deltaT, rules.target, height) as real <= v as real * MaxFactor(rules)
  {
    hide Factor, Base, MaxFactor, Scaled;
    MaxFactorAtLeastOne(rules);
    if height == 0 {
      EitherBound(v as real, v as real, 1.0, MaxFactor(rules));
    } else {
      FactorInRange(deltaT, rules.target);
      var f: nat := Factor(deltaT, rules.target);
      ScaledBelowProduct(v, f);
      EitherBound(v as real, Scaled(v, f) as real, f as real / LIMB as real, MaxFactor(rules));
    }
  }

  /** Moderate is exact: one block after any start stays within the bound if and only if its time is moderate. */
  lemma BoundHoldsIffModerate(deltaT: FieldElement, rules: Rules, height: nat)
    requires Sensible(rules) && height > 0
    ensures (forall v: nat, w: nat | MINIMUM <= v < Base(DIFFICULTY_NUM_LIMBS) && w < Base(POW_NUM_LIMBS) ::
               WorkAfter(w, v, deltaT, rules, height) <= MaxWorkAfter(w, v, 1, rules)) <==>
            Moderate(deltaT, rules)
  {
    hide Base, MaxFactor, Factor, NextDifficulty, MaxWorkAfter, Moderate;
    if Moderate(deltaT, rules) {
      forall v: nat, w: nat | MINIMUM <= v < Base(DIFFICULTY_NUM_LIMBS) && w < Base(POW_NUM_LIMBS)
        ensures WorkAfter(w, v, deltaT, rules, height) <= MaxWorkAfter(w, v, 1, rules)
      {
        StepBound(v, deltaT, rules, height);
        OneStepWithinBound(w, v, NextDifficulty(v, deltaT, rules.target, height), rules);
      }
    } else {
      TwoLimbsFit();
      ImmoderateStep(deltaT, rules, height);
    }
  }

  /** The cumulative work after one more block. */
  function WorkAfter(w: nat, v: nat, deltaT: FieldElement, rules: Rules, height: nat): nat
    requires rules.target > 0
  {
    (w + NextDifficulty(v, deltaT, rules.target, height)) % Base(POW_NUM_LIMBS)
  }

  lemma OneStepWithinBound(w: nat, v: nat, d: nat, rules: Rules)
    requires rules.target > 0 && d as real <= v as real * MaxFactor(rules)
    ensures (w + d) % Base(POW_NUM_LIMBS) <= MaxWorkAfter(w, v, 1, rules)
  {
    hide Base, MaxFactor;
    RemainderBelow(w + d, Base(POW_NUM_LIMBS));
    var bound := WorkBound(w as real * (1.0 + EPSILON), v as real, MaxFactor(rules), 1);
    assert bound == w as real * (1.0 + EPSILON) + v as real * MaxFactor(rules);
    assert (w + d) as real <= bound;
  }

  /** The start that fails: no work yet and a difficulty of 2^32. */
  lemma ImmoderateStep(deltaT: FieldElement, rules: Rules, height: nat)
    requires Sensible(rules) && height > 0 && !Moderate(deltaT, rules)
    ensures WorkAfter(0, LIMB, deltaT, rules, height) > MaxWorkAfter(0, LIMB, 1, rules)
  {
    hide Base, MaxFactor, Factor, Scaled;
    FactorInRange(deltaT, rules.target);
    var f: nat := Factor(deltaT, rules.target);
    FactorItself(f);
    TwoLimbsFit();
    SixLimbsAreMore();
    QuotientUnique(f, Base(POW_NUM_LIMBS), 0, f);
    var bound := WorkBound(0 as real * (1.0 + EPSILON), LIMB as real, MaxFactor(rules), 1);
    assert bound == LIMB as real * MaxFactor(rules);
    assert bound < f as real;
  }

  /** On the main network: a block time that counts as negative takes the work above the bound. */
  lemma BoundFailsForHugeBlockTime()
    ensures var rules := Rules(384_000, 60_000);
            var prev := Header(1, 0, [16_000, 0, 0, 0, 0], [0, 0, 0, 0, 0, 0]);
            var next := Header(2, TWO_TO_THE_63 + 384_000, [17_000, 0, 0, 0, 0], [17_000, 0, 0, 0, 0, 0]);
            && IsChain([prev, next], rules) && !Moderate(FieldSub(next.timestamp, prev.timestamp), rules)
            && Val(next.work) > MaxWorkAfter(Val(prev.work), Val(prev.difficulty), 1, rules)
  {
    hide Factor, MaxWorkAfter, NextDifficulty;
    HugeBlockTimeRaisesDifficulty();
    ModerateWhen(TWO_TO_THE_63 + 384_000, Rules(384_000, 60_000));
    SmallNumber(0);
    SmallNumber(16_000);
    SmallNumber(17_000);
    MainNetworkBound();
  }

  /** A block that resets the difficulty stays within the bound, from every start, exactly if the difficulty it resets to
      is no more than one ordinary step above the minimum. */
  lemma ResetWithinBoundIff(reset: nat, rules: Rules)
    requires Sensible(rules) && reset < Base(DIFFICULTY_NUM_LIMBS)
    ensures (forall v: nat, w: nat | MINIMUM <= v < Base(DIFFICULTY_NUM_LIMBS) && w < Base(POW_NUM_LIMBS) ::
               (w + reset) % Base(POW_NUM_LIMBS) <= MaxWorkAfter(w, v, 1, rules)) <==>
            reset as real <= MINIMUM as real * MaxFactor(rules)
  {
    hide Base, MaxFactor, MaxWorkAfter;
    if reset as real <= MINIMUM as real * MaxFactor(rules) {
      MaxFactorAtLeastOne(rules);
      forall v: nat, w: nat | MINIMUM <= v < Base(DIFFICULTY_NUM_LIMBS) && w < Base(POW_NUM_LIMBS)
        ensures (w + reset) % Base(POW_NUM_LIMBS) <= MaxWorkAfter(w, v, 1, rules)
      {
        TimesFactor(MINIMUM as real, v as real, MaxFactor(rules));
        OneStepWithinBound(w, v, reset, rules);
      }
    } else {
      MinimumBelowMaximum();
      SixLimbsAreMore();
      ResetAboveBound(reset, rules);
    }
  }

  lemma TimesFactor(x: real, y: real, f: real)
    requires x <= y && f >= 0.0
    ensures x * f <= y * f
  {
  }

  /** The start that fails: no work yet and the minimum difficulty. */
  lemma ResetAboveBound(reset: nat, rules: Rules)
    requires rules.target > 0 && reset as real > MINIMUM as real * MaxFactor(rules) && reset < Base(POW_NUM_LIMBS)
    ensures (0 + reset) % Base(POW_NUM_LIMBS) > MaxWorkAfter(0, MINIMUM, 1, rules)
  {
    hide Base, MaxFactor;
    QuotientUnique(reset, Base(POW_NUM_LIMBS), 0, reset);
    var bound := WorkBound(0 as real * (1.0 + EPSILON), MINIMUM as real, MaxFactor(rules), 1);
    assert bound == MINIMUM as real * MaxFactor(rules);
    assert bound < reset as real;
  }

  /** On the mock test network a reset takes the difficulty from the minimum to 100000, above the bound. */
  lemma MockNetworkReset()
    ensures var rules := Rules(384_000, 100);
            Sensible(rules) && 100_000 % Base(POW_NUM_LIMBS) > MaxWorkAfter(0, MINIMUM, 1, rules)
  {
    hide Base;
    SmallNumber(100_000);
    RemainderBelow(100_000, Base(POW_NUM_LIMBS));
    ResetAboveBound(100_000, Rules(384_000, 100));
  }

  lemma SmallNumber(x: U32)
    ensures Val([x, 0, 0, 0, 0]) == x && Val([x, 0, 0, 0, 0, 0]) == x
    ensures x % Base(POW_NUM_LIMBS) == x
  {
    OneLimb(x, 4);
    OneLimb(x, 5);
    assert [x, 0, 0, 0, 0] == [x] + Zeros(4) && [x, 0, 0, 0, 0, 0] == [x] + Zeros(5);
    SixLimbsAreMore();
    TwoLimbsFit();
    QuotientUnique(x, Base(POW_NUM_LIMBS), 0, x);
  }

  /** One block after difficulty 16000 on the main network. */
  lemma MainNetworkBound()
    ensures MaxWorkAfter(0, 16_000, 1, Rules(384_000, 60_000)) < 16_844
  {
    var rules := Rules(384_000, 60_000);
    var bound := WorkBound(0 as real * (1.0 + EPSILON), 16_000 as real, MaxFactor(rules), 1);
    assert bound == 16_000.0 * MaxFactor(rules) < 16_844.0;
  }

  /** The sum of the minimum-time rule wraps around, lets a block time of 0 through, and the work exceeds the bound. */
  lemma BoundFailsForWrappedTime()
    ensures var rules := Rules(384_000, 60_000);
            var prev := Header(1, FIELD - 1, [16_000, 0, 0, 0, 0], [0, 0, 0, 0, 0, 0]);
            var next := Header(2, FIELD - 1, [16_999, 0, 0, 0, 0], [16_999, 0, 0, 0, 0, 0]);
            && IsChain([prev, next], rules) && !Moderate(FieldSub(next.timestamp, prev.timestamp), rules)
            && Val(next.work) > MaxWorkAfter(Val(prev.work), Val(prev.difficulty), 1, rules)
  {
    hide MaxWorkAfter, Base;
    SmallNumber(0);
    SmallNumber(16_000);
    SmallNumber(16_999);
    MainNetworkBound();
    ZeroBlockTime();
  }

  lemma ZeroBlockTime()
    ensures NextDifficulty(16_000, 0, 384_000, 1) == 16_999 && !Moderate(0, Rules(384_000, 60_000))
  {
    hide Base;
    TwoLimbsFit();
    assert Factor(0, 384_000) == LIMB + 268_416_000;
  }

  lemma EitherBound(x: real, y: real, a: real, b: real)
    requires x >= 0.0 && a <= b && 1.0 <= b && (y <= x || y <= x * a)
    ensures y <= x * b
  {
    RealProductMonotone(x, a, b);
    RealProductMonotone(x, 1.0, b);
  }

  lemma RealProductMonotone(x: real, a: real, b: real)
    requires x >= 0.0 && a <= b
    ensures x * a <= x * b
  {
    assert x * (b - a) >= 0.0;
  }

  lemma RealFactorBound(f: nat, rules: Rules)
    requires Sensible(rules) && 16 * (f - LIMB) <= (rules.target - rules.minimumBlockTime) * (LIMB / rules.target)
    ensures f as real <= LIMB as real * MaxFactor(rules)
  {
    var t, d := rules.target, rules.target - rules.minimumBlockTime;
    ExcessTimesTarget(f, t, d);
    var a := 16.0 * (f - LIMB) as real / LIMB as real;
    var excess := (16 * (f - LIMB) * t) as real;
    assert excess == 16.0 * (f - LIMB) as real * t as real;
    assert a * LIMB as real == 16.0 * (f - LIMB) as real;
    assert (a * t as real) * LIMB as real <= d as real * LIMB as real;
    QuotientAtLeast(d as real, t as real, a);
  }

  lemma ExcessTimesTarget(f: nat, t: nat, d: nat)
    requires t > 0 && 16 * (f - LIMB) <= d * (LIMB / t)
    ensures 16 * (f - LIMB) * t <= d * LIMB
  {
    var q := LIMB / t;
    ProductMonotone(16 * (f - LIMB), d * q, t);
    ProductMonotone(q * t, LIMB, d);
    assert d * q * t == (q * t) * d;
  }

  lemma ScaledBelowProduct(v: nat, f: nat)
    requires v >= MINIMUM
    ensures Scaled(v, f) <= v || Scaled(v, f) as real <= v as real * (f as real / LIMB as real)
  {
    hide Base;
    MinimumBelowMaximum();
  }

  /** Every block time along the chain is moderate, apart from the first one after genesis, which has no effect. */
  ghost predicate ModerateChain(headers: seq<Header>, rules: Rules)
    requires rules.target > 0
  {
    forall k | 0 <= k < |headers| - 1 :: ModerateStep(headers[k], headers[k + 1], rules)
  }

  ghost predicate ModerateStep(prev: Header, next: Header, rules: Rules)
    requires rules.target > 0
  {
    prev.height == 0 || Moderate(FieldSub(next.timestamp, prev.timestamp), rules)
  }

  /** Block times from the minimum up to where they count as negative make a moderate chain. */
  lemma OrdinaryTimesAreModerate(headers: seq<Header>, rules: Rules)
    requires Sensible(rules) && IsChain(headers, rules)
    requires forall k | 0 <= k < |headers| - 1 ::
               rules.minimumBlockTime <= FieldSub(headers[k + 1].timestamp, headers[k].timestamp) < TWO_TO_THE_63 + rules.target
    ensures ModerateChain(headers, rules)
  {
    hide Moderate, Val;
    forall k | 0 <= k < |headers| - 1 ensures ModerateStep(headers[k], headers[k + 1], rules) {
      ModerateWhen(FieldSub(headers[k + 1].timestamp, headers[k].timestamp), rules);
    }
  }

  lemma TailIsModerate(headers: seq<Header>, rules: Rules)
    requires rules.target > 0 && ModerateChain(headers, rules) && |headers| > 1
    ensures ModerateChain(headers[1..], rules)
  {
    hide ModerateStep;
    forall k | 0 <= k < |headers[1..]| - 1 ensures ModerateStep(headers[1..][k], headers[1..][k + 1], rules) {
      assert ModerateStep(headers[k + 1], headers[k + 2], rules);
    }
  }

  /** The cumulative work after n blocks never exceeds the bound computed from where the chain started. */
  lemma {:induction false} WorkWithinBound(headers: seq<Header>, rules: Rules, work: real, difficulty: real)
    requires Sensible(rules) && headers != [] && IsChain(headers, rules) && ModerateChain(headers, rules)
    requires Val(headers[0].work) as real <= work && Val(headers[0].difficulty) as real <= difficulty
    ensures Val(headers[|headers| - 1].work) as real <= WorkBound(work, difficulty, MaxFactor(rules), |headers| - 1)
    decreases |headers|
  {
    hide Val, Base, MaxFactor, Succeeds, IsChain, WorkBound, ModerateChain;
    if |headers| == 1 {
      WorkBoundDone(work, difficulty, MaxFactor(rules));
    } else {
      var f := MaxFactor(rules);
      StepOfChain(headers, rules);
      assert difficulty >= Val(headers[0].difficulty) as real >= 0.0;
      StepWithinBound(Val(headers[0].work) as real, Val(headers[0].difficulty) as real, Val(headers[1].work) as real,
                      Val(headers[1].difficulty) as real, work, difficulty, f);
      TailIsChain(headers, rules);
      TailIsModerate(headers, rules);
      WorkBoundStep(work, difficulty, f, |headers| - 1);
      var tail := headers[1..];
      assert tail[0] == headers[1] && tail[|tail| - 1] == headers[|headers| - 1];
      WorkWithinBound(tail, rules, work + difficulty * f, difficulty * f);
    }
  }

  lemma StepWithinBound(w0: real, d0: real, w1: real, d1: real, work: real, difficulty: real, f: real)
    requires w1 <= w0 + d1 && d1 <= d0 * f && w0 <= work && d0 <= difficulty && f >= 0.0
    ensures d1 <= difficulty * f && w1 <= work + difficulty * f
  {
    assert (difficulty - d0) * f >= 0.0;
  }

  lemma TailIsChain(headers: seq<Header>, rules: Rules)
    requires rules.target > 0 && IsChain(headers, rules) && |headers| > 1
    ensures IsChain(headers[1..], rules)
  {
    hide Val, Succeeds;
    DifficultyAboveMinimum(headers, rules, 1);
    forall k | 0 <= k < |headers[1..]| - 1 ensures Succeeds(headers[1..][k], headers[1..][k + 1], rules) {
      assert Succeeds(headers[k + 1], headers[k + 2], rules);
    }
  }

  lemma StepOfChain(headers: seq<Header>, rules: Rules)
    requires Sensible(rules) && IsChain(headers, rules) && ModerateChain(headers, rules) && |headers| > 1
    ensures MaxFactor(rules) >= 0.0
    ensures Val(headers[1].difficulty) as real <= Val(headers[0].difficulty) as real * MaxFactor(rules)
    ensures Val(headers[1].work) as real <= Val(headers[0].work) as real + Val(headers[1].difficulty) as real
  {
    hide Val, Base, MaxFactor, NextDifficulty, Moderate;
    var prev, next := headers[0], headers[1];
    assert Succeeds(prev, next, rules);
    assert ModerateStep(prev, next, rules);
    StepBound(Val(prev.difficulty), FieldSub(next.timestamp, prev.timestamp), rules, prev.height);
    MaxFactorAtLeastOne(rules);
    RemainderBelow(Val(prev.work) + Val(next.difficulty), Base(POW_NUM_LIMBS));
  }

  lemma RemainderBelow(x: nat, b: nat)
    requires b > 0
    ensures x % b <= x
  {
    assert x / b >= 0;
    assert b * (x / b) >= 0;
  }

  /** A valid chain of moderate block times stays within what max_cumulative_pow_after allows. */
  lemma HonestWorkWithinBound(headers: seq<Header>, rules: Rules)
    requires Sensible(rules) && IsChain(headers, rules) && ModerateChain(headers, rules)
    ensures Val(headers[|headers| - 1].work) <=
            MaxWorkAfter(Val(headers[0].work), Val(headers[0].difficulty), |headers| - 1, rules)
  {
    hide Val, Base, MaxFactor, WorkBound;
    var w := Val(headers[0].work) as real;
    assert w <= w * (1.0 + EPSILON);
    WorkWithinBound(headers, rules, w * (1.0 + EPSILON), Val(headers[0].difficulty) as real);
    ValBound(headers[|headers| - 1].work);
  }

  // ---------- the evolution check ----------

  /** What a peer claims about one block of its chain. */
  datatype Claim = Claim(height: nat, work: ProofOfWork, difficulty: Difficulty)

  /** The first part of SyncChallengeResponse::check_pow, over consecutive claims. */
  method EvolutionOkay(claims: seq<Claim>, rules: Rules) returns (ok: bool)
    requires rules.target > 0 && rules.minimumBlockTime <= rules.target
    requires forall k | 0 <= k < |claims| - 1 :: claims[k].height <= claims[k + 1].height
    ensures ok <==> forall k | 0 <= k < |claims| - 1 :: Plausible(claims[k], claims[k + 1], rules)
  {
    hide Val, MaxWorkAfter, MostWork;
    ok := true;
    if claims == [] { return; }
    for k := 1 to |claims|
      invariant ok <==> forall j | 0 <= j < k - 1 :: Plausible(claims[j], claims[j + 1], rules)
    {
      var start, stop := claims[k - 1], claims[k];
      var maxWork := MaxCumulativePowAfter(start.work, start.difficulty, stop.height - start.height, rules);
      if !(maxWork >= Val(stop.work) && Val(start.work) <= Val(stop.work)) { ok := false; }
      WithinMostWork(stop.work, Val(start.work), Val(start.difficulty), stop.height - start.height, rules);
      assert Plausible(start, stop, rules) <==> maxWork >= Val(stop.work) && Val(start.work) <= Val(stop.work);
    }
  }

  /** The work has not fallen, and has not grown beyond what the blocks in between can bring. */
  ghost predicate Plausible(start: Claim, stop: Claim, rules: Rules)
    requires rules.target > 0 && start.height <= stop.height
  {
    && Val(start.work) <= Val(stop.work)
    && Val(stop.work) as real <= MostWork(Val(start.work), Val(start.difficulty), stop.height - start.height, rules)
  }

  /** Neither the cap nor rounding matters to work that fits its limbs. */
  lemma WithinMostWork(claimed: ProofOfWork, work: nat, difficulty: nat, blocks: nat, rules: Rules)
    requires rules.target > 0
    ensures Val(claimed) <= MaxWorkAfter(work, difficulty, blocks, rules) <==> Val(claimed) as real <= MostWork(work, difficulty, blocks, rules)
  {
    hide Val, Base, MaxWorkAfter, MostWork;
    ValBound(claimed);
    MaxWorkIsMostWork(work, difficulty, blocks, rules);
  }

  /** On the main network nobody can claim to have doubled a work of a million in one block of difficulty 16000. */
  lemma ImplausibleClaim(start: Claim, stop: Claim)
    requires Val(start.work) == 1_000_000 && Val(start.difficulty) == 16_000 && stop.height == start.height + 1
    ensures Plausible(start, stop, Rules(384_000, 60_000)) <==> 1_000_000 <= Val(stop.work) <= 1_016_844
  {
    hide Val, MaxFactor;
    var rules := Rules(384_000, 60_000);
    var f := MaxFactor(rules);
    MaxFactorIs(rules);
    assert SumOfPowers(f, 1) == RealPower(f, 1) == f * RealPower(f, 0) == f;
    assert 6_144_000_000_000.0 * f == 6_468_006_144_000.0;
  }

  function ClaimOf(h: Header): Claim {
    Claim(h.height, h.work, h.difficulty)
  }

  /** Claims taken from a chain, at any heights, are plausible as long as its work has not wrapped around. */
  lemma HonestClaimsPlausible(headers: seq<Header>, rules: Rules, i: nat, j: nat)
    requires Sensible(rules) && IsChain(headers, rules) && ModerateChain(headers, rules) && i <= j < |headers|
    requires forall k | i <= k < j :: Val(headers[k].work) + Val(headers[k + 1].difficulty) < Base(POW_NUM_LIMBS)
    ensures headers[j].height == headers[i].height + (j - i)
    ensures Plausible(ClaimOf(headers[i]), ClaimOf(headers[j]), rules)
  {
    hide Val, Base, MaxWorkAfter, MostWork, NextDifficulty, Moderate;
    HeightsCount(headers, rules, i, j);
    SubchainIsChain(headers, rules, i, j);
    SubchainIsModerate(headers, rules, i, j);
    HonestWorkWithinBound(headers[i..j + 1], rules);
    WithinMostWork(headers[j].work, Val(headers[i].work), Val(headers[i].difficulty), j - i, rules);
    WorkGrowsAlong(headers, rules, i, j);
  }

  lemma {:induction false} HeightsCount(headers: seq<Header>, rules: Rules, i: nat, j: nat)
    requires rules.target > 0 && IsChain(headers, rules) && i <= j < |headers|
    ensures headers[j].height == headers[i].height + (j - i)
  {
    if i < j {
      HeightsCount(headers, rules, i, j - 1);
      assert Succeeds(headers[j - 1], headers[j], rules);
    }
  }

  lemma SubchainIsChain(headers: seq<Header>, rules: Rules, i: nat, j: nat)
    requires rules.target > 0 && IsChain(headers, rules) && i <= j < |headers|
    ensures IsChain(headers[i..j + 1], rules)
  {
    hide Val, Succeeds;
    DifficultyAboveMinimum(headers, rules, i);
    var part := headers[i..j + 1];
    forall k | 0 <= k < |part| - 1 ensures Succeeds(part[k], part[k + 1], rules) {
      assert Succeeds(headers[i + k], headers[i + k + 1], rules);
    }
  }

  lemma SubchainIsModerate(headers: seq<Header>, rules: Rules, i: nat, j: nat)
    requires rules.target > 0 && ModerateChain(headers, rules) && i <= j < |headers|
    ensures ModerateChain(headers[i..j + 1], rules)
  {
    hide ModerateStep;
    var part := headers[i..j + 1];
    forall k | 0 <= k < |part| - 1 ensures ModerateStep(part[k], part[k + 1], rules) {
      assert ModerateStep(headers[i + k], headers[i + k + 1], rules);
    }
  }

  lemma {:induction false} WorkGrowsAlong(headers: seq<Header>, rules: Rules, i: nat, j: nat)
    requires rules.target > 0 && IsChain(headers, rules) && i <= j < |headers|
    requires forall k | i <= k < j :: Val(headers[k].work) + Val(headers[k + 1].difficulty) < Base(POW_NUM_LIMBS)
    ensures Val(headers[i].work) <= Val(headers[j].work)
  {
    hide Val, Base;
    if i < j {
      WorkGrowsAlong(headers, rules, i, j - 1);
      WorkGrows(headers, rules, j - 1);
    }
  }
}
