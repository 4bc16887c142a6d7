/** Difficulty and cumulative proof of work: numbers in 32-bit limbs, lowest first. */
module Difficulties {
  import opened Arithmetic
  import opened Fields
  import opened Options

  const LIMB := 0x1_0000_0000
  const DIFFICULTY_NUM_LIMBS := 5
  const POW_NUM_LIMBS := 6
  const MINIMUM: nat := 6000

  // ---------- limbs ----------

  type U32 = x: nat | x < LIMB

  function Base(n: nat): (b: nat)
    ensures b > 0
  {
    if n == 0 then 1 else LIMB * Base(n - 1)
  }

  function Val(limbs: seq<U32>): nat {
    if limbs == [] then 0 else limbs[0] + LIMB * Val(limbs[1..])
  }

  type Difficulty = d: seq<U32> | |d| == DIFFICULTY_NUM_LIMBS witness [0, 0, 0, 0, 0]
  type ProofOfWork = w: seq<U32> | |w| == POW_NUM_LIMBS witness [0, 0, 0, 0, 0, 0]

  lemma {:induction false} ValAppend(s: seq<U32>, x: U32)
    ensures Val(s + [x]) == Val(s) + x * Base(|s|)
    decreases |s|
  {
    if s == [] {
      assert s + [x] == [x];
    } else {
      assert (s + [x])[1..] == s[1..] + [x];
      ValAppend(s[1..], x);
    }
  }

  lemma ValTake(s: seq<U32>, i: nat)
    requires i < |s|
    ensures Val(s[..i + 1]) == Val(s[..i]) + s[i] * Base(i)
  {
    assert s[..i + 1] == s[..i] + [s[i]];
    ValAppend(s[..i], s[i]);
  }

  lemma {:induction false} ValBound(s: seq<U32>)
    ensures Val(s) < Base(|s|)
    decreases |s|
  {
    if s != [] { ValBound(s[1..]); }
  }

  /** Ordering of limbs from the most significant one down is the ordering of the numbers. */
  datatype Ordering = Less | Equal | Greater

  function CompareLimb(x: U32, y: U32): Ordering {
    if x < y then Less else if x == y then Equal else Greater
  }

  /** Ord::cmp, which folds over the limbs from the last to the first. */
  method Compare(a: seq<U32>, b: seq<U32>) returns (o: Ordering)
    requires |a| == |b|
    ensures o.Less? <==> Val(a) < Val(b)
    ensures o.Equal? <==> Val(a) == Val(b)
    ensures o.Equal? <==> a == b
  {
    o := Equal;
    var i := |a|;
    while i > 0
      invariant 0 <= i <= |a|
      invariant o.Equal? ==> a[i..] == b[i..]
      invariant o.Less? ==> Val(a[i..]) < Val(b[i..])
      invariant o.Greater? ==> Val(a[i..]) > Val(b[i..])
    {
      i := i - 1;
      assert a[i..][1..] == a[i + 1..] && b[i..][1..] == b[i + 1..];
      if o.Equal? { o := CompareLimb(a[i], b[i]); }
    }
    assert a[0..] == a && b[0..] == b;
  }

  /** Difficulty::new raises anything below the minimum to it. */
  method NewDifficulty(limbs: Difficulty) returns (d: Difficulty)
    ensures Val(d) == if Val(limbs) <= MINIMUM then MINIMUM else Val(limbs)
    ensures Val(limbs) >= MINIMUM ==> d == limbs
  {
    var minimum: Difficulty := [6000, 0, 0, 0, 0];
    var lteMinimum := true;
    for i := 0 to DIFFICULTY_NUM_LIMBS
      invariant lteMinimum <==> forall j | 0 <= j < i :: limbs[j] <= minimum[j]
    {
      if limbs[i] > minimum[i] { lteMinimum := false; }
    }
    FiveLimbs(limbs);
    FiveLimbs(minimum);
    if lteMinimum {
      assert limbs[0] <= minimum[0] && limbs[1] <= minimum[1] && limbs[2] <= minimum[2] && limbs[3] <= minimum[3] && limbs[4] <= minimum[4];
      assert Val(limbs) == MINIMUM ==> limbs == minimum;
    }
    d := if lteMinimum then minimum else limbs;
  }

  lemma FiveLimbs(d: Difficulty)
    ensures Val(d) == d[0] + LIMB * (d[1] + LIMB * (d[2] + LIMB * (d[3] + LIMB * d[4])))
  {
    assert d[1..][1..] == d[2..] && d[2..][1..] == d[3..] && d[3..][1..] == d[4..] && d[4..][1..] == [];
    assert Val(d[4..]) == d[4];
    assert Val(d[3..]) == d[3] + LIMB * Val(d[4..]);
    assert Val(d[2..]) == d[2] + LIMB * Val(d[3..]);
    assert Val(d[1..]) == d[1] + LIMB * Val(d[2..]);
  }

  // ---------- fixed point multiplication ----------

  lemma {:induction false} ProductBound(x: nat, y: nat, a: nat, b: nat)
    requires x <= a && y <= b
    ensures x * y <= a * b
  {
    assert x * y <= a * y by { assert (a - x) * y >= 0; }
    assert a * y <= a * b by { assert a * (b - y) >= 0; }
  }

  /** A 64-bit sum of a carry and a product. Where its upper half is as large as it can be, its lower half is 0. */
  lemma SumFits(carry: U32, x: U32, y: U32)
    ensures var sum := carry + x * y;
            && sum < LIMB * LIMB && sum / LIMB < LIMB
            && (sum / LIMB == LIMB - 1 ==> sum % LIMB == 0)
  {
    ProductBound(x, y, LIMB - 1, LIMB - 1);
  }

  lemma MulStep(v: nat, b: nat, x: nat, m: nat, before: nat, carry: nat, sum: nat)
    requires before + carry * b == v * m && sum == carry + x * m
    ensures before + (sum % LIMB) * b + (sum / LIMB) * (LIMB * b) == (v + x * b) * m
  {
    assert sum * b == (sum % LIMB) * b + (sum / LIMB) * (LIMB * b);
    assert (carry + x * m) * b == carry * b + (x * b) * m;
  }

  lemma NoLimbs()
    ensures Val([]) == 0
    ensures forall i: nat {:trigger Base(i + 1)} :: Base(i + 1) == LIMB * Base(i)
  {
  }

  /** First pass: the product of all limbs with the fractional part of the factor, in one more limb. */
  method MulLow(d: Difficulty, lo: U32, result: array<U32>)
    requires result.Length == POW_NUM_LIMBS
    modifies result
    ensures Val(result[..]) == Val(d) * lo
  {
    hide Val, Base;
    NoLimbs();
    var carry: U32 := 0;
    for i := 0 to DIFFICULTY_NUM_LIMBS
      invariant Val(result[..i]) + carry * Base(i) == Val(d[..i]) * lo
    {
      SumFits(carry, d[i], lo);
      var sum := carry + d[i] * lo;
      assert sum < LIMB * LIMB;
      ValTake(d, i);
      MulStep(Val(d[..i]), Base(i), d[i], lo, Val(result[..i]), carry, sum);
      ghost var was := result[..i];
      result[i] := sum % LIMB;
      assert result[..i] == was;
      ValTake(result[..], i);
      carry := sum / LIMB;
    }
    assert d[..DIFFICULTY_NUM_LIMBS] == d;
    ghost var low := result[..DIFFICULTY_NUM_LIMBS];
    result[DIFFICULTY_NUM_LIMBS] := carry;
    assert result[..DIFFICULTY_NUM_LIMBS] == low && result[..] == low + [carry];
    ValAppend(low, carry);
  }

  lemma AddStep(v: nat, b: nat, x: nat, m: nat, before: nat, old0: nat, oldDigit: U32, carry: nat, sum: nat)
    requires before + carry * (LIMB * b) == old0 + LIMB * (v * m) && sum == carry + x * m
    ensures var total := oldDigit + sum % LIMB;
            before + (total % LIMB) * (LIMB * b) + (sum / LIMB + total / LIMB) * (LIMB * (LIMB * b)) ==
            old0 + oldDigit * (LIMB * b) + LIMB * ((v + x * b) * m)
  {
    var c := LIMB * b;
    var total := oldDigit + sum % LIMB;
    SplitLimbs(total, c);
    SplitLimbs(sum, c);
    Distributed(v, b, x, m, carry);
    assert (sum / LIMB + total / LIMB) * (LIMB * c) == (sum / LIMB) * (LIMB * c) + (total / LIMB) * (LIMB * c);
    assert total * c == oldDigit * c + (sum % LIMB) * c;
  }

  lemma SplitLimbs(x: nat, c: nat)
    ensures (x % LIMB) * c + (x / LIMB) * (LIMB * c) == x * c
  {
    assert x == x % LIMB + (x / LIMB) * LIMB;
  }

  lemma Distributed(v: nat, b: nat, x: nat, m: nat, carry: nat)
    ensures (carry + x * m) * (LIMB * b) == carry * (LIMB * b) + LIMB * ((x * b) * m)
    ensures (v + x * b) * m == v * m + (x * b) * m
  {
  }

  /** Second pass: add the product with the integer part, one limb up. */
  method AddHigh(d: Difficulty, hi: U32, result: array<U32>) returns (carry: U32)
    requires result.Length == POW_NUM_LIMBS
    modifies result
    ensures Val(result[..]) + carry * Base(POW_NUM_LIMBS) == old(Val(result[..])) + LIMB * (Val(d) * hi)
  {
    hide Val, Base;
    NoLimbs();
    carry := 0;
    ghost var was := result[..];
    for i := 0 to DIFFICULTY_NUM_LIMBS
      invariant result[i + 1..] == was[i + 1..]
      invariant Val(result[..i + 1]) + carry * Base(i + 1) == Val(was[..i + 1]) + LIMB * (Val(d[..i]) * hi)
    {
      SumFits(carry, d[i], hi);
      var sum := carry + d[i] * hi;
      assert sum < LIMB * LIMB;
      var total := result[i + 1] + sum % LIMB;
      ValTake(d, i);
      ValTake(was, i + 1);
      assert result[i + 1] == was[i + 1];
      AddStep(Val(d[..i]), Base(i), d[i], hi, Val(result[..i + 1]), Val(was[..i + 1]), was[i + 1], carry, sum);
      ghost var low := result[..i + 1];
      result[i + 1] := total % LIMB;
      assert result[..i + 1] == low;
      ValTake(result[..], i + 1);
      carry := sum / LIMB + total / LIMB;
    }
    assert d[..DIFFICULTY_NUM_LIMBS] == d && was[..POW_NUM_LIMBS] == was && result[..POW_NUM_LIMBS] == result[..];
  }

  function Raised(v: nat): nat {
    if v <= MINIMUM then MINIMUM else v
  }

  /** Difficulty::safe_mul_fixed_point_rational: the rounded down product, wrapped around, and the overflow. */
  method SafeMulFixedPointRational(d: Difficulty, lo: U32, hi: U32) returns (r: Difficulty, overflow: U32)
    ensures var product := Val(d) * (hi * LIMB + lo) / LIMB;
            Val(r) == Raised(product % Base(DIFFICULTY_NUM_LIMBS)) && overflow == product / Base(DIFFICULTY_NUM_LIMBS)
  {
    hide Val, Base;
    var result := new U32[POW_NUM_LIMBS];
    MulLow(d, lo, result);
    overflow := AddHigh(d, hi, result);
    var limbs: Difficulty := result[1..];
    assert limbs == result[..][1..];
    r := NewDifficulty(limbs);
    FactorParts(Val(d), lo, hi);
    DropLowest(result[..], overflow, Val(d) * (hi * LIMB + lo));
  }

  lemma FactorParts(v: nat, lo: nat, hi: nat)
    ensures v * lo + LIMB * (v * hi) == v * (hi * LIMB + lo)
  {
  }

  lemma DropLowest(limbs: ProofOfWork, overflow: U32, product: nat)
    requires Val(limbs) + overflow * Base(POW_NUM_LIMBS) == product
    ensures product / LIMB % Base(DIFFICULTY_NUM_LIMBS) == Val(limbs[1..])
    ensures product / LIMB / Base(DIFFICULTY_NUM_LIMBS) == overflow
  {
    var v := Val(limbs[1..]);
    var b := Base(DIFFICULTY_NUM_LIMBS);
    assert overflow * Base(POW_NUM_LIMBS) == LIMB * (overflow * b);
    ValBound(limbs[1..]);
    QuotientUnique(product, LIMB, v + overflow * b, limbs[0]);
    QuotientUnique(product / LIMB, b, overflow, v);
  }

  // ---------- the controller ----------

  const TWO_TO_THE_63 := 0x8000_0000_0000_0000
  const TWO_TO_THE_64 := 0x1_0000_0000_0000_0000

  /** A cast from u64 to i64. */
  function AsI64(x: FieldElement): int {
    if x < TWO_TO_THE_63 then x else x - TWO_TO_THE_64
  }

  predicate NoI64Overflow(deltaT: FieldElement, target: FieldElement) {
    -TWO_TO_THE_63 <= AsI64(deltaT) - AsI64(target) < TWO_TO_THE_63
  }

  /** For targets below 2^63 the subtraction overflows for block times from 2^63 up to 2^63 + target. Larger ones count as
      negative, and the block times that overflow are those below 2^63 that are 2^63 or more above them. */
  lemma NoI64OverflowIff(deltaT: FieldElement, target: FieldElement)
    ensures target < TWO_TO_THE_63 ==> (NoI64Overflow(deltaT, target) <==> deltaT < TWO_TO_THE_63 || TWO_TO_THE_63 + target <= deltaT)
    ensures TWO_TO_THE_63 <= target ==> (NoI64Overflow(deltaT, target) <==> deltaT < target - TWO_TO_THE_63 || TWO_TO_THE_63 <= deltaT)
  {
  }

  /** A difference of two i64, which wraps around in builds without overflow checks. */
  function WrapI64(x: int): int {
    (x + TWO_TO_THE_63) % TWO_TO_THE_64 - TWO_TO_THE_63
  }

  /** How much longer than the target a block time is. */
  function AbsoluteError(deltaT: FieldElement, target: FieldElement): int {
    WrapI64(AsI64(deltaT) - AsI64(target))
  }

  /** The error is the true difference up to 2^63, and negative from there on. */
  lemma AbsoluteErrorValue(deltaT: FieldElement, target: FieldElement)
    requires target <= LIMB
    ensures AbsoluteError(deltaT, target) == if deltaT < TWO_TO_THE_63 + target then deltaT - target else deltaT - target - TWO_TO_THE_64
    ensures NoI64Overflow(deltaT, target) <==> !(TWO_TO_THE_63 <= deltaT < TWO_TO_THE_63 + target)
  {
  }

  function Clamp(x: int, low: int, high: int): int {
    if x < low then low else if x > high then high else x
  }

  /** The adjustment factor, with 32 fractional bits. */
  function Factor(deltaT: FieldElement, target: FieldElement): int
    requires target > 0
  {
    var relativeError := AbsoluteError(deltaT, target) * (LIMB / target);
    LIMB + -Clamp(relativeError, -LIMB, 4 * LIMB) / 16
  }

  /** The factor lies between 3/4 and 17/16. */
  lemma FactorInRange(deltaT: FieldElement, target: FieldElement)
    requires target > 0
    ensures 3 * LIMB <= 4 * Factor(deltaT, target)
    ensures 16 * Factor(deltaT, target) <= 17 * LIMB
  {
  }

  /** A difficulty scaled by a factor, within the minimum and the maximum. */
  function Scaled(v: nat, factor: nat): nat {
    var product := v * factor / LIMB;
    if product >= Base(DIFFICULTY_NUM_LIMBS) then Base(DIFFICULTY_NUM_LIMBS) - 1 else Raised(product)
  }

  function NextDifficulty(v: nat, deltaT: FieldElement, target: FieldElement, previousHeight: nat): nat
    requires target > 0
  {
    FactorInRange(deltaT, target);
    if previousHeight == 0 then v else Scaled(v, Factor(deltaT, target))
  }

  lemma MaximumValue(d: Difficulty)
    requires d == [LIMB - 1, LIMB - 1, LIMB - 1, LIMB - 1, LIMB - 1]
    ensures Val(d) == Base(DIFFICULTY_NUM_LIMBS) - 1
  {
    FiveLimbs(d);
    assert Base(1) == LIMB && Base(2) == LIMB * Base(1) && Base(3) == LIMB * Base(2) && Base(4) == LIMB * Base(3) && Base(5) == LIMB * Base(4);
  }

  lemma NoOverflowNoWrap(product: nat)
    ensures var b := Base(DIFFICULTY_NUM_LIMBS);
            && (product / b > 0 <==> product >= b)
            && (product < b ==> product % b == product)
  {
    var b := Base(DIFFICULTY_NUM_LIMBS);
    if product < b {
      QuotientUnique(product, b, 0, product);
    } else {
      assert product == (product / b) * b + product % b;
    }
  }

  /** None stands for a panic, which builds with overflow checks raise when the i64 subtraction overflows. */
  method DifficultyControl(newTimestamp: FieldElement, oldTimestamp: FieldElement, oldDifficulty: Difficulty,
                           target: FieldElement, previousHeight: nat, overflowChecks: bool) returns (r: Option<Difficulty>)
    requires target > 0
    ensures r.None? <==> overflowChecks && previousHeight > 0 && !NoI64Overflow(FieldSub(newTimestamp, oldTimestamp), target)
    ensures r.Some? ==>
              Val(r.value) == NextDifficulty(Val(oldDifficulty), FieldSub(newTimestamp, oldTimestamp), target, previousHeight)
  {
    hide Val, Base;
    if previousHeight == 0 { return Some(oldDifficulty); }
    var deltaT := FieldSub(newTimestamp, oldTimestamp);
    if overflowChecks && !NoI64Overflow(deltaT, target) { return None; }
    var absoluteError := AbsoluteError(deltaT, target);
    var relativeError := absoluteError * (LIMB / target);
    var clampedError := Clamp(relativeError, -LIMB, 4 * LIMB);
    var onePlusPTimesError := LIMB + -clampedError / 16;
    FactorInRange(deltaT, target);
    assert onePlusPTimesError == Factor(deltaT, target) > 0;
    var lo, hi := onePlusPTimesError % LIMB, onePlusPTimesError / LIMB;
    var newDifficulty, overflow := SafeMulFixedPointRational(oldDifficulty, lo, hi);
    assert hi * LIMB + lo == onePlusPTimesError;
    NoOverflowNoWrap(Val(oldDifficulty) * onePlusPTimesError / LIMB);
    if overflow > 0 {
      newDifficulty := [LIMB - 1, LIMB - 1, LIMB - 1, LIMB - 1, LIMB - 1];
      MaximumValue(newDifficulty);
    }
    r := Some(newDifficulty);
  }

  lemma ProductMonotone(x: int, y: int, q: nat)
    requires x <= y
    ensures x * q <= y * q
  {
    assert (y - x) * q >= 0;
  }

  lemma FactorMonotone(a: FieldElement, b: FieldElement, target: FieldElement)
    requires target > 0 && AbsoluteError(a, target) <= AbsoluteError(b, target)
    ensures Factor(a, target) >= Factor(b, target)
  {
    hide AbsoluteError;
    ProductMonotone(AbsoluteError(a, target), AbsoluteError(b, target), LIMB / target);
    ClampMonotone(AbsoluteError(a, target) * (LIMB / target), AbsoluteError(b, target) * (LIMB / target));
  }

  lemma ClampMonotone(x: int, y: int)
    requires x <= y
    ensures -Clamp(x, -LIMB, 4 * LIMB) / 16 >= -Clamp(y, -LIMB, 4 * LIMB) / 16
  {
  }

  /** A target above 2^32 milliseconds switches the controller off. */
  lemma NoControl(deltaT: FieldElement, target: FieldElement)
    requires target > LIMB
    ensures Factor(deltaT, target) == LIMB
  {
    QuotientUnique(LIMB, target, 0, LIMB);
  }

  /** A block time so long that it counts as negative raises the difficulty by a sixteenth. */
  lemma HugeFactor(deltaT: FieldElement, target: FieldElement)
    requires 0 < target <= LIMB && TWO_TO_THE_63 + target <= deltaT
    ensures Factor(deltaT, target) == LIMB + LIMB / 16
  {
    hide AbsoluteError;
    AbsoluteErrorValue(deltaT, target);
    WholeQuotient(target);
    ProductMonotone(AbsoluteError(deltaT, target), -LIMB, LIMB / target);
    assert -LIMB * (LIMB / target) <= -LIMB;
  }

  lemma WholeQuotient(target: FieldElement)
    requires 0 < target <= LIMB
    ensures LIMB / target >= 1 && target * (LIMB / target) <= LIMB
    ensures target * (LIMB / target) == LIMB <==> LIMB % target == 0
  {
    assert LIMB == target * (LIMB / target) + LIMB % target;
  }

  /** Any other block time raises it by less, except 0 when the target divides 2^32. */
  lemma OrdinaryFactor(deltaT: FieldElement, target: FieldElement)
    requires 0 < target <= LIMB && deltaT < TWO_TO_THE_63 + target
    ensures Factor(deltaT, target) <= LIMB + LIMB / 16
    ensures Factor(deltaT, target) == LIMB + LIMB / 16 <==> deltaT == 0 && LIMB % target == 0
  {
    hide AbsoluteError;
    AbsoluteErrorValue(deltaT, target);
    WholeQuotient(target);
    var q := LIMB / target;
    if deltaT > 0 {
      ProductMonotone(1 - target, deltaT - target, q);
      assert (1 - target) * q == q - target * q;
    } else {
      assert (0 - target) * q == -(target * q);
    }
  }

  /** Of two factors in range, the larger one gives no lower difficulty; and 2^32 is a difficulty that tells them apart. */
  lemma FactorsCompared(f: nat, g: nat)
    requires 3 * LIMB <= 4 * f && 16 * f <= 17 * LIMB && 3 * LIMB <= 4 * g && 16 * g <= 17 * LIMB
    ensures f >= g ==> forall v: nat :: Scaled(v, f) >= Scaled(v, g)
    ensures Scaled(LIMB, f) >= Scaled(LIMB, g) ==> f >= g
  {
    hide Base;
    MinimumBelowMaximum();
    if f >= g {
      forall v: nat ensures Scaled(v, f) >= Scaled(v, g) {
        ProductMonotone(g, f, v);
      }
    } else {
      FactorItself(f);
      FactorItself(g);
    }
  }

  lemma FactorItself(f: nat)
    requires 3 * LIMB <= 4 * f && 16 * f <= 17 * LIMB
    ensures Scaled(LIMB, f) == f
  {
    hide Base;
    MinimumBelowMaximum();
    assert LIMB * f / LIMB == f;
    assert f < Base(DIFFICULTY_NUM_LIMBS) by { TwoLimbsFit(); }
  }

  lemma TwoLimbsFit()
    ensures 2 * LIMB < Base(DIFFICULTY_NUM_LIMBS)
  {
    assert Base(1) == LIMB && Base(2) == LIMB * Base(1) && Base(3) == LIMB * Base(2) && Base(4) == LIMB * Base(3) && Base(5) == LIMB * Base(4);
  }

  /** Exactly when a longer block time b never means a higher difficulty than a: when b is short enough not to count as
      negative, or a counts as negative too, or the controller is off, or a already has the largest factor. */
  lemma NonIncreasingIff(a: FieldElement, b: FieldElement, target: FieldElement, height: nat)
    requires target > 0 && a <= b && height > 0
    ensures (forall v: nat :: NextDifficulty(v, a, target, height) >= NextDifficulty(v, b, target, height)) <==>
            || b < TWO_TO_THE_63 + target
            || TWO_TO_THE_63 + target <= a
            || LIMB < target
            || (a == 0 && LIMB % target == 0)
  {
    hide Factor, Scaled;
    FactorInRange(a, target);
    FactorInRange(b, target);
    var f: nat, g: nat := Factor(a, target), Factor(b, target);
    FactorsCompared(f, g);
    assert forall v: nat :: NextDifficulty(v, a, target, height) == Scaled(v, f);
    assert forall v: nat :: NextDifficulty(v, b, target, height) == Scaled(v, g);
    if forall v: nat :: NextDifficulty(v, a, target, height) >= NextDifficulty(v, b, target, height) {
      assert NextDifficulty(LIMB, a, target, height) >= NextDifficulty(LIMB, b, target, height);
    }
    if target > LIMB {
      NoControl(a, target);
      NoControl(b, target);
    } else if b < TWO_TO_THE_63 + target || TWO_TO_THE_63 + target <= a {
      AbsoluteErrorValue(a, target);
      AbsoluteErrorValue(b, target);
      FactorMonotone(a, b, target);
    } else {
      HugeFactor(b, target);
      OrdinaryFactor(a, target);
    }
  }

  /** From 2^63 milliseconds above the target on, the block time counts as negative and the difficulty rises. */
  lemma HugeBlockTimeRaisesDifficulty()
    ensures var target: FieldElement, huge: FieldElement := 384_000, TWO_TO_THE_63 + 384_000;
            && NoI64Overflow(huge, target) && NoI64Overflow(target, target)
            && NextDifficulty(16_000, target, target, 1) == 16_000
            && NextDifficulty(16_000, huge, target, 1) == 17_000
  {
    var target: FieldElement, huge: FieldElement := 384_000, TWO_TO_THE_63 + 384_000;
    assert Factor(target, target) == LIMB;
    assert LIMB / target == 11_184;
    assert AbsoluteError(huge, target) == -TWO_TO_THE_63;
    assert Factor(huge, target) == LIMB + LIMB / 16;
    assert Base(DIFFICULTY_NUM_LIMBS) >= LIMB;
  }

  /** The new difficulty lies between 3/4 and 17/16 of the old one, apart from rounding, minimum and maximum. */
  lemma ScalesWithinBounds(v: nat, deltaT: FieldElement, target: FieldElement, height: nat)
    requires target > 0 && MINIMUM <= v < Base(DIFFICULTY_NUM_LIMBS)
    ensures var next := NextDifficulty(v, deltaT, target, height);
            && MINIMUM <= next < Base(DIFFICULTY_NUM_LIMBS)
            && (next == Base(DIFFICULTY_NUM_LIMBS) - 1 || 3 * v < 4 * (next + 1))
            && (next == MINIMUM || 16 * next <= 17 * v)
  {
    hide Base, Factor;
    MinimumBelowMaximum();
    FactorInRange(deltaT, target);
    ProductWithinBounds(v, Factor(deltaT, target));
  }

  lemma ProductWithinBounds(v: nat, f: nat)
    requires 3 * LIMB <= 4 * f && 16 * f <= 17 * LIMB
    ensures 3 * v < 4 * (v * f / LIMB + 1) && 16 * (v * f / LIMB) <= 17 * v
  {
    ProductMonotone(3 * LIMB, 4 * f, v);
    ProductMonotone(16 * f, 17 * LIMB, v);
    Regrouped(v, f);
    RoundedDown(v, v * f);
  }

  lemma Regrouped(v: nat, f: nat)
    ensures 4 * f * v == 4 * (v * f) && 16 * f * v == 16 * (v * f)
  {
  }

  lemma RoundedDown(v: nat, p: nat)
    requires 3 * (v * LIMB) <= 4 * p && 16 * p <= 17 * (v * LIMB)
    ensures 3 * v < 4 * (p / LIMB + 1) && 16 * (p / LIMB) <= 17 * v
  {
  }

  lemma MinimumBelowMaximum()
    ensures MINIMUM < Base(DIFFICULTY_NUM_LIMBS) - 1
  {
    assert Base(1) == LIMB && Base(2) == LIMB * Base(1) && Base(3) == LIMB * Base(2) && Base(4) == LIMB * Base(3) && Base(5) == LIMB * Base(4);
  }

  // ---------- what the controller does ----------

  /** The relative error, with 32 fractional bits: how much longer than the target the block time is, in targets. */
  function RelativeError(deltaT: FieldElement, target: FieldElement): int
    requires target > 0
  {
    (deltaT - target) * (LIMB / target)
  }

  /** The factor is one minus a sixteenth of the relative error, rounded down, between 3/4 and 17/16. The lower end is
      reached exactly from four targets too long on, up to rounding, the upper end by a whole target too short. */
  lemma FactorLaw(deltaT: FieldElement, target: FieldElement)
    requires 0 < target <= LIMB && deltaT < TWO_TO_THE_63 + target
    ensures var e, f := RelativeError(deltaT, target), Factor(deltaT, target);
            && -LIMB <= e
            && (e <= 4 * LIMB ==> 16 * LIMB - 16 < 16 * f + e <= 16 * LIMB)
            && (4 * f == 3 * LIMB <==> e > 4 * LIMB - 16)
            && (f == LIMB <==> -16 < e <= 0)
  {
    hide AbsoluteError;
    AbsoluteErrorValue(deltaT, target);
    WholeQuotient(target);
    var q := LIMB / target;
    ProductMonotone(0 - target, deltaT - target, q);
    assert (0 - target) * q == -(target * q);
  }

  /** The scaled difficulty is the product, rounded down, within minimum and maximum. */
  lemma ScaledLaw(v: nat, f: nat)
    ensures var r := Scaled(v, f);
            && MINIMUM <= r < Base(DIFFICULTY_NUM_LIMBS)
            && (r == MINIMUM || r * LIMB <= v * f)
            && (r == Base(DIFFICULTY_NUM_LIMBS) - 1 || v * f < (r + 1) * LIMB)
  {
    hide Base;
    MinimumBelowMaximum();
    var p := v * f;
    assert p == p / LIMB * LIMB + p % LIMB;
  }

  /** Past genesis, a block that takes longer than the target lowers every difficulty above the minimum, and one that does
      not never lowers it. So it is for all block times that do not count as negative. */
  lemma LongBlocksLowerDifficulty(v: nat, deltaT: FieldElement, target: FieldElement, height: nat)
    requires 0 < target <= LIMB && deltaT < TWO_TO_THE_63 + target && height > 0 && MINIMUM <= v < Base(DIFFICULTY_NUM_LIMBS)
    ensures NextDifficulty(v, deltaT, target, height) < v <==> deltaT > target && v > MINIMUM
  {
    hide Base, Factor, Scaled, RelativeError;
    FactorLaw(deltaT, target);
    FactorInRange(deltaT, target);
    ErrorSign(deltaT, target);
    ScaledAgainstOne(v, Factor(deltaT, target));
  }

  lemma ScaledAgainstOne(v: nat, f: nat)
    requires MINIMUM <= v < Base(DIFFICULTY_NUM_LIMBS)
    ensures Scaled(v, f) < v <==> f < LIMB && v > MINIMUM
  {
    hide Base, Scaled;
    ScaledLaw(v, f);
    if f < LIMB {
      ProductMonotone(f, LIMB - 1, v);
    } else {
      ProductMonotone(LIMB, f, v);
    }
  }

  lemma ErrorSign(deltaT: FieldElement, target: FieldElement)
    requires 0 < target <= LIMB
    ensures deltaT > target <==> RelativeError(deltaT, target) > 0
  {
    WholeQuotient(target);
    var q := LIMB / target;
    if deltaT > target {
      ProductMonotone(1, deltaT - target, q);
    } else {
      ProductMonotone(deltaT - target, 0, q);
    }
  }

  /** Ten times the target takes the difficulty down to three quarters, from 16000 to 12000. */
  lemma LongBlockTimeLowersDifficulty()
    ensures NextDifficulty(16_000, 3_840_000, 384_000, 1) == 12_000
  {
    var deltaT: FieldElement, target: FieldElement := 3_840_000, 384_000;
    assert LIMB / target == 11_184;
    FactorLaw(deltaT, target);
    assert RelativeError(deltaT, target) > 4 * LIMB;
    assert Base(DIFFICULTY_NUM_LIMBS) >= LIMB;
  }
}
