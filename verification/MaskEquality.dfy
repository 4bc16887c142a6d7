/** SynchronizationBitMask::eq, and when it is equality of the sets that two masks denote. */
module MaskEqualities {
  import opened Words
  import opened SynchronizationBitMasks

  predicate AgreeBelow(v: Word, w: Word, bound: nat) {
    forall bit | 0 <= bit < bound && bit < 32 :: v[bit] == w[bit]
  }

  /** The comparison of the limbs of two masks with these bounds. When the upper bound is inside a limb, that limb is
      compared up to the bound, and of the limbs the first upper / 32 - 1 are compared in full: a count that does not
      take the offset of the first stored limb into account. */
  predicate EqualLimbs(lower: nat, upper: nat, a: seq<Word>, b: seq<Word>)
    requires lower <= upper && |a| == |b| == NumLimbs(lower, upper)
  {
    if lower == upper then true
    else if upper % 32 == 0 then a == b
    else
      var last := upper / 32;
      var compared := if last == 0 then 0 else if last - 1 < |a| then last - 1 else |a|;
      && a[..compared] == b[..compared]
      && AgreeBelow(a[last - lower / 32], b[last - lower / 32], upper % 32)
  }

  predicate Equal(a: SynchronizationBitMask, b: SynchronizationBitMask)
    requires a.Shaped() && b.Shaped()
    reads a, b
  {
    a.lowerBound == b.lowerBound && a.upperBound == b.upperBound && EqualLimbs(a.lowerBound, a.upperBound, a.limbs, b.limbs)
  }

  /** The limbs of an incomplete mask. */
  ghost predicate Canonical(lower: nat, upper: nat, limbs: seq<Word>) {
    lower < upper && |limbs| == NumLimbs(lower, upper) && !Has(lower, upper, limbs, lower) && NoStrayBits(lower, upper, limbs)
  }

  ghost predicate SameSet(lower: nat, upper: nat, a: seq<Word>, b: seq<Word>)
    requires Canonical(lower, upper, a) && Canonical(lower, upper, b)
  {
    forall i: nat :: Has(lower, upper, a, i) <==> Has(lower, upper, b, i)
  }

  /** Bounds for which a limb that can differ between the bounds is not compared. With 31 and an upper bound below 64
      the skipped limb has only the bit of the lower bound itself. */
  predicate SkipsLimb(lower: nat, upper: nat) {
    lower < 32 <= upper && upper % 32 != 0 && !(lower == 31 && upper < 64)
  }

  /** Bounds for which no bit below the lower bound is compared. */
  predicate IgnoresLowBits(lower: nat, upper: nat) {
    lower % 32 == 0 || (lower < 32 <= upper < 64 && upper % 32 != 0)
  }

  // ---------- equal masks and equal sets ----------

  /** Equal masks are the same set, for all masks with these bounds, exactly if no limb is skipped. */
  lemma EqualIsSameSetIff(lower: nat, upper: nat)
    requires lower < upper
    ensures (forall a, b | Canonical(lower, upper, a) && Canonical(lower, upper, b) && EqualLimbs(lower, upper, a, b) ::
               SameSet(lower, upper, a, b)) <==> !SkipsLimb(lower, upper)
  {
    hide EqualLimbs, SameSet, Has, NoStrayBits;
    if SkipsLimb(lower, upper) {
      var a, b := SkippedPair(lower, upper);
      assert !SameSet(lower, upper, a, b);
    } else {
      forall a, b | Canonical(lower, upper, a) && Canonical(lower, upper, b) && EqualLimbs(lower, upper, a, b)
        ensures SameSet(lower, upper, a, b)
      {
        EqualIsSameSet(lower, upper, a, b);
      }
    }
  }

  lemma EqualIsSameSet(lower: nat, upper: nat, a: seq<Word>, b: seq<Word>)
    requires Canonical(lower, upper, a) && Canonical(lower, upper, b)
    requires EqualLimbs(lower, upper, a, b) && !SkipsLimb(lower, upper)
    ensures SameSet(lower, upper, a, b)
  {
    hide NoStrayBits;
    forall i: nat ensures Has(lower, upper, a, i) <==> Has(lower, upper, b, i) {
      if lower < i < upper { EqualAt(lower, upper, a, b, i); }
    }
  }

  lemma EqualAt(lower: nat, upper: nat, a: seq<Word>, b: seq<Word>, i: nat)
    requires lower < i < upper && |a| == |b| == NumLimbs(lower, upper)
    requires EqualLimbs(lower, upper, a, b) && !SkipsLimb(lower, upper)
    ensures a[i / 32 - lower / 32][i % 32] == b[i / 32 - lower / 32][i % 32]
  {
    var k, last := i / 32 - lower / 32, upper / 32;
    if upper % 32 != 0 && i / 32 != last {
      assert i / 32 < last;
      var compared := if last - 1 < |a| then last - 1 else |a|;
      assert lower / 32 >= 1;
      assert a[..compared][k] == b[..compared][k];
    }
  }

  lemma ZeroLimbs(lower: nat, upper: nat) returns (zeros: seq<Word>)
    requires lower < upper
    ensures |zeros| == NumLimbs(lower, upper) && NoStrayBits(lower, upper, zeros)
    ensures (forall k | 0 <= k < |zeros| :: zeros[k] == AsWord(0)) && forall i: nat :: Has(lower, upper, zeros, i) <==> i < lower
  {
    ZeroWord();
    zeros := seq(NumLimbs(lower, upper), _ => AsWord(0));
  }

  /** Two masks that differ in the last bit of the limb before the last, which is not compared. */
  lemma SkippedPair(lower: nat, upper: nat) returns (a: seq<Word>, b: seq<Word>)
    requires lower < upper && SkipsLimb(lower, upper)
    ensures Canonical(lower, upper, a) && Canonical(lower, upper, b)
    ensures EqualLimbs(lower, upper, a, b) && !SameSet(lower, upper, a, b)
  {
    var last := upper / 32;
    a := ZeroLimbs(lower, upper);
    b := a[last - 1 := a[last - 1][31 := true]];
    var i: nat := 32 * last - 1;
    assert i / 32 == last - 1 && i % 32 == 31 && lower < i < upper;
    SetBit(lower, upper, a, i);
    assert Has(lower, upper, b, i) && !Has(lower, upper, a, i);
  }

  /** Of complete masks, exactly those with the same upper bound are equal, which are those that are the same set. */
  lemma CompleteEqualIff(a: SynchronizationBitMask, b: SynchronizationBitMask)
    requires a.Valid() && b.Valid() && a.IsComplete() && b.IsComplete()
    ensures Equal(a, b) <==> a.upperBound == b.upperBound
    ensures Equal(a, b) <==> forall i: nat :: a.Contains(i) <==> b.Contains(i)
  {
    a.CompleteIff();
    b.CompleteIff();
    if a.upperBound < b.upperBound {
      assert b.Contains(a.upperBound);
    } else if b.upperBound < a.upperBound {
      assert a.Contains(b.upperBound);
    }
  }

  /** Masks that are the same set are equal, for all masks with these bounds, exactly if no low bit is compared. */
  lemma SameSetIsEqualIff(lower: nat, upper: nat)
    requires lower < upper
    ensures (forall a, b | Canonical(lower, upper, a) && Canonical(lower, upper, b) && SameSet(lower, upper, a, b) ::
               EqualLimbs(lower, upper, a, b)) <==> IgnoresLowBits(lower, upper)
  {
    hide EqualLimbs, SameSet, Has, NoStrayBits;
    if IgnoresLowBits(lower, upper) {
      forall a, b | Canonical(lower, upper, a) && Canonical(lower, upper, b) && SameSet(lower, upper, a, b)
        ensures EqualLimbs(lower, upper, a, b)
      {
        SameSetIsEqual(lower, upper, a, b);
      }
    } else {
      var a, b := LowBitPair(lower, upper);
      assert !EqualLimbs(lower, upper, a, b);
    }
  }

  /** The same set with the same low bits is the same mask. */
  lemma SameBits(lower: nat, upper: nat, a: seq<Word>, b: seq<Word>, k: nat, bit: nat)
    requires Canonical(lower, upper, a) && Canonical(lower, upper, b) && SameSet(lower, upper, a, b)
    requires k < |a| && bit < 32
    ensures 32 * (lower / 32 + k) + bit >= lower ==> a[k][bit] == b[k][bit]
  {
    var i := 32 * (lower / 32 + k) + bit;
    assert i / 32 == lower / 32 + k && i % 32 == bit;
    if lower <= i < upper {
      assert Has(lower, upper, a, i) <==> Has(lower, upper, b, i);
    }
  }

  lemma SameSetIsEqual(lower: nat, upper: nat, a: seq<Word>, b: seq<Word>)
    requires Canonical(lower, upper, a) && Canonical(lower, upper, b) && SameSet(lower, upper, a, b)
    requires IgnoresLowBits(lower, upper) || (FilledLow(lower, upper, a) && FilledLow(lower, upper, b))
    ensures EqualLimbs(lower, upper, a, b)
  {
    forall k: nat, bit: nat | k < |a| && bit < 32 ensures 32 * (lower / 32 + k) + bit >= lower ==> a[k][bit] == b[k][bit] {
      SameBits(lower, upper, a, b, k, bit);
    }
    if lower % 32 == 0 || (FilledLow(lower, upper, a) && FilledLow(lower, upper, b)) {
      forall k | 0 <= k < |a| ensures a[k] == b[k] {
        forall bit | 0 <= bit < 32 ensures a[k][bit] == b[k][bit] {
          assert 32 * (lower / 32 + k) + bit >= lower || k == 0;
        }
      }
      assert a == b;
    }
  }

  /** Two masks that differ in the bit below the lower bound. */
  lemma LowBitPair(lower: nat, upper: nat) returns (a: seq<Word>, b: seq<Word>)
    requires lower < upper && !IgnoresLowBits(lower, upper)
    ensures Canonical(lower, upper, a) && Canonical(lower, upper, b)
    ensures SameSet(lower, upper, a, b) && !EqualLimbs(lower, upper, a, b)
  {
    ZeroWord();
    var low := lower % 32 - 1;
    a := ZeroLimbs(lower, upper);
    b := a[0 := AsWord(0)[low := true]];
    assert b[0][low] && !a[0][low];
    if upper % 32 != 0 && upper / 32 != lower / 32 {
      var last := upper / 32;
      var compared := if last - 1 < |a| then last - 1 else |a|;
      assert compared > 0 && a[..compared][0] != b[..compared][0];
    }
  }

  // ---------- inputs ----------

  /** Two masks from 0 to 40 that differ at 31 compare equal. */
  method EqualMasksDiffer() returns (equal: bool, differ: bool)
    ensures equal && differ
  {
    var a := new SynchronizationBitMask(0, 40);
    var b := new SynchronizationBitMask(0, 40);
    b.Set(31);
    assert b.lowerBound == 0 by {
      assert !b.Contains(0);
    }
    assert forall i: nat :: Has(0, 40, a.limbs, i) <==> a.Contains(i);
    assert forall i: nat :: Has(0, 40, b.limbs, i) <==> b.Contains(i);
    UnsetLimb(a.limbs, b.limbs);
    equal, differ := Equal(a, b), a.Contains(31) != b.Contains(31);
  }

  lemma UnsetLimb(a: seq<Word>, b: seq<Word>)
    requires |a| == |b| == NumLimbs(0, 40)
    requires forall i: nat | i != 31 :: Has(0, 40, a, i) <==> Has(0, 40, b, i)
    ensures EqualLimbs(0, 40, a, b)
  {
    forall bit | 0 <= bit < 8 ensures a[1][bit] == b[1][bit] {
      assert Has(0, 40, a, 32 + bit) <==> Has(0, 40, b, 32 + bit);
    }
  }

  /** A mask that was complete at 40 and has been expanded to 64 is the same set as a new one from 40 to 64, and the two
      compare unequal. */
  method SameMasksUnequal() returns (equal: bool)
    ensures !equal
  {
    var full := new SynchronizationBitMask(0, 40);
    var _ := full.SetRange(0, 39);
    var expanded := full.Expand(64);
    var fresh' := new SynchronizationBitMask(40, 64);
    assert forall i: nat :: expanded.Contains(i) <==> fresh'.Contains(i);
    assert fresh'.limbs[0][7] && !expanded.limbs[0][7];
    equal := Equal(expanded, fresh');
  }
}
