/** Which of a range of items are present: everything below the lower bound, nothing from the upper
    bound on, and a bit for each item in between. */
module SynchronizationBitMasks {
  import opened Words

  /** The number of limbs that hold the bits of [lower, upper). */
  function NumLimbs(lower: nat, upper: nat): nat {
    if lower >= upper then 0 else (upper - 1) / 32 - lower / 32 + 1
  }

  /** Membership according to bounds and limbs. */
  predicate Has(lower: nat, upper: nat, limbs: seq<Word>, i: nat)
    requires lower < upper ==> |limbs| == NumLimbs(lower, upper)
  {
    i < lower || (i < upper && limbs[i / 32 - lower / 32][i % 32])
  }

  /** No bit is set at or above the upper bound. */
  predicate NoStrayBits(lower: nat, upper: nat, limbs: seq<Word>) {
    forall i {:trigger i / 32} | upper <= i < 32 * (lower / 32 + |limbs|) && lower / 32 <= i / 32 < lower / 32 + |limbs| ::
      !limbs[i / 32 - lower / 32][i % 32]
  }

  /** The bits below the lower bound are set in the first limb. */
  predicate FilledLow(lower: nat, upper: nat, limbs: seq<Word>)
    requires lower < upper ==> |limbs| == NumLimbs(lower, upper)
  {
    lower < upper ==> forall b | 0 <= b < lower % 32 :: limbs[0][b]
  }

  class SynchronizationBitMask {
    var lowerBound: nat
    var upperBound: nat
    var limbs: seq<Word>

    predicate WellFormed()
      reads this
    {
      lowerBound <= upperBound && (lowerBound < upperBound ==> |limbs| == NumLimbs(lowerBound, upperBound))
    }

    predicate Contains(i: nat)
      reads this
      requires WellFormed()
    {
      Has(lowerBound, upperBound, limbs, i)
    }

    /** The lower bound is the least missing index, or the upper bound. */
    ghost predicate Valid()
      reads this
    {
      WellFormed() && |limbs| == NumLimbs(lowerBound, upperBound) && !Contains(lowerBound)
    }

    predicate Shaped()
      reads this
    {
      lowerBound <= upperBound && |limbs| == NumLimbs(lowerBound, upperBound)
    }

    ghost predicate Clean()
      reads this
    {
      NoStrayBits(lowerBound, upperBound, limbs)
    }

    /** The stored bits below the lower bound are set. So it is in a new mask, but not after expanding a complete one. */
    ghost predicate Filled()
      reads this
      requires WellFormed()
    {
      FilledLow(lowerBound, upperBound, limbs)
    }

    constructor Raw(lowerBound: nat, upperBound: nat, limbs: seq<Word>)
      ensures this.lowerBound == lowerBound && this.upperBound == upperBound && this.limbs == limbs
    {
      this.lowerBound, this.upperBound, this.limbs := lowerBound, upperBound, limbs;
    }

    /** All bits from the lower bound on are clear. */
    constructor (lowerBound: nat, upperBound: nat)
      requires lowerBound < upperBound
      ensures Valid() && Clean() && Filled() && this.lowerBound == lowerBound && this.upperBound == upperBound
      ensures forall i: nat :: Contains(i) <==> i < lowerBound
    {
      this.lowerBound, this.upperBound := lowerBound, upperBound;
      var zero := AsWord(0);
      ZeroWord();
      var first := zero;
      for k := 0 to lowerBound % 32
        invariant forall b | 0 <= b < 32 :: first[b] <==> b < k
      {
        first := first[k := true];
      }
      var zeros := seq(NumLimbs(lowerBound, upperBound) - 1, _ => zero);
      this.limbs := [first] + zeros;
      new;
      forall i: nat | lowerBound <= i && i / 32 < lowerBound / 32 + |limbs| ensures !limbs[i / 32 - lowerBound / 32][i % 32] {
        if i / 32 > lowerBound / 32 { assert limbs[i / 32 - lowerBound / 32] == zeros[i / 32 - lowerBound / 32 - 1]; }
      }
    }

    /** Raise the lower bound to the first missing index. */
    method Canonize()
      requires WellFormed()
      modifies this
      ensures Valid() && upperBound == old(upperBound)
      ensures forall i: nat :: Contains(i) <==> old(Contains(i))
      ensures old(Clean()) ==> Clean()
      ensures old(Filled()) ==> Filled()
    {
      hide NoStrayBits, Has, NumLimbs, Rest, HasAllBelow, FilledLow;
      ghost var l, u, all := lowerBound, upperBound, limbs;
      RaiseNone(l, u, all);
      while Contains(lowerBound)
        invariant l <= lowerBound <= upperBound == u && WellFormed()
        invariant limbs == Rest(l, lowerBound, all)
        invariant HasAllBelow(l, u, all, lowerBound)
        decreases upperBound - lowerBound
      {
        RaiseStep(l, lowerBound, u, all);
        lowerBound := lowerBound + 1;
        if lowerBound % 32 == 0 {
          limbs := limbs[1..];
        }
      }
      RaiseDone(l, lowerBound, u, all);
      RaiseKeepsFilled(l, lowerBound, u, all);
      if lowerBound == upperBound {
        limbs := [];
      }
    }

    /** Set one bit. The bound may be out of date, as in the middle of SetRange. */
    method Set(index: nat)
      requires Shaped() && index < upperBound
      modifies this
      ensures Shaped() && upperBound == old(upperBound)
      ensures Valid() || (lowerBound == old(lowerBound) > index && !old(Valid()))
      ensures forall i: nat :: Contains(i) <==> old(Contains(i)) || i == index
      ensures old(Clean()) ==> Clean()
      ensures old(Filled()) ==> Filled()
    {
      hide NoStrayBits, Has, NumLimbs, FilledLow;
      if index < lowerBound {
        BelowLower(lowerBound, upperBound, limbs, index);
        return;
      }
      SetBit(lowerBound, upperBound, limbs, index);
      var k := index / 32 - lowerBound / 32;
      limbs := limbs[k := limbs[k][index % 32 := true]];
      Canonize();
    }

    /** Set the bits from min to max, both inclusive: whole limbs at once, the ends bit by bit. Panics, before anything
        has changed, exactly if a whole limb lies below the stored ones, where the offset computation underflows. */
    method SetRange(min: nat, max: nat) returns (underflows: bool)
      requires Valid() && min <= max < upperBound
      modifies this
      ensures underflows <==> (min + 31) / 32 < max / 32 && (min + 31) / 32 < old(lowerBound) / 32
      ensures Valid() && upperBound == old(upperBound)
      ensures underflows ==> lowerBound == old(lowerBound) && limbs == old(limbs)
      ensures !underflows ==> forall i: nat :: Contains(i) <==> old(Contains(i)) || min <= i <= max
      ensures old(Clean()) ==> Clean()
      ensures old(Filled()) ==> Filled()
    {
      hide NoStrayBits, Has, NumLimbs, FilledLow;
      var firstFull, afterLastFull := (min + 31) / 32, max / 32;
      underflows := SetFullLimbs(firstFull, afterLastFull);
      if underflows { return; }
      SetEach(min, if max < firstFull * 32 then max else firstFull * 32);
      SetEach(if min > afterLastFull * 32 then min else afterLastFull * 32, max);
      Set(max);
    }

    /** Fill whole limbs, without raising the lower bound. */
    method SetFullLimbs(firstFull: nat, afterLastFull: nat) returns (underflows: bool)
      requires Shaped() && afterLastFull * 32 < upperBound
      modifies this`limbs
      ensures underflows <==> firstFull < afterLastFull && firstFull < lowerBound / 32
      ensures Shaped() && (afterLastFull <= firstFull || underflows ==> limbs == old(limbs))
      ensures !underflows ==> forall i: nat :: Contains(i) <==> old(Contains(i)) || firstFull * 32 <= i < afterLastFull * 32
      ensures old(Clean()) ==> Clean()
      ensures old(Filled()) ==> Filled()
    {
      hide NoStrayBits, Has, NumLimbs, FilledLow;
      var offset := lowerBound / 32;
      var limb := firstFull;
      while limb < afterLastFull
        invariant firstFull <= limb && (limb <= afterLastFull || limb == firstFull) && Shaped()
        invariant limb == firstFull ==> limbs == old(limbs)
        invariant limb > firstFull ==> firstFull >= offset
        invariant forall i: nat :: Contains(i) <==> old(Contains(i)) || firstFull * 32 <= i < limb * 32
        invariant old(Clean()) ==> Clean()
        invariant old(Filled()) ==> Filled()
      {
        if limb < offset { return true; }
        NotComplete(lowerBound, upperBound, limb);
        FillLimb(lowerBound, upperBound, limbs, limb);
        limbs := limbs[limb - offset := Ones()];
        limb := limb + 1;
      }
      underflows := false;
    }

    method SetEach(start: nat, end: nat)
      requires Shaped() && end <= upperBound
      modifies this
      ensures Shaped() && upperBound == old(upperBound)
      ensures Valid() || lowerBound == old(lowerBound)
      ensures forall i: nat :: Contains(i) <==> old(Contains(i)) || start <= i < end
      ensures old(Clean()) ==> Clean()
      ensures old(Filled()) ==> Filled()
    {
      hide NoStrayBits, Has, NumLimbs, FilledLow;
      var index := start;
      while index < end
        invariant start <= index && (index <= end || index == start) && Shaped() && upperBound == old(upperBound)
        invariant Valid() || lowerBound == old(lowerBound)
        invariant forall i: nat :: Contains(i) <==> old(Contains(i)) || start <= i < index
        invariant old(Clean()) ==> Clean()
        invariant old(Filled()) ==> Filled()
      {
        Set(index);
        index := index + 1;
      }
    }

    /** Invert the bits between the bounds. */
    method Not() returns (r: SynchronizationBitMask)
      requires Valid()
      ensures fresh(r) && r.Valid() && r.Clean() && r.upperBound == upperBound
      ensures forall i: nat :: r.Contains(i) <==> i < lowerBound || (i < upperBound && !Contains(i))
    {
      hide NoStrayBits, Has, NumLimbs;
      var inverted := InvertedLimbs(limbs);
      var bound := upperBound % 32;
      if inverted != [] && bound != 0 {
        var last := ClearFrom(inverted[|inverted| - 1], bound);
        inverted := inverted[|inverted| - 1 := last];
      }
      InvertedMembers(lowerBound, upperBound, limbs, inverted);
      r := new SynchronizationBitMask.Raw(lowerBound, upperBound, inverted);
      r.Canonize();
    }

    method BitOr(rhs: SynchronizationBitMask) returns (r: SynchronizationBitMask)
      requires Valid() && Clean() && rhs.Valid() && rhs.Clean()
      ensures fresh(r) && r.Valid() && r.Clean()
      ensures r.upperBound == if upperBound > rhs.upperBound then upperBound else rhs.upperBound
      ensures forall i: nat :: r.Contains(i) <==> Contains(i) || rhs.Contains(i)
    {
      hide NoStrayBits, Has, NumLimbs, LimbAt;
      var upper := if upperBound > rhs.upperBound then upperBound else rhs.upperBound;
      var lower := if lowerBound > rhs.lowerBound then lowerBound else rhs.lowerBound;
      if upper == 0 || lower == upper {
        CompleteMembers(lowerBound, upperBound, limbs, rhs.lowerBound, rhs.upperBound, rhs.limbs);
        r := new SynchronizationBitMask.Raw(lower, upper, []);
        return;
      }
      var offset, onset := lower / 32, (upper - 1) / 32;
      UnionCount(lower, upper);
      var union := UnionLimbs(lowerBound, upperBound, limbs, rhs.lowerBound, rhs.upperBound, rhs.limbs, offset, onset - offset + 1);
      UnionMembers(lowerBound, upperBound, limbs, rhs.lowerBound, rhs.upperBound, rhs.limbs, union);
      r := new SynchronizationBitMask.Raw(lower, upper, union);
      r.Canonize();
    }

    /** Raise the upper bound. The new bits are clear. */
    method Expand(newUpperBound: nat) returns (r: SynchronizationBitMask)
      requires Valid() && Clean() && newUpperBound >= upperBound
      ensures fresh(r) && r.Valid() && r.Clean() && r.upperBound == newUpperBound
      ensures r.lowerBound == lowerBound && forall i: nat :: r.Contains(i) <==> Contains(i)
      ensures !IsComplete() && Filled() ==> r.Filled()
      ensures IsComplete() && newUpperBound > upperBound && upperBound % 32 != 0 ==> !r.limbs[0][upperBound % 32 - 1]
    {
      hide NoStrayBits, Has;
      var numLimbs := if lowerBound == newUpperBound then 0 else 1 + (newUpperBound - 1) / 32 - lowerBound / 32;
      var extra := if numLimbs < |limbs| then 0 else numLimbs - |limbs|;
      ZeroWord();
      ExpandedMembers(lowerBound, upperBound, limbs, newUpperBound, limbs + seq(extra, _ => AsWord(0)));
      r := new SynchronizationBitMask.Raw(lowerBound, newUpperBound, limbs + seq(extra, _ => AsWord(0)));
    }

    /** A mask whose zeros are items that the other has and we do not: all of them except those at the other's lower
        boundary whose bits are clear. None is missed if the other is filled and incomplete. If it is complete, exactly
        the items at its lower boundary are. */
    method Reconcile(other: SynchronizationBitMask) returns (r: SynchronizationBitMask)
      requires Valid() && other.Valid() && other.Clean()
      ensures fresh(r) && r.Valid() && r.upperBound == upperBound
      ensures forall i: nat | i < upperBound && !r.Contains(i) :: !Contains(i) && other.Contains(i)
      ensures forall i: nat | i < upperBound && !Contains(i) && other.Contains(i) ::
                !r.Contains(i) <==> !AtLowerBoundary(other.lowerBound, i) || (!other.IsComplete() && other.limbs[0][i % 32])
      ensures other.Filled() && !other.IsComplete() ==>
                forall i: nat | i < upperBound :: !r.Contains(i) <==> !Contains(i) && other.Contains(i)
    {
      hide NoStrayBits, Has, NumLimbs, LimbAt;
      var offset, onset := lowerBound / 32, (if upperBound == 0 then 0 else upperBound - 1) / 32;
      var count := if onset < offset then 0 else onset - offset + 1;
      NeededCount(lowerBound, upperBound);
      var needed := NeededLimbs(lowerBound, upperBound, limbs, other.lowerBound, other.upperBound, other.limbs, offset, count);
      NeededMembers(lowerBound, upperBound, limbs, other.lowerBound, other.upperBound, other.limbs, needed);
      r := new SynchronizationBitMask.Raw(lowerBound, upperBound, needed);
      r.Canonize();
    }

    /** Whether everything below the upper bound is there. */
    predicate IsComplete()
      reads this
    {
      lowerBound == upperBound
    }

    /** Complete means that nothing below the upper bound is missing. */
    lemma CompleteIff()
      requires Valid()
      ensures IsComplete() <==> forall i: nat | i < upperBound :: Contains(i)
    {
      assert lowerBound < upperBound ==> !Contains(lowerBound);
    }

    /** The number of set bits between the bounds. */
    method PopCount() returns (count: nat)
      requires Valid() && Clean()
      ensures count == |set i: nat | lowerBound <= i < upperBound && Contains(i)|
    {
      hide Has, NoStrayBits;
      count := 0;
      ghost var first := 32 * (lowerBound / 32);
      CountNothing(lowerBound, upperBound, limbs);
      for k := 0 to |limbs|
        invariant count == CountIn(lowerBound, upperBound, limbs, first + 32 * k)
      {
        CountLimb(lowerBound, upperBound, limbs, k);
        var limb := limbs[k];
        if limb == AsWord(0) {
        } else if k == 0 && lowerBound % 32 != 0 {
          count := count + CountOnes(KeepFrom(limb, lowerBound % 32));
        } else if k == |limbs| - 1 && upperBound % 32 != 0 {
          count := count + CountOnes(KeepBelow(limb, upperBound % 32));
        } else {
          count := count + CountOnes(limb);
        }
      }
      CountAll(lowerBound, upperBound, limbs);
      assert (set i: nat | lowerBound <= i < upperBound && Contains(i)) ==
             set i: nat | lowerBound <= i < upperBound && Has(lowerBound, upperBound, limbs, i);
    }

    /** The indices of unset bits between the bounds, in order. */
    method ToVecComplement() returns (list: seq<nat>)
      requires Valid()
      ensures forall i: nat :: i in list <==> lowerBound <= i < upperBound && !Contains(i)
      ensures forall j, k | 0 <= j < k < |list| :: list[j] < list[k]
    {
      hide Has;
      list := [];
      for i := lowerBound to upperBound
        invariant forall j, k | 0 <= j < k < |list| :: list[j] < list[k]
        invariant forall k | 0 <= k < |list| :: list[k] in list
        invariant forall j: nat :: j in list <==> lowerBound <= j < i && !Contains(j)
      {
        if !Contains(i) { list := list + [i]; }
      }
    }

    /** Sample unset indices, whatever the random numbers are. After too many misses, sample from the list of unset ones. */
    method SampleMany(count: nat, random: nat -> nat) returns (elements: seq<nat>)
      requires Valid() && !IsComplete()
      ensures |elements| == count && forall e | e in elements :: lowerBound <= e < upperBound && !Contains(e)
    {
      hide Has;
      elements := [];
      var misses, draws := 0, 0;
      while |elements| != count
        invariant |elements| <= count && misses <= 10 * (1 + |elements|)
        invariant forall e | e in elements :: lowerBound <= e < upperBound && !Contains(e)
        decreases count - |elements|, 10 * (1 + |elements|) - misses
      {
        var end := if random(draws) % 2 == 0 && lowerBound + 10 < upperBound then lowerBound + 10 else upperBound;
        var index := RandomRange(random, draws + 1, lowerBound, end);
        draws := draws + 2;
        if !Contains(index) {
          elements := elements + [index];
        } else {
          misses := misses + 1;
          if misses > 10 * (1 + |elements|) {
            var remainder := SampleManyDensified(count - |elements|, random, draws);
            elements := elements + remainder;
            return;
          }
        }
      }
    }

    method SampleManyDensified(count: nat, random: nat -> nat, start: nat) returns (elements: seq<nat>)
      requires Valid() && !IsComplete()
      ensures |elements| == count && forall e | e in elements :: lowerBound <= e < upperBound && !Contains(e)
    {
      hide Has;
      var list := ToVecComplement();
      assert lowerBound in list;
      elements := [];
      while |elements| != count
        invariant |elements| <= count
        invariant forall e | e in elements :: lowerBound <= e < upperBound && !Contains(e)
        decreases count - |elements|
      {
        var pick := RandomRange(random, start + |elements|, 0, |list|);
        assert list[pick] in list;
        elements := elements + [list[pick]];
      }
    }
  }

  /** A missed item: the other is complete at 40, we are missing 35, and 35 is not reported. */
  method ReconcileMisses() returns (reported: bool)
    ensures !reported
  {
    var own := new SynchronizationBitMask(33, 64);
    var other := new SynchronizationBitMask(0, 40);
    var _ := other.SetRange(0, 39);
    assert other.IsComplete() && other.Contains(35) && !own.Contains(35) && AtLowerBoundary(40, 35);
    var r := own.Reconcile(other);
    reported := !r.Contains(35);
  }

  /** A range that underflows: everything below 64 is there, and setting 0 to 70 fills limb 0. */
  method RangeBelowUnderflows() returns (underflows: bool)
    ensures underflows
  {
    var mask := new SynchronizationBitMask(64, 200);
    underflows := mask.SetRange(0, 70);
  }

  /** A number from the half-open range. */
  function RandomRange(random: nat -> nat, draw: nat, start: nat, end: nat): (r: nat)
    requires start < end
    ensures start <= r < end
  {
    start + random(draw) % (end - start)
  }

  // ---------- counting ----------

  /** u32::count_ones */
  function CountOnes(w: Bits): nat {
    if w == [] then 0 else (if w[0] then 1 else 0) + CountOnes(w[1..])
  }

  function KeepFrom(w: Word, k: nat): (r: Word)
    ensures forall b | 0 <= b < 32 :: r[b] <==> w[b] && b >= k
  {
    seq(32, b requires 0 <= b < 32 => w[b] && b >= k)
  }

  function KeepBelow(w: Word, k: nat): (r: Word)
    ensures forall b | 0 <= b < 32 :: r[b] <==> w[b] && b < k
  {
    seq(32, b requires 0 <= b < 32 => w[b] && b < k)
  }

  /** Members from the lower bound on, up to an end. */
  ghost function CountIn(lower: nat, upper: nat, limbs: seq<Word>, end: nat): nat
    requires lower < upper ==> |limbs| == NumLimbs(lower, upper)
  {
    if end == 0 then 0 else CountIn(lower, upper, limbs, end - 1) + if end - 1 >= lower && Has(lower, upper, limbs, end - 1) then 1 else 0
  }

  lemma {:induction false} CountNone(lower: nat, upper: nat, limbs: seq<Word>, end: nat)
    requires (lower < upper ==> |limbs| == NumLimbs(lower, upper)) && end <= lower
    ensures CountIn(lower, upper, limbs, end) == 0
  {
    if end > 0 { CountNone(lower, upper, limbs, end - 1); }
  }

  lemma CountNothing(lower: nat, upper: nat, limbs: seq<Word>)
    requires lower < upper ==> |limbs| == NumLimbs(lower, upper)
    ensures CountIn(lower, upper, limbs, 32 * (lower / 32)) == 0
  {
    CountNone(lower, upper, limbs, 32 * (lower / 32));
  }

  /** A word whose bits are the members of one stretch counts them. */
  lemma {:induction false} CountStretch(lower: nat, upper: nat, limbs: seq<Word>, base: nat, w: Bits)
    requires lower < upper ==> |limbs| == NumLimbs(lower, upper)
    requires forall b | 0 <= b < |w| :: w[b] <==> base + b >= lower && Has(lower, upper, limbs, base + b)
    ensures CountIn(lower, upper, limbs, base + |w|) == CountIn(lower, upper, limbs, base) + CountOnes(w)
    decreases |w|
  {
    hide Has;
    if w != [] {
      forall b | 0 <= b < |w| - 1 ensures w[1..][b] <==> base + 1 + b >= lower && Has(lower, upper, limbs, base + 1 + b) {
        assert w[1..][b] == w[b + 1];
      }
      CountStretch(lower, upper, limbs, base + 1, w[1..]);
      assert w[0] <==> base + 0 >= lower && Has(lower, upper, limbs, base + 0);
    }
  }

  lemma {:induction false} NoOnes(w: Bits)
    requires forall b | 0 <= b < |w| :: !w[b]
    ensures CountOnes(w) == 0
  {
    if w != [] { NoOnes(w[1..]); }
  }

  /** What one limb adds to the count, masked as the code masks it. */
  lemma CountLimb(lower: nat, upper: nat, limbs: seq<Word>, k: nat)
    requires lower < upper && |limbs| == NumLimbs(lower, upper) && k < |limbs| && NoStrayBits(lower, upper, limbs)
    ensures var base := 32 * (lower / 32) + 32 * k;
            CountIn(lower, upper, limbs, base + 32) == CountIn(lower, upper, limbs, base) +
              if limbs[k] == AsWord(0) then 0
              else if k == 0 && lower % 32 != 0 then CountOnes(KeepFrom(limbs[k], lower % 32))
              else if k == |limbs| - 1 && upper % 32 != 0 then CountOnes(KeepBelow(limbs[k], upper % 32))
              else CountOnes(limbs[k])
  {
    hide CountIn, CountOnes, AsWord, Has, NoStrayBits, NumLimbs;
    var base := 32 * (lower / 32) + 32 * k;
    forall b | 0 <= b < 32
      ensures base + b >= lower && Has(lower, upper, limbs, base + b) <==> limbs[k][b] && base + b >= lower && base + b < upper
      ensures limbs[k][b] ==> base + b < upper
      ensures (k > 0 ==> base + b >= lower) && (k == 0 ==> (base + b >= lower <==> b >= lower % 32))
      ensures k == |limbs| - 1 && upper % 32 != 0 ==> (base + b < upper <==> b < upper % 32)
    {
      StrayBit(lower, upper, limbs, k, b);
    }
    CountStretch(lower, upper, limbs, base, KeepFrom(limbs[k], if k == 0 then lower % 32 else 0));
    MaskedLimb(limbs[k], if k == 0 then lower % 32 else 0);
    if k == |limbs| - 1 && upper % 32 != 0 { assert KeepBelow(limbs[k], upper % 32) == limbs[k]; }
  }

  lemma StrayBit(lower: nat, upper: nat, limbs: seq<Word>, k: nat, b: nat)
    requires lower < upper && |limbs| == NumLimbs(lower, upper) && k < |limbs| && b < 32 && NoStrayBits(lower, upper, limbs)
    ensures var i := 32 * (lower / 32) + 32 * k + b;
            && (i >= lower && Has(lower, upper, limbs, i) <==> limbs[k][b] && i >= lower && i < upper)
            && (limbs[k][b] ==> i < upper)
            && (k > 0 ==> i >= lower) && (k == 0 ==> (i >= lower <==> b >= lower % 32))
            && (k == |limbs| - 1 && upper % 32 != 0 ==> (i < upper <==> b < upper % 32))
  {
    var i := 32 * (lower / 32) + 32 * k + b;
    assert i / 32 == lower / 32 + k && i % 32 == b;
  }

  lemma MaskedLimb(w: Word, k: nat)
    ensures k == 0 ==> KeepFrom(w, k) == w
    ensures w == AsWord(0) ==> CountOnes(KeepFrom(w, k)) == 0
  {
    ZeroWord();
    if w == AsWord(0) { NoOnes(KeepFrom(w, k)); }
  }

  lemma {:induction false} CountIsCardinality(lower: nat, upper: nat, limbs: seq<Word>, end: nat)
    requires lower < upper ==> |limbs| == NumLimbs(lower, upper)
    ensures CountIn(lower, upper, limbs, end) == |set i: nat | lower <= i < end && Has(lower, upper, limbs, i)|
  {
    hide Has;
    var s := set i: nat | lower <= i < end && Has(lower, upper, limbs, i);
    if end > 0 {
      CountIsCardinality(lower, upper, limbs, end - 1);
      var rest := set i: nat | lower <= i < end - 1 && Has(lower, upper, limbs, i);
      if end - 1 >= lower && Has(lower, upper, limbs, end - 1) {
        assert s == rest + {end - 1};
      } else {
        assert s == rest;
      }
    }
  }

  lemma CountAll(lower: nat, upper: nat, limbs: seq<Word>)
    requires lower <= upper && |limbs| == NumLimbs(lower, upper)
    ensures CountIn(lower, upper, limbs, 32 * (lower / 32) + 32 * |limbs|) == |set i: nat | lower <= i < upper && Has(lower, upper, limbs, i)|
  {
    var end := 32 * (lower / 32) + 32 * |limbs|;
    CountIsCardinality(lower, upper, limbs, end);
    assert (set i: nat | lower <= i < end && Has(lower, upper, limbs, i)) == set i: nat | lower <= i < upper && Has(lower, upper, limbs, i);
  }

  // ---------- single bits and limbs ----------

  lemma BelowLower(lower: nat, upper: nat, limbs: seq<Word>, i: nat)
    requires i < lower && (lower < upper ==> |limbs| == NumLimbs(lower, upper))
    ensures Has(lower, upper, limbs, i)
  {
  }

  lemma SetBit(lower: nat, upper: nat, limbs: seq<Word>, index: nat)
    requires lower <= index < upper && |limbs| == NumLimbs(lower, upper)
    ensures 0 <= index / 32 - lower / 32 < |limbs|
    ensures var k := index / 32 - lower / 32;
            var limbs' := limbs[k := limbs[k][index % 32 := true]];
            && (forall i: nat :: Has(lower, upper, limbs', i) <==> Has(lower, upper, limbs, i) || i == index)
            && (NoStrayBits(lower, upper, limbs) ==> NoStrayBits(lower, upper, limbs'))
            && (FilledLow(lower, upper, limbs) ==> FilledLow(lower, upper, limbs'))
  {
  }

  function Ones(): (w: Word)
    ensures forall b | 0 <= b < 32 :: w[b]
  {
    seq(32, _ => true)
  }

  lemma NotComplete(lower: nat, upper: nat, limb: nat)
    requires lower / 32 <= limb && (limb + 1) * 32 < upper
    ensures lower < upper
  {
  }

  lemma FillLimb(lower: nat, upper: nat, limbs: seq<Word>, limb: nat)
    requires lower < upper && lower / 32 <= limb && (limb + 1) * 32 <= upper && |limbs| == NumLimbs(lower, upper)
    ensures 0 <= limb - lower / 32 < |limbs|
    ensures var limbs' := limbs[limb - lower / 32 := Ones()];
            && (forall i: nat :: Has(lower, upper, limbs', i) <==> Has(lower, upper, limbs, i) || limb * 32 <= i < limb * 32 + 32)
            && (NoStrayBits(lower, upper, limbs) ==> NoStrayBits(lower, upper, limbs'))
            && (FilledLow(lower, upper, limbs) ==> FilledLow(lower, upper, limbs'))
  {
  }

  function InvertedLimbs(limbs: seq<Word>): (r: seq<Word>)
    ensures |r| == |limbs| && forall k | 0 <= k < |r| :: r[k] == Inverted(limbs[k])
  {
    seq(|limbs|, k requires 0 <= k < |limbs| => Inverted(limbs[k]))
  }

  /** Clear the bits from a bound on. */
  method ClearFrom(w: Word, bound: nat) returns (r: Word)
    requires bound <= 32
    ensures forall b | 0 <= b < 32 :: r[b] <==> w[b] && b < bound
  {
    r := w;
    for i := bound to 32
      invariant forall b | 0 <= b < 32 :: r[b] <==> w[b] && !(bound <= b < i)
    {
      r := r[i := false];
    }
  }

  lemma InvertedMembers(lower: nat, upper: nat, limbs: seq<Word>, inverted: seq<Word>)
    requires lower <= upper && |limbs| == NumLimbs(lower, upper) == |inverted|
    requires forall k, b | 0 <= k < |limbs| && 0 <= b < 32 ::
               inverted[k][b] <==> !limbs[k][b] && !(k == |limbs| - 1 && upper % 32 != 0 && upper % 32 <= b)
    ensures forall i: nat :: Has(lower, upper, inverted, i) <==> i < lower || (i < upper && !Has(lower, upper, limbs, i))
    ensures NoStrayBits(lower, upper, inverted)
  {
  }

  function UnionLimbs(l1: nat, u1: nat, a: seq<Word>, l2: nat, u2: nat, b: seq<Word>, offset: nat, count: nat): (r: seq<Word>)
    requires |a| == NumLimbs(l1, u1) && |b| == NumLimbs(l2, u2)
    ensures |r| == count && forall k | 0 <= k < count :: r[k] == Or(LimbAt(l1, u1, a, offset + k), LimbAt(l2, u2, b, offset + k))
  {
    seq<Word>(count, k requires 0 <= k < count => Or(LimbAt(l1, u1, a, offset + k), LimbAt(l2, u2, b, offset + k)))
  }

  function NeededLimbs(l1: nat, u1: nat, a: seq<Word>, l2: nat, u2: nat, b: seq<Word>, offset: nat, count: nat): (r: seq<Word>)
    requires |a| == NumLimbs(l1, u1) && |b| == NumLimbs(l2, u2)
    ensures |r| == count
    ensures forall k | 0 <= k < count :: r[k] == Or(LimbAt(l1, u1, a, offset + k), Inverted(LimbAt(l2, u2, b, offset + k)))
  {
    seq<Word>(count, k requires 0 <= k < count => Or(LimbAt(l1, u1, a, offset + k), Inverted(LimbAt(l2, u2, b, offset + k))))
  }

  lemma UnionCount(lower: nat, upper: nat)
    requires lower < upper
    ensures (upper - 1) / 32 - lower / 32 + 1 == NumLimbs(lower, upper)
  {
  }

  lemma NeededCount(lower: nat, upper: nat)
    requires lower <= upper
    ensures var onset := (if upper == 0 then 0 else upper - 1) / 32;
            lower < upper ==> onset >= lower / 32 && onset - lower / 32 + 1 == NumLimbs(lower, upper)
  {
  }

  /** SynchronizationBitMask::limb: limbs below the stored ones are full, those above are empty. */
  function LimbAt(lower: nat, upper: nat, limbs: seq<Word>, index: nat): Word
    requires |limbs| == NumLimbs(lower, upper)
  {
    if index < lower / 32 then Ones()
    else if index <= (if upper == 0 then 0 else upper - 1) / 32 && limbs != [] then limbs[index - lower / 32]
    else AsWord(0)
  }

  /** Below the lower bound but in its limb, where bits may be clear. */
  predicate AtLowerBoundary(lower: nat, i: nat) {
    i < lower && i / 32 == lower / 32
  }

  /** What a bit of any limb says about membership. */
  lemma LimbAtMembers(lower: nat, upper: nat, limbs: seq<Word>, i: nat)
    requires lower <= upper && |limbs| == NumLimbs(lower, upper)
    ensures i >= lower && Has(lower, upper, limbs, i) ==> LimbAt(lower, upper, limbs, i / 32)[i % 32]
    ensures NoStrayBits(lower, upper, limbs) && LimbAt(lower, upper, limbs, i / 32)[i % 32] ==> Has(lower, upper, limbs, i)
    ensures Has(lower, upper, limbs, i) && !AtLowerBoundary(lower, i) ==> LimbAt(lower, upper, limbs, i / 32)[i % 32]
  {
    ZeroWord();
  }

  /** At the lower boundary the bit is the one stored, and clear if nothing is. */
  lemma BoundaryBit(lower: nat, upper: nat, limbs: seq<Word>, i: nat)
    requires lower <= upper && |limbs| == NumLimbs(lower, upper)
    ensures AtLowerBoundary(lower, i) ==> (LimbAt(lower, upper, limbs, i / 32)[i % 32] <==> lower < upper && limbs[0][i % 32])
  {
    ZeroWord();
  }

  // ---------- raising the lower bound ----------

  /** The limbs that are left when the lower bound goes up. */
  ghost function Rest(l: nat, lower: nat, all: seq<Word>): seq<Word> {
    var drop := lower / 32 - l / 32;
    if 0 <= drop <= |all| then all[drop..] else []
  }

  ghost predicate HasAllBelow(l: nat, u: nat, all: seq<Word>, lower: nat)
    requires l < u ==> |all| == NumLimbs(l, u)
  {
    forall i: nat | i < lower :: Has(l, u, all, i)
  }

  lemma RaiseNone(l: nat, u: nat, all: seq<Word>)
    requires l < u ==> |all| == NumLimbs(l, u)
    ensures HasAllBelow(l, u, all, l) && Rest(l, l, all) == all
  {
  }

  /** Dropping limbs below a raised lower bound changes no bit. */
  lemma RestHas(l: nat, lower: nat, u: nat, all: seq<Word>, i: nat)
    requires l <= lower <= i && lower <= u && (l < u ==> |all| == NumLimbs(l, u))
    ensures lower < u ==> |Rest(l, lower, all)| == NumLimbs(lower, u)
    ensures Has(lower, u, Rest(l, lower, all), i) <==> Has(l, u, all, i)
  {
  }

  /** The lower bound goes up by one, over a bit that is set. */
  lemma RaiseStep(l: nat, lower: nat, u: nat, all: seq<Word>)
    requires l <= lower <= u && (l < u ==> |all| == NumLimbs(l, u))
    requires HasAllBelow(l, u, all, lower)
    requires lower < u ==> |Rest(l, lower, all)| == NumLimbs(lower, u)
    requires Has(lower, u, Rest(l, lower, all), lower)
    ensures lower < u && HasAllBelow(l, u, all, lower + 1)
    ensures if (lower + 1) % 32 == 0 then |Rest(l, lower, all)| > 0 && Rest(l, lower + 1, all) == Rest(l, lower, all)[1..]
            else Rest(l, lower + 1, all) == Rest(l, lower, all)
    ensures lower + 1 < u ==> |Rest(l, lower + 1, all)| == NumLimbs(lower + 1, u)
  {
    RestHas(l, lower, u, all, lower);
  }

  lemma RaiseDone(l: nat, lower: nat, u: nat, all: seq<Word>)
    requires l <= lower <= u && (l < u ==> |all| == NumLimbs(l, u))
    requires HasAllBelow(l, u, all, lower)
    ensures var limbs := if lower == u then [] else Rest(l, lower, all);
            && |limbs| == NumLimbs(lower, u)
            && (forall i: nat :: Has(lower, u, limbs, i) <==> Has(l, u, all, i))
            && (NoStrayBits(l, u, all) ==> NoStrayBits(lower, u, limbs))
    ensures lower == u ==> !Has(lower, u, [], lower)
  {
    var limbs := if lower == u then [] else Rest(l, lower, all);
    RestHas(l, lower, u, all, lower);
    forall i: nat ensures Has(lower, u, limbs, i) <==> Has(l, u, all, i) {
      if i >= lower { RestHas(l, lower, u, all, i); }
    }
  }

  /** A lower bound that goes up over set bits leaves them set below it. */
  lemma RaiseKeepsFilled(l: nat, lower: nat, u: nat, all: seq<Word>)
    requires l <= lower <= u && (l < u ==> |all| == NumLimbs(l, u))
    requires HasAllBelow(l, u, all, lower) && (lower < u ==> |Rest(l, lower, all)| == NumLimbs(lower, u))
    ensures FilledLow(l, u, all) ==> FilledLow(lower, u, if lower == u then [] else Rest(l, lower, all))
  {
    if FilledLow(l, u, all) && lower < u {
      var limbs := Rest(l, lower, all);
      forall b | 0 <= b < lower % 32 ensures limbs[0][b] {
        var i := 32 * (lower / 32) + b;
        assert i / 32 == lower / 32 && i % 32 == b;
        assert Has(l, u, all, i);
      }
    }
  }

  lemma ZeroWord()
    ensures forall b | 0 <= b < 32 :: !AsWord(0)[b]
  {
    NoBits(32);
  }

  lemma {:induction false} NoBits(n: nat)
    ensures forall b | 0 <= b < n :: !AsBits(0, n)[b]
  {
    if n > 0 { NoBits(n - 1); }
  }

  // ---------- whole masks ----------

  lemma CompleteMembers(l1: nat, u1: nat, a: seq<Word>, l2: nat, u2: nat, b: seq<Word>)
    requires l1 <= u1 && |a| == NumLimbs(l1, u1) && l2 <= u2 && |b| == NumLimbs(l2, u2)
    ensures var lower, upper := if l1 > l2 then l1 else l2, if u1 > u2 then u1 else u2;
            upper == 0 || lower == upper ==>
              && NumLimbs(lower, upper) == 0 && !Has(lower, upper, [], lower) && NoStrayBits(lower, upper, [])
              && forall i: nat :: Has(lower, upper, [], i) <==> Has(l1, u1, a, i) || Has(l2, u2, b, i)
  {
  }

  lemma UnionMembers(l1: nat, u1: nat, a: seq<Word>, l2: nat, u2: nat, b: seq<Word>, union: seq<Word>)
    requires l1 <= u1 && |a| == NumLimbs(l1, u1) && NoStrayBits(l1, u1, a)
    requires l2 <= u2 && |b| == NumLimbs(l2, u2) && NoStrayBits(l2, u2, b)
    requires var lower, upper := if l1 > l2 then l1 else l2, if u1 > u2 then u1 else u2;
             && lower < upper && |union| == NumLimbs(lower, upper)
             && forall k | 0 <= k < |union| :: union[k] == Or(LimbAt(l1, u1, a, lower / 32 + k), LimbAt(l2, u2, b, lower / 32 + k))
    ensures var lower, upper := if l1 > l2 then l1 else l2, if u1 > u2 then u1 else u2;
            && (forall i: nat :: Has(lower, upper, union, i) <==> Has(l1, u1, a, i) || Has(l2, u2, b, i))
            && NoStrayBits(lower, upper, union)
  {
    hide LimbAt, NoStrayBits;
    var lower, upper := if l1 > l2 then l1 else l2, if u1 > u2 then u1 else u2;
    forall i: nat ensures Has(lower, upper, union, i) <==> Has(l1, u1, a, i) || Has(l2, u2, b, i) {
      if lower <= i < upper {
        LimbAtMembers(l1, u1, a, i);
        LimbAtMembers(l2, u2, b, i);
        assert union[i / 32 - lower / 32] == Or(LimbAt(l1, u1, a, i / 32), LimbAt(l2, u2, b, i / 32));
      }
    }
    forall i: nat | upper <= i && lower / 32 <= i / 32 < lower / 32 + |union| ensures !union[i / 32 - lower / 32][i % 32] {
      LimbAtMembers(l1, u1, a, i);
      LimbAtMembers(l2, u2, b, i);
      assert union[i / 32 - lower / 32] == Or(LimbAt(l1, u1, a, i / 32), LimbAt(l2, u2, b, i / 32));
    }
    StrayFree(lower, upper, union);
  }

  lemma StrayFree(lower: nat, upper: nat, limbs: seq<Word>)
    requires forall i: nat | upper <= i && lower / 32 <= i / 32 < lower / 32 + |limbs| :: !limbs[i / 32 - lower / 32][i % 32]
    ensures NoStrayBits(lower, upper, limbs)
  {
  }

  lemma ExpandedMembers(lower: nat, upper: nat, limbs: seq<Word>, newUpper: nat, expanded: seq<Word>)
    requires lower <= upper <= newUpper && |limbs| == NumLimbs(lower, upper) && NoStrayBits(lower, upper, limbs)
    requires |expanded| == NumLimbs(lower, newUpper) && limbs <= expanded
    requires forall k | |limbs| <= k < |expanded| :: expanded[k] == AsWord(0)
    ensures forall i: nat :: Has(lower, newUpper, expanded, i) <==> Has(lower, upper, limbs, i)
    ensures NoStrayBits(lower, newUpper, expanded)
  {
    ZeroWord();
  }

  /** Between the bounds a limb's bit is membership. */
  lemma SelfBit(lower: nat, upper: nat, limbs: seq<Word>, i: nat)
    requires lower <= i < upper && |limbs| == NumLimbs(lower, upper)
    ensures LimbAt(lower, upper, limbs, i / 32)[i % 32] <==> Has(lower, upper, limbs, i)
  {
  }

  lemma NeededMembers(l1: nat, u1: nat, a: seq<Word>, l2: nat, u2: nat, b: seq<Word>, needed: seq<Word>)
    requires l1 <= u1 && |a| == NumLimbs(l1, u1)
    requires l2 <= u2 && |b| == NumLimbs(l2, u2) && NoStrayBits(l2, u2, b)
    requires l1 < u1 ==> |needed| == NumLimbs(l1, u1)
    requires forall k | 0 <= k < |needed| :: needed[k] == Or(LimbAt(l1, u1, a, l1 / 32 + k), Inverted(LimbAt(l2, u2, b, l1 / 32 + k)))
    ensures forall i: nat | i < u1 && !Has(l1, u1, needed, i) :: !Has(l1, u1, a, i) && Has(l2, u2, b, i)
    ensures forall i: nat | i < u1 && !Has(l1, u1, a, i) && Has(l2, u2, b, i) ::
              !Has(l1, u1, needed, i) <==> !AtLowerBoundary(l2, i) || (l2 < u2 && b[0][i % 32])
    ensures FilledLow(l2, u2, b) && l2 < u2 ==>
              forall i: nat | i < u1 :: !Has(l1, u1, needed, i) <==> !Has(l1, u1, a, i) && Has(l2, u2, b, i)
  {
    hide LimbAt, NoStrayBits;
    forall i: nat | i < u1 && !Has(l1, u1, a, i) && Has(l2, u2, b, i)
      ensures !Has(l1, u1, needed, i) <==> !AtLowerBoundary(l2, i) || (l2 < u2 && b[0][i % 32])
    {
      SelfBit(l1, u1, a, i);
      LimbAtMembers(l2, u2, b, i);
      BoundaryBit(l2, u2, b, i);
      assert needed[i / 32 - l1 / 32] == Or(LimbAt(l1, u1, a, i / 32), Inverted(LimbAt(l2, u2, b, i / 32)));
    }
    forall i: nat | i < u1 && !Has(l1, u1, needed, i) ensures !Has(l1, u1, a, i) && Has(l2, u2, b, i) {
      LimbAtMembers(l1, u1, a, i);
      LimbAtMembers(l2, u2, b, i);
      assert needed[i / 32 - l1 / 32] == Or(LimbAt(l1, u1, a, i / 32), Inverted(LimbAt(l2, u2, b, i / 32)));
    }
  }
}
