/** Reversing the lowest bits of a 32-bit word. */
module Bitreversals {
  import opened PostOrder
  import opened Words

  // ---------- the masks ----------

  predicate IsBlockSize(s: nat) {
    s == 1 || s == 2 || s == 4 || s == 8
  }

  /** Blocks of s bits, alternately set and clear. */
  function Stripes(s: nat): (w: Word)
    requires s > 0
    ensures forall i | 0 <= i < 32 :: w[i] == (i / s % 2 == 0)
  {
    seq(32, i requires 0 <= i < 32 => i / s % 2 == 0)
  }

  lemma NeighbouringBlocks(i: nat, s: nat)
    requires i < 32 && IsBlockSize(s)
    ensures i / s % 2 == 0 ==> i + s < 32 && (i + s) / s % 2 == 1 && (i < s || (i - s) / s % 2 == 1)
    ensures i / s % 2 == 1 ==> i >= s && (i - s) / s % 2 == 0 && (i + s) / s % 2 == 0
    ensures i >= 32 - s ==> i / s % 2 == 1
  {
    if s == 1 {} else if s == 2 {} else if s == 4 {} else {}
  }

  lemma {:induction false} Complement(a: Bits, b: Bits)
    requires b == Inverted(a)
    ensures AsNat(a) + AsNat(b) == Pow2(|a|) - 1
    decreases |a|
  {
    if a != [] { Complement(a[1..], b[1..]); }
  }

  lemma {:induction false} LeadingZeros(s: nat, w: Bits)
    requires s <= |w| && forall i | 0 <= i < s :: !w[i]
    ensures AsNat(w) == Pow2(s) * AsNat(w[s..])
    decreases s
  {
    if s > 0 {
      LeadingZeros(s - 1, w[1..]);
      assert w[1..][s - 1..] == w[s..];
    } else {
      assert w[0..] == w;
    }
  }

  lemma {:induction false} TrailingZeros(w: Bits, n: nat)
    requires n <= |w| && forall i | n <= i < |w| :: !w[i]
    ensures AsNat(w[..n]) == AsNat(w)
    decreases |w|
  {
    if w != [] {
      if n == 0 {
        TrailingZeros(w[1..], 0);
      } else {
        TrailingZeros(w[1..], n - 1);
        assert w[..n][1..] == w[1..][..n - 1];
      }
    }
  }

  /** The stripes' complement is the stripes moved up by one block, which fixes the number they denote. */
  lemma StripesDenote(s: nat)
    requires IsBlockSize(s)
    ensures AsNat(Inverted(Stripes(s))) == Pow2(s) * AsNat(Stripes(s))
    ensures AsNat(Stripes(s)) + AsNat(Inverted(Stripes(s))) == 0xffffffff
  {
    hide AsNat, Pow2;
    var w := Stripes(s);
    var v := Inverted(w);
    forall i | 0 <= i < 32
      ensures i >= 32 - s ==> !w[i]
      ensures if i < s then !v[i] else v[i] == w[i - s]
    {
      NeighbouringBlocks(i, s);
    }
    assert v[s..] == w[..32 - s];
    LeadingZeros(s, v);
    TrailingZeros(w, 32 - s);
    Complement(w, v);
    Pow2Of32();
  }

  lemma Masks(low: nat, high: nat, s: nat)
    requires IsBlockSize(s) && low + Pow2(s) * low == 0xffffffff && high == Pow2(s) * low
    ensures AsWord(low) == Stripes(s) && AsWord(high) == Inverted(Stripes(s))
  {
    hide AsBits, AsNat, Stripes, Inverted;
    StripesDenote(s);
    var v := AsNat(Stripes(s));
    assert Pow2(1) == 2 && Pow2(2) == 4 && Pow2(4) == 16 && Pow2(8) == 256;
    assert v == low;
    NatOfBits(Stripes(s));
    NatOfBits(Inverted(Stripes(s)));
  }

  lemma Pow2Of32()
    ensures Pow2(32) == 0x1_0000_0000
  {
    assert Pow2(8) == 256;
    assert Pow2(16) == 256 * Pow2(8);
    assert Pow2(24) == 256 * Pow2(16);
    assert Pow2(32) == 256 * Pow2(24);
  }

  // ---------- the reversal ----------

  /** Exchange neighbouring blocks of s bits, given the masks of the lower and of the upper blocks. */
  function Exchange(k: Word, low: nat, high: nat, s: nat): Word {
    Or(ShiftLeft(And(k, AsWord(low)), s), ShiftRight(And(k, AsWord(high)), s))
  }

  function Neighbour(i: nat, s: nat): nat
    requires s > 0
  {
    if i / s % 2 == 0 then i + s else if i >= s then i - s else 0
  }

  lemma ExchangeBit(k: Word, low: nat, high: nat, s: nat, i: nat)
    requires i < 32 && IsBlockSize(s)
    requires low + Pow2(s) * low == 0xffffffff && high == Pow2(s) * low
    ensures Neighbour(i, s) < 32 && Exchange(k, low, high, s)[i] == k[Neighbour(i, s)]
  {
    hide Pow2, AsWord;
    Masks(low, high, s);
    NeighbouringBlocks(i, s);
  }

  function Reverse32(k: Word): Word {
    var k1 := Exchange(k, 0x55555555, 0xaaaaaaaa, 1);
    var k2 := Exchange(k1, 0x33333333, 0xcccccccc, 2);
    var k4 := Exchange(k2, 0x0f0f0f0f, 0xf0f0f0f0, 4);
    var k8 := Exchange(k4, 0x00ff00ff, 0xff00ff00, 8);
    RotateRight(k8, 16)
  }

  lemma MirrorPosition(i: nat)
    requires i < 32
    ensures Neighbour(Neighbour(Neighbour(Neighbour((i + 16) % 32, 8), 4), 2), 1) == 31 - i
  {
    hide Neighbour;
    var e4, e3, e2, e1, e0 := BinaryDigits(i);
    Flip8(1 - e4, e3, 4 * e2 + 2 * e1 + e0);
    Flip4(2 * (1 - e4) + (1 - e3), e2, 2 * e1 + e0);
    Flip2(4 * (1 - e4) + 2 * (1 - e3) + (1 - e2), e1, e0);
    Flip1(8 * (1 - e4) + 4 * (1 - e3) + 2 * (1 - e2) + (1 - e1), e0);
  }

  lemma BinaryDigits(i: nat) returns (e4: nat, e3: nat, e2: nat, e1: nat, e0: nat)
    requires i < 32
    ensures e4 <= 1 && e3 <= 1 && e2 <= 1 && e1 <= 1 && e0 <= 1 && i == 16 * e4 + 8 * e3 + 4 * e2 + 2 * e1 + e0
    ensures (i + 16) % 32 == 16 * (1 - e4) + 8 * e3 + (4 * e2 + 2 * e1 + e0)
  {
    e4, e3, e2, e1, e0 := i / 16, i / 8 % 2, i / 4 % 2, i / 2 % 2, i % 2;
  }

  // Going to the neighbouring block flips one binary digit.

  lemma Flip8(high: nat, digit: nat, low: nat)
    requires digit <= 1 && low < 8
    ensures Neighbour(16 * high + 8 * digit + low, 8) == 16 * high + 8 * (1 - digit) + low
  {
  }

  lemma Flip4(high: nat, digit: nat, low: nat)
    requires digit <= 1 && low < 4
    ensures Neighbour(8 * high + 4 * digit + low, 4) == 8 * high + 4 * (1 - digit) + low
  {
  }

  lemma Flip2(high: nat, digit: nat, low: nat)
    requires digit <= 1 && low < 2
    ensures Neighbour(4 * high + 2 * digit + low, 2) == 4 * high + 2 * (1 - digit) + low
  {
  }

  lemma Flip1(high: nat, digit: nat)
    requires digit <= 1
    ensures Neighbour(2 * high + digit, 1) == 2 * high + (1 - digit)
  {
  }

  lemma Reverse32Bit(k: Word, i: nat)
    requires i < 32
    ensures Reverse32(k)[i] == k[31 - i]
  {
    hide Exchange, Neighbour;
    assert Pow2(1) == 2 && Pow2(2) == 4 && Pow2(4) == 16 && Pow2(8) == 256;
    var k1 := Exchange(k, 0x55555555, 0xaaaaaaaa, 1);
    var k2 := Exchange(k1, 0x33333333, 0xcccccccc, 2);
    var k4 := Exchange(k2, 0x0f0f0f0f, 0xf0f0f0f0, 4);
    var j := (i + 16) % 32;
    ExchangeBit(k4, 0x00ff00ff, 0xff00ff00, 8, j);
    ExchangeBit(k2, 0x0f0f0f0f, 0xf0f0f0f0, 4, Neighbour(j, 8));
    ExchangeBit(k1, 0x33333333, 0xcccccccc, 2, Neighbour(Neighbour(j, 8), 4));
    ExchangeBit(k, 0x55555555, 0xaaaaaaaa, 1, Neighbour(Neighbour(Neighbour(j, 8), 4), 2));
    MirrorPosition(i);
  }

  /** Pow::bitreverse. The shift amount is taken modulo 32. */
  function Bitreverse(k: Word, log2n: nat): Word
    requires log2n <= 32
  {
    ShiftRight(Reverse32(k), (32 - log2n) % 32)
  }

  /** Bit i of the result is bit n - 1 - i of the word, and all further bits are clear. */
  lemma BitreverseBit(k: Word, n: nat, i: nat)
    requires 1 <= n <= 32 && i < 32
    ensures Bitreverse(k, n)[i] == (i < n && k[n - 1 - i])
  {
    hide Reverse32;
    if i < n { Reverse32Bit(k, i + (32 - n)); }
  }

  /** Index k with its lowest h bits reversed: cast to u32, reversed, and cast back. */
  function Reversed(k: nat, h: nat): nat
    requires h <= 32
  {
    AsNat(Bitreverse(AsWord(k), h))
  }

  /** On the indices of a vector of length 2^h, the reversal is a permutation that undoes itself. */
  lemma ReversedInvolutive(k: nat, h: nat)
    requires 1 <= h <= 32 && k < Pow2(h)
    ensures Reversed(k, h) < Pow2(h)
    ensures Reversed(Reversed(k, h), h) == k
  {
    hide AsNat, AsBits, Bitreverse, Pow2;
    var w := AsWord(k);
    var r := Bitreverse(w, h);
    Pow2Monotone(h, 32);
    BitsOfNat(k, 32);
    FitsIffBelow(w, h);
    forall i | 0 <= i < 32 ensures r[i] == (i < h && w[h - 1 - i]) { BitreverseBit(w, h, i); }
    FitsIffBelow(r, h);
    NatOfBits(r);
    forall i | 0 <= i < 32 ensures Bitreverse(r, h)[i] == w[i] { BitreverseBit(r, h, i); }
    assert Bitreverse(r, h) == w;
  }
}
