/** 32-bit words as lists of bits, lowest first, and the numbers they denote. */
module Words {
  import opened PostOrder

  // ---------- bits and the numbers they denote ----------

  /** Bits, lowest first. */
  type Bits = seq<bool>

  function AsNat(w: Bits): nat {
    if w == [] then 0 else (if w[0] then 1 else 0) + 2 * AsNat(w[1..])
  }

  /** The lowest bits of a number. */
  function AsBits(n: nat, length: nat): (w: Bits)
    ensures |w| == length
    decreases length
  {
    if length == 0 then [] else [n % 2 == 1] + AsBits(n / 2, length - 1)
  }

  lemma {:induction false} BitsOfNat(n: nat, length: nat)
    requires n < Pow2(length)
    ensures AsNat(AsBits(n, length)) == n
    decreases length
  {
    if length > 0 { BitsOfNat(n / 2, length - 1); }
  }

  lemma {:induction false} NatOfBits(w: Bits)
    ensures AsNat(w) < Pow2(|w|) && AsBits(AsNat(w), |w|) == w
    decreases |w|
  {
    if w != [] {
      NatOfBits(w[1..]);
      assert w == [w[0]] + w[1..];
    }
  }

  /** Only the lowest h bits are set exactly when the number is below 2^h. */
  lemma {:induction false} FitsIffBelow(w: Bits, h: nat)
    requires h <= |w|
    ensures (forall i | h <= i < |w| :: !w[i]) <==> AsNat(w) < Pow2(h)
    decreases |w|
  {
    if w != [] {
      var rest := w[1..];
      assert forall i | 1 <= i < |w| :: w[i] == rest[i - 1];
      if h == 0 {
        FitsIffBelow(rest, 0);
        assert (forall i | 0 <= i < |w| :: !w[i]) <==> !w[0] && forall i | 0 <= i < |rest| :: !rest[i];
      } else {
        FitsIffBelow(rest, h - 1);
        assert (forall i | h <= i < |w| :: !w[i]) <==> forall i | h - 1 <= i < |rest| :: !rest[i];
      }
    }
  }

  // ---------- 32-bit words ----------

  type Word = w: Bits | |w| == 32 witness AsBits(0, 32)

  /** A cast to u32. */
  function AsWord(n: nat): Word {
    AsBits(n, 32)
  }

  function And(a: Word, b: Word): (r: Word)
    ensures forall i | 0 <= i < 32 :: r[i] == (a[i] && b[i])
  {
    seq(32, i requires 0 <= i < 32 => a[i] && b[i])
  }

  function Or(a: Word, b: Word): (r: Word)
    ensures forall i | 0 <= i < 32 :: r[i] == (a[i] || b[i])
  {
    seq(32, i requires 0 <= i < 32 => a[i] || b[i])
  }

  function ShiftLeft(a: Word, s: nat): (r: Word)
    ensures forall i | 0 <= i < 32 :: r[i] == (i >= s && a[i - s])
  {
    seq(32, i requires 0 <= i < 32 => i >= s && a[i - s])
  }

  function ShiftRight(a: Word, s: nat): (r: Word)
    ensures forall i | 0 <= i < 32 :: r[i] == (i + s < 32 && a[i + s])
  {
    seq(32, i requires 0 <= i < 32 => i + s < 32 && a[i + s])
  }

  function RotateRight(a: Word, s: nat): (r: Word)
    ensures forall i | 0 <= i < 32 :: r[i] == a[(i + s) % 32]
  {
    seq(32, i requires 0 <= i < 32 => a[(i + s) % 32])
  }

  function Inverted(a: Bits): (r: Bits)
    ensures |r| == |a| && forall i | 0 <= i < |a| :: r[i] == !a[i]
  {
    seq(|a|, i requires 0 <= i < |a| => !a[i])
  }
}
