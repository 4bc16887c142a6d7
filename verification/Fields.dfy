/** The prime field that digests and timestamps are made of, and lists of its elements as numbers. */
module Fields {
  import opened Arithmetic

  const FIELD := 0xffff_ffff_0000_0001      // the field's order

  type FieldElement = x: nat | x < FIELD

  /** Timestamps are field elements: their difference wraps around. */
  function FieldSub(a: FieldElement, b: FieldElement): FieldElement {
    if a >= b then a - b else a - b + FIELD
  }

  function FieldAdd(a: FieldElement, b: FieldElement): FieldElement {
    if a + b < FIELD then a + b else a + b - FIELD
  }

  // ---------- lists of elements as numbers ----------

  function FieldPower(n: nat): (p: nat)
    ensures p > 0
  {
    if n == 0 then 1 else FIELD * FieldPower(n - 1)
  }

  /** The number whose digits to the base of the field's order these are, lowest first. */
  function Number(s: seq<nat>): nat {
    if s == [] then 0 else s[0] + FIELD * Number(s[1..])
  }

  predicate AreElements(s: seq<nat>) {
    forall k | 0 <= k < |s| :: s[k] < FIELD
  }

  /** The lowest digits of a number. */
  function ElementsOf(n: nat, length: nat): (s: seq<nat>)
    ensures |s| == length && AreElements(s)
    decreases length
  {
    if length == 0 then [] else [n % FIELD] + ElementsOf(n / FIELD, length - 1)
  }

  lemma {:induction false} NumberOfElements(n: nat, length: nat)
    requires n < FieldPower(length)
    ensures Number(ElementsOf(n, length)) == n
    decreases length
  {
    if length > 0 {
      assert ElementsOf(n, length)[1..] == ElementsOf(n / FIELD, length - 1);
      NumberOfElements(n / FIELD, length - 1);
    }
  }

  lemma {:induction false} NumberBound(s: seq<nat>)
    requires AreElements(s)
    ensures Number(s) < FieldPower(|s|)
    decreases |s|
  {
    if s != [] { NumberBound(s[1..]); }
  }

  /** The last element is the most significant one. */
  lemma {:induction false} NumberSnoc(s: seq<nat>, x: nat)
    ensures Number(s + [x]) == Number(s) + x * FieldPower(|s|)
    decreases |s|
  {
    if s == [] {
      assert s + [x] == [x];
    } else {
      assert (s + [x])[1..] == s[1..] + [x];
      NumberSnoc(s[1..], x);
      Distribute(x, FieldPower(|s| - 1));
    }
  }

  lemma Distribute(x: nat, p: nat)
    ensures FIELD * (x * p) == x * (FIELD * p)
  {
  }

  lemma {:induction false} NumberInjective(a: seq<nat>, b: seq<nat>)
    requires AreElements(a) && AreElements(b) && |a| == |b| && Number(a) == Number(b)
    ensures a == b
    decreases |a|
  {
    if a != [] {
      assert a[0] == Number(a) % FIELD && b[0] == Number(b) % FIELD;
      NumberInjective(a[1..], b[1..]);
      assert a == [a[0]] + a[1..] && b == [b[0]] + b[1..];
    }
  }

  /** Of two numbers, the one with the larger top digit is larger. */
  lemma TopDecides(x: nat, y: nat, low: nat, other: nat, p: nat)
    requires low < p && other < p
    ensures low + x * p > other + y * p <==> x > y || (x == y && low > other)
  {
    if x > y {
      assert x * p >= (y + 1) * p;
    } else if x < y {
      assert y * p >= (x + 1) * p;
    }
  }
}
