/** Sorted lists of integers, seen as multisets. */
module Sorting {

  predicate Sorted(s: seq<nat>) {
    forall i, j | 0 <= i < j < |s| :: s[i] <= s[j]
  }

  lemma CountCons(s: seq<nat>, x: nat)
    requires s != []
    ensures multiset(s)[x] == (if s[0] == x then 1 else 0) + multiset(s[1..])[x]
  {
    assert s == [s[0]] + s[1..];
  }

  lemma CountIsMembership(s: seq<nat>, x: nat)
    ensures multiset(s)[x] > 0 <==> x in s
  {
  }

  lemma SortedCons(x: nat, s: seq<nat>)
    requires Sorted(s) && forall k | 0 <= k < |s| :: x <= s[k]
    ensures Sorted([x] + s)
  {
  }

  function InsertSorted(x: nat, s: seq<nat>): seq<nat> {
    if s == [] then [x]
    else if x <= s[0] then [x] + s
    else [s[0]] + InsertSorted(x, s[1..])
  }

  lemma {:induction false} InsertSortedCounts(x: nat, s: seq<nat>, y: nat)
    ensures multiset(InsertSorted(x, s))[y] == multiset(s)[y] + if x == y then 1 else 0
    decreases |s|
  {
    var r := InsertSorted(x, s);
    CountCons(r, y);
    if s != [] && s[0] < x {
      InsertSortedCounts(x, s[1..], y);
      CountCons(s, y);
      assert r[1..] == InsertSorted(x, s[1..]);
    } else {
      assert r[1..] == s;
    }
  }

  lemma {:induction false} InsertSortedSorted(x: nat, s: seq<nat>)
    requires Sorted(s)
    ensures Sorted(InsertSorted(x, s))
    decreases |s|
  {
    if s == [] {
    } else if x <= s[0] {
      SortedCons(x, s);
    } else {
      var t := InsertSorted(x, s[1..]);
      InsertSortedSorted(x, s[1..]);
      forall k | 0 <= k < |t| ensures s[0] <= t[k] {
        CountIsMembership(t, t[k]);
        InsertSortedCounts(x, s[1..], t[k]);
        CountIsMembership(s[1..], t[k]);
      }
      SortedCons(s[0], t);
    }
  }

  /** Vec::sort */
  function Sort(s: seq<nat>): (r: seq<nat>)
    ensures Sorted(r) && multiset(r) == multiset(s)
  {
    if s == [] then []
    else
      var t := Sort(s[1..]);
      SortStep(s, t);
      InsertSorted(s[0], t)
  }

  lemma SortStep(s: seq<nat>, t: seq<nat>)
    requires s != [] && Sorted(t) && multiset(t) == multiset(s[1..])
    ensures Sorted(InsertSorted(s[0], t)) && multiset(InsertSorted(s[0], t)) == multiset(s)
  {
    InsertSortedSorted(s[0], t);
    forall y: nat ensures multiset(InsertSorted(s[0], t))[y] == multiset(s)[y] {
      InsertSortedCounts(s[0], t, y);
      CountCons(s, y);
    }
  }

  /** A sorted list is determined by its multiset. */
  lemma {:induction false} SortedUnique(a: seq<nat>, b: seq<nat>)
    requires Sorted(a) && Sorted(b) && multiset(a) == multiset(b)
    ensures a == b
    decreases |a|
  {
    assert |a| == |multiset(a)| == |multiset(b)| == |b|;
    if a != [] {
      assert a[0] in multiset(b) && b[0] in multiset(a);
      assert a[0] == b[0];
      assert a == [a[0]] + a[1..] && b == [b[0]] + b[1..];
      assert multiset(a[1..]) == multiset(a) - multiset{a[0]};
      assert multiset(b[1..]) == multiset(b) - multiset{b[0]};
      SortedUnique(a[1..], b[1..]);
    }
  }

  /** Sorted lists with the same multiplicities are equal. */
  lemma SameCountsSameList(a: seq<nat>, b: seq<nat>)
    requires Sorted(a) && Sorted(b)
    requires forall x: nat :: multiset(a)[x] == multiset(b)[x]
    ensures a == b
  {
    assert multiset(a) == multiset(b);
    SortedUnique(a, b);
  }

  /** The elements in [lo, hi), relative to lo. */
  function Slice(s: seq<nat>, lo: nat, hi: nat): seq<nat> {
    if s == [] then []
    else if lo <= s[0] < hi then [s[0] - lo] + Slice(s[1..], lo, hi)
    else Slice(s[1..], lo, hi)
  }

  /** The elements outside [lo, hi). */
  function Outside(s: seq<nat>, lo: nat, hi: nat): seq<nat> {
    if s == [] then []
    else if lo <= s[0] < hi then Outside(s[1..], lo, hi)
    else [s[0]] + Outside(s[1..], lo, hi)
  }

  lemma {:induction false} SliceCount(s: seq<nat>, lo: nat, hi: nat, r: nat)
    ensures multiset(Slice(s, lo, hi))[r] == if lo + r < hi then multiset(s)[lo + r] else 0
  {
    if s != [] {
      var t, u := Slice(s[1..], lo, hi), Slice(s, lo, hi);
      SliceCount(s[1..], lo, hi, r);
      CountCons(s, lo + r);
      if lo <= s[0] < hi {
        assert u[1..] == t;
        CountCons(u, r);
      }
    }
  }

  lemma {:induction false} OutsideCount(s: seq<nat>, lo: nat, hi: nat, x: nat)
    ensures multiset(Outside(s, lo, hi))[x] == if lo <= x < hi then 0 else multiset(s)[x]
  {
    if s != [] {
      var t := Outside(s[1..], lo, hi);
      OutsideCount(s[1..], lo, hi, x);
      CountCons(s, x);
      if !(lo <= s[0] < hi) {
        CountCons(Outside(s, lo, hi), x);
        assert Outside(s, lo, hi)[1..] == t;
      }
    }
  }

  lemma OutsideElements(s: seq<nat>, lo: nat, hi: nat, k: nat)
    requires k < |Outside(s, lo, hi)|
    ensures Outside(s, lo, hi)[k] in s
    ensures !(lo <= Outside(s, lo, hi)[k] < hi)
  {
    var x := Outside(s, lo, hi)[k];
    OutsideCount(s, lo, hi, x);
    CountIsMembership(Outside(s, lo, hi), x);
    CountIsMembership(s, x);
  }

  lemma {:induction false} SliceSorted(s: seq<nat>, lo: nat, hi: nat)
    requires Sorted(s)
    ensures Sorted(Slice(s, lo, hi))
  {
    if s != [] {
      var t := Slice(s[1..], lo, hi);
      SliceSorted(s[1..], lo, hi);
      forall k | 0 <= k < |t| ensures s[0] <= lo + t[k] {
        SliceCount(s[1..], lo, hi, t[k]);
        CountIsMembership(t, t[k]);
        CountIsMembership(s[1..], lo + t[k]);
      }
      if lo <= s[0] < hi { SortedCons(s[0] - lo, t); }
    }
  }

  lemma {:induction false} OutsideSorted(s: seq<nat>, lo: nat, hi: nat)
    requires Sorted(s)
    ensures Sorted(Outside(s, lo, hi))
  {
    if s != [] {
      var t := Outside(s[1..], lo, hi);
      OutsideSorted(s[1..], lo, hi);
      forall k | 0 <= k < |t| ensures s[0] <= t[k] {
        OutsideElements(s[1..], lo, hi, k);
      }
      if !(lo <= s[0] < hi) { SortedCons(s[0], t); }
    }
  }

  lemma {:induction false} OutsideConcat(s: seq<nat>, t: seq<nat>, lo: nat, hi: nat)
    ensures Outside(s + t, lo, hi) == Outside(s, lo, hi) + Outside(t, lo, hi)
    decreases |s|
  {
    if s == [] {
      assert s + t == t;
    } else {
      var u := s + t;
      assert u != [] && u[0] == s[0] && u[1..] == s[1..] + t;
      OutsideConcat(s[1..], t, lo, hi);
      assert [s[0]] + (Outside(s[1..], lo, hi) + Outside(t, lo, hi)) == [s[0]] + Outside(s[1..], lo, hi) + Outside(t, lo, hi);
    }
  }

  lemma {:induction false} OutsideAll(s: seq<nat>, lo: nat, hi: nat)
    requires forall k | 0 <= k < |s| :: !(lo <= s[k] < hi)
    ensures Outside(s, lo, hi) == s
  {
    if s != [] { OutsideAll(s[1..], lo, hi); }
  }

  /** All elements, moved by d. */
  function Moved(s: seq<nat>, d: int): (r: seq<nat>)
    requires forall k | 0 <= k < |s| :: s[k] + d >= 0
    ensures |r| == |s| && forall k | 0 <= k < |s| :: r[k] == s[k] + d
  {
    seq(|s|, k requires 0 <= k < |s| => s[k] + d)
  }

  lemma MovedSorted(s: seq<nat>, d: int)
    requires Sorted(s) && forall k | 0 <= k < |s| :: s[k] + d >= 0
    ensures Sorted(Moved(s, d))
  {
  }

  lemma {:induction false} MovedCount(s: seq<nat>, d: int, x: nat)
    requires forall k | 0 <= k < |s| :: s[k] + d >= 0
    ensures multiset(Moved(s, d))[x] == if x - d >= 0 then multiset(s)[x - d] else 0
    decreases |s|
  {
    if s != [] {
      MovedCount(s[1..], d, x);
      assert Moved(s, d)[1..] == Moved(s[1..], d);
      CountCons(Moved(s, d), x);
      if x - d >= 0 { CountCons(s, x - d); }
    }
  }

  /** Dropping one element of a list. */
  function DropAt(s: seq<nat>, k: nat): seq<nat>
    requires k < |s|
  {
    s[..k] + s[k + 1..]
  }

  lemma DropAtCounts(s: seq<nat>, k: nat)
    requires k < |s|
    ensures multiset(DropAt(s, k)) == multiset(s) - multiset{s[k]}
  {
    assert s == s[..k] + ([s[k]] + s[k + 1..]);
    assert multiset(s) == multiset(s[..k]) + (multiset{s[k]} + multiset(s[k + 1..]));
  }

  lemma DropAtSorted(s: seq<nat>, k: nat)
    requires k < |s| && Sorted(s)
    ensures Sorted(DropAt(s, k))
  {
  }

  function Reverse<T>(s: seq<T>): (r: seq<T>)
    ensures |r| == |s| && forall k | 0 <= k < |r| :: r[k] == s[|s| - 1 - k]
  {
    seq(|s|, k requires 0 <= k < |s| => s[|s| - 1 - k])
  }
}
