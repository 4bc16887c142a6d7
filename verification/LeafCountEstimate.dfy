/** How many leafs a mountain range must have for some of its leafs to have paths of the observed lengths. */
module LeafCountEstimates {
  import opened MountainRange
  import opened PostOrder
  import opened ActiveWindows
  import opened MutatorSets

  // ---------- heights and bits ----------

  /** Leaf i is in the tree of height h exactly if bit h of the leaf count is set and, above it, the leaf comes last. */
  lemma {:induction false} HeightIffLast(n: nat, i: nat, h: nat)
    requires i < n
    ensures TreeHeight(n, i) == h <==> Shift(n, h) % 2 == 1 && Shift(i, h) + 1 == Shift(n, h)
    decreases h
  {
    if h > 0 {
      if i / 2 < n / 2 {
        HeightIffLast(n / 2, i / 2, h - 1);
      } else {
        assert i / 2 == n / 2;
      }
    }
  }

  /** Later leafs are in lower trees. */
  lemma {:induction false} HeightsDescend(n: nat, i: nat, j: nat)
    requires i <= j < n
    ensures TreeHeight(n, i) >= TreeHeight(n, j)
    decreases n
  {
    if j / 2 < n / 2 { HeightsDescend(n / 2, i / 2, j / 2); }
  }

  lemma {:induction false} ShiftTwice(x: nat, a: nat, b: nat)
    ensures Shift(x, a + b) == Shift(Shift(x, a), b)
    decreases a
  {
    if a > 0 { ShiftTwice(x / 2, a - 1, b); }
  }

  /** The number with the bits below h cleared. */
  function Truncated(n: nat, h: nat): nat {
    Shift(n, h) * Pow2(h)
  }

  lemma {:induction false} ShiftOfMultiple(q: nat, h: nat)
    ensures Shift(q * Pow2(h), h) == q
    decreases h
  {
    if h > 0 {
      assert q * Pow2(h) == 2 * (q * Pow2(h - 1));
      ShiftOfMultiple(q, h - 1);
    }
  }

  lemma {:induction false} TruncatedBelow(n: nat, h: nat)
    ensures Truncated(n, h) <= n
    decreases h
  {
    if h > 0 {
      TruncatedBelow(n / 2, h - 1);
      assert Shift(n, h) * Pow2(h) == 2 * (Shift(n / 2, h - 1) * Pow2(h - 1));
    }
  }

  /** Clearing low bits leaves the bits above them. */
  lemma TruncatedAbove(n: nat, low: nat, h: nat)
    requires low <= h
    ensures Shift(Truncated(n, low), h) == Shift(n, h)
  {
    ShiftOfMultiple(Shift(n, low), low);
    ShiftTwice(Truncated(n, low), low, h - low);
    ShiftTwice(n, low, h - low);
  }

  lemma {:induction false} ShiftReflects(i: nat, n: nat, h: nat)
    requires Shift(i, h) < Shift(n, h)
    ensures i < n
    decreases h
  {
    if h > 0 { ShiftReflects(i / 2, n / 2, h - 1); }
  }

  // ---------- the estimate ----------

  /** One height: if its bit is not set, set it and clear all lower bits. */
  function Raised(estimate: nat, h: nat): nat {
    if Shift(estimate, h) % 2 == 0 then (Shift(estimate, h) + 1) * Pow2(h) else estimate
  }

  predicate Descending(heights: seq<nat>) {
    forall j, k | 0 <= j < k < |heights| :: heights[j] > heights[k]
  }

  /** The heights are those of trees among n leafs, down to the tree of leaf c. */
  ghost predicate DownToTreeOf(heights: seq<nat>, n: nat, c: nat)
    requires c < n
  {
    && Descending(heights) && heights != [] && heights[|heights| - 1] == TreeHeight(n, c)
    && forall k | 0 <= k < |heights| :: Shift(n, heights[k]) % 2 == 1
  }

  /** All heights, one after the other. */
  function Estimate(largest: nat, heights: seq<nat>): nat {
    if heights == [] then largest else Raised(Estimate(largest, heights[..|heights| - 1]), heights[|heights| - 1])
  }

  /** Raising sets one bit and leaves those above it as they are. */
  lemma RaisedBits(estimate: nat, h: nat, g: nat)
    requires g >= h
    ensures Shift(Raised(estimate, h), g) == if g == h && Shift(estimate, h) % 2 == 0 then Shift(estimate, h) + 1 else Shift(estimate, g)
  {
    var q := Shift(estimate, h);
    if q % 2 == 0 {
      ShiftOfMultiple(q + 1, h);
      if g > h {
        ShiftTwice(Raised(estimate, h), h, g - h);
        ShiftTwice(estimate, h, g - h);
        assert Shift(q + 1, g - h) == Shift((q + 1) / 2, g - h - 1);
      }
    }
  }

  /** In the estimate from descending heights the bits of all of them are set, whatever the largest index. */
  lemma {:induction false} EstimateHasBits(largest: nat, heights: seq<nat>, k: nat)
    requires Descending(heights) && k < |heights|
    ensures Shift(Estimate(largest, heights), heights[k]) % 2 == 1
    decreases |heights|
  {
    hide Shift, Raised;
    var n := |heights| - 1;
    RaisedBits(Estimate(largest, heights[..n]), heights[n], heights[k]);
    if k < n { EstimateHasBits(largest, heights[..n], k); }
  }

  /** Of two descending lists, one within the other, the first is shorter unless they are the same. */
  lemma {:induction false} WithinDescending(a: seq<nat>, b: seq<nat>)
    requires Descending(a) && Descending(b) && forall x | x in a :: x in b
    ensures |a| <= |b| && (|a| == |b| ==> a == b)
    decreases |b|
  {
    if a != [] {
      assert a[0] in a;
      var rest := b[1..];
      assert forall x | x in b :: x == b[0] || x in rest;
      if a[0] == b[0] {
        forall x | x in a[1..] ensures x in rest {
          var k :| 0 <= k < |a[1..]| && a[1..][k] == x;
          assert a[k + 1] == x && x in a;
        }
        WithinDescending(a[1..], rest);
        assert a == [a[0]] + a[1..] && b == [b[0]] + rest;
      } else {
        var j :| 0 <= j < |b| && b[j] == a[0];
        forall x | x in a ensures x in rest {
          var k :| 0 <= k < |a| && a[k] == x;
        }
        WithinDescending(a, rest);
      }
    }
  }

  /** The loop of RemovalRecordList::estimate_num_leafs_aocl, from the largest chunk index on. */
  method EstimateNumLeafs(largest: nat, heights: seq<nat>, ghost n: nat) returns (estimate: nat)
    ensures largest < n && DownToTreeOf(heights, n, largest) ==> estimate == Truncated(n, TreeHeight(n, largest))
    ensures estimate == Estimate(largest, heights)
  {
    estimate := largest;
    assert heights[..0] == [];
    for k := 0 to |heights|
      invariant estimate == Estimate(largest, heights[..k])
      invariant largest < n && DownToTreeOf(heights, n, largest) && k < |heights| ==> estimate == largest
      invariant largest < n && DownToTreeOf(heights, n, largest) && k == |heights| ==> estimate == Truncated(n, TreeHeight(n, largest))
    {
      assert heights[..k + 1][..k] == heights[..k];
      if largest < n && DownToTreeOf(heights, n, largest) { BitOfHeight(n, largest, heights[k]); }
      estimate := Raised(estimate, heights[k]);
    }
    assert heights[..|heights|] == heights;
  }

  /** The largest index has the same bits as the leaf count above its tree's, and is one less from there. */
  lemma BitOfHeight(n: nat, c: nat, h: nat)
    requires c < n && h >= TreeHeight(n, c) && Shift(n, h) % 2 == 1
    ensures Raised(c, h) == if h == TreeHeight(n, c) then Truncated(n, h) else c
  {
    var low := TreeHeight(n, c);
    HeightIffLast(n, c, low);
    if h > low {
      ShiftStep(n, low);
      ShiftStep(c, low);
      ShiftTwice(n, low + 1, h - low - 1);
      ShiftTwice(c, low + 1, h - low - 1);
    }
  }

  /** The estimate explains every path length that was observed: all leafs up to the largest are there, in trees of the
      same height. */
  lemma EstimateIsViable(n: nat, largest: nat, i: nat)
    requires i <= largest < n
    ensures i < Truncated(n, TreeHeight(n, largest)) <= n
    ensures TreeHeight(Truncated(n, TreeHeight(n, largest)), i) == TreeHeight(n, i)
  {
    var low := TreeHeight(n, largest);
    var m := Truncated(n, low);
    TruncatedBelow(n, low);
    HeightsDescend(n, i, largest);
    var h := TreeHeight(n, i);
    HeightIffLast(n, i, h);
    TruncatedAbove(n, low, h);
    ShiftReflects(i, m, h);
    HeightIffLast(m, i, h);
  }

  /** No smaller number of leafs explains the length of the largest leaf's path. */
  lemma EstimateIsMinimal(n: nat, largest: nat, m: nat)
    requires largest < n && largest < m && TreeHeight(m, largest) == TreeHeight(n, largest)
    ensures Truncated(n, TreeHeight(n, largest)) <= m
  {
    var low := TreeHeight(n, largest);
    HeightIffLast(n, largest, low);
    HeightIffLast(m, largest, low);
    TruncatedBelow(m, low);
  }

  /** The number of commitments that goes with the estimate has that many chunks, and is the smallest one exactly if
      there are chunks at all: without any, 0 would do and 1 is returned. */
  lemma AoclEstimateIsMinimal(estimate: nat)
    ensures BatchIndex(estimate * BATCH_SIZE + 1) == estimate
    ensures (forall aoclLeafs: nat | BatchIndex(aoclLeafs) >= estimate :: aoclLeafs >= estimate * BATCH_SIZE + 1) <==> estimate > 0
  {
    assert BatchIndex(0) == 0;
  }
}
