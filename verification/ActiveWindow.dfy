/** The active window of the sliding-window Bloom filter: a sorted list of set positions. */
module ActiveWindows {
  import opened Sorting

  const WINDOW_SIZE := 0x10_0000
  const CHUNK_SIZE := 0x1000
  const BATCH_SIZE := 8

  type Chunk = seq<nat>

  /** The window after a slide has every position one chunk lower. */
  ghost predicate SlidForward(before: seq<nat>, after: seq<nat>) {
    forall r: nat :: multiset(after)[r] == multiset(before)[r + CHUNK_SIZE]
  }

  /** The window after an undone slide: the chunk first, then everything one chunk higher. */
  ghost predicate SlidBack(before: seq<nat>, chunk: Chunk, after: seq<nat>) {
    forall r: nat ::
      multiset(after)[r] == if r < CHUNK_SIZE then multiset(chunk)[r] else multiset(before)[r - CHUNK_SIZE]
  }

  /** The positions, in order, of all entries in a range. */
  ghost predicate Located(s: seq<nat>, drops: seq<nat>, lower: nat, upper: nat) {
    && (forall d | 0 <= d < |drops| :: drops[d] < |s| && lower <= s[drops[d]] < upper)
    && (forall d, e | 0 <= d < e < |drops| :: drops[d] < drops[e])
    && (forall k | 0 <= k < |s| && lower <= s[k] < upper :: k in drops)
  }

  lemma DropBounds(s: seq<nat>, drops: seq<nat>, lower: nat, upper: nat)
    requires Located(s, drops, lower, upper)
    ensures forall d | 0 <= d < |drops| :: drops[d] < |s|
  {
  }

  lemma NoneBetween(s: seq<nat>, drops: seq<nat>, lower: nat, upper: nat, d: nat)
    requires Located(s, drops, lower, upper) && d < |drops|
    ensures var q, p := drops[d], if d + 1 < |drops| then drops[d + 1] else |s|;
            && q < p <= |s| && lower <= s[q] < upper
            && forall k | q < k < p :: !(lower <= s[k] < upper)
  {
    var q, p := drops[d], if d + 1 < |drops| then drops[d + 1] else |s|;
    forall k | q < k < p ensures !(lower <= s[k] < upper) {
      assert lower <= s[k] < upper ==> k in drops;
      assert forall e | 0 <= e < |drops| :: drops[e] != k;
    }
  }

  lemma NoneBefore(s: seq<nat>, drops: seq<nat>, lower: nat, upper: nat)
    requires Located(s, drops, lower, upper)
    ensures var p := if drops == [] then |s| else drops[0];
            p <= |s| && forall k | 0 <= k < p :: !(lower <= s[..p][k] < upper)
  {
    var p := if drops == [] then |s| else drops[0];
    forall k | 0 <= k < p ensures !(lower <= s[..p][k] < upper) {
      assert lower <= s[k] < upper ==> k in drops;
    }
  }

  class ActiveWindow {
    var sbf: seq<nat>

    ghost predicate Valid()
      reads this
    {
      Sorted(sbf) && forall k | 0 <= k < |sbf| :: sbf[k] < WINDOW_SIZE
    }

    constructor (initial: seq<nat>)
      ensures sbf == initial
    {
      sbf := initial;
    }

    /** The chunk that becomes inactive when the window slides. */
    function SlidChunk(): Chunk
      reads this
    {
      Slice(sbf, 0, CHUNK_SIZE)
    }

    /** The list positions, in order, whose entries lie in a range. */
    method LocateRange(lower: nat, upper: nat) returns (drops: seq<nat>)
      ensures Located(sbf, drops, lower, upper)
    {
      drops := [];
      for locationIndex := 0 to |sbf|
        invariant forall d | 0 <= d < |drops| :: drops[d] < locationIndex && lower <= sbf[drops[d]] < upper
        invariant forall d, e | 0 <= d < e < |drops| :: drops[d] < drops[e]
        invariant forall k | 0 <= k < locationIndex && lower <= sbf[k] < upper :: k in drops
      {
        if lower <= sbf[locationIndex] < upper {
          drops := drops + [locationIndex];
        }
      }
    }

    /** Set a range to zero. */
    method Zerofy(lower: nat, upper: nat)
      modifies this
      ensures sbf == Outside(old(sbf), lower, upper)
    {
      assert Outside([], lower, upper) == [];
      hide Outside, DropAt, Located;
      var drops := LocateRange(lower, upper);
      ghost var s, p := sbf, |sbf|;
      DropBounds(s, drops, lower, upper);
      assert s == s[..p] && s[p..] == [];
      var d := |drops|;
      while d > 0
        invariant 0 <= d <= |drops|
        invariant p == if d < |drops| then drops[d] else |s|
        invariant sbf == s[..p] + Outside(s[p..], lower, upper)
      {
        d := d - 1;
        var q := drops[d];
        NoneBetween(s, drops, lower, upper, d);
        OutsideFrom(s, q, p, lower, upper);
        sbf := DropAt(sbf, q);
        p := q;
      }
      NoneBefore(s, drops, lower, upper);
      OutsideAll(s[..p], lower, upper);
      OutsideConcat(s[..p], s[p..], lower, upper);
      assert s[..p] + s[p..] == s;
    }

    /** Drop the first chunk and move everything else down by a chunk. */
    method SlideWindow()
      requires Valid()
      modifies this
      ensures Valid()
      ensures SlidForward(old(sbf), sbf)
    {
      hide SlidForward;
      DropFirstChunk(sbf);
      Zerofy(0, CHUNK_SIZE);
      ghost var kept := sbf;
      for i := 0 to |sbf|
        invariant |sbf| == |kept|
        invariant forall k | 0 <= k < i :: sbf[k] == kept[k] - CHUNK_SIZE
        invariant forall k | i <= k < |sbf| :: sbf[k] == kept[k]
      {
        sbf := sbf[i := sbf[i] - CHUNK_SIZE];
      }
      LowerTheRest(old(sbf), kept);
      assert sbf == Moved(kept, -CHUNK_SIZE);
    }

    method HasSet(lower: nat, upper: nat) returns (found: bool)
      ensures found <==> exists x | x in sbf :: lower <= x < upper
    {
      for k := 0 to |sbf|
        invariant forall j | 0 <= j < k :: !(lower <= sbf[j] < upper)
      {
        if lower <= sbf[k] < upper {
          assert sbf[k] in sbf;
          return true;
        }
      }
      found := false;
    }

    /** Undo a window slide. The last chunk of the window must be empty. */
    method SlideWindowBack(chunk: Chunk)
      requires Valid()
      requires forall x | x in sbf :: x < WINDOW_SIZE - CHUNK_SIZE
      requires forall x | x in chunk :: x < CHUNK_SIZE
      modifies this
      ensures Valid()
      ensures SlidBack(old(sbf), chunk, sbf)
    {
      hide SlidBack, Sort;
      var occupied := HasSet(WINDOW_SIZE - CHUNK_SIZE, WINDOW_SIZE);
      assert !occupied;
      ghost var kept := sbf;
      for i := 0 to |sbf|
        invariant |sbf| == |kept|
        invariant forall k | 0 <= k < i :: sbf[k] == kept[k] + CHUNK_SIZE
        invariant forall k | i <= k < |sbf| :: sbf[k] == kept[k]
      {
        sbf := sbf[i := sbf[i] + CHUNK_SIZE];
      }
      assert sbf == Moved(kept, CHUNK_SIZE);
      for i := 0 to |chunk|
        invariant sbf == Moved(kept, CHUNK_SIZE) + chunk[..i]
      {
        sbf := sbf + [chunk[i]];
      }
      assert chunk[..|chunk|] == chunk;
      forall k | 0 <= k < |kept| ensures kept[k] < WINDOW_SIZE - CHUNK_SIZE { assert kept[k] in old(sbf); }
      SlideBackCounts(kept, chunk);
      sbf := Sort(sbf);
    }

    method Insert(index: nat)
      requires Valid() && index < WINDOW_SIZE
      modifies this
      ensures Valid() && multiset(sbf) == multiset(old(sbf)) + multiset{index}
    {
      ghost var pushed := sbf + [index];
      sbf := sbf + [index];
      sbf := Sort(sbf);
      forall k | 0 <= k < |sbf| ensures sbf[k] < WINDOW_SIZE {
        assert sbf[k] in multiset(pushed);
      }
    }

    /** Remove one occurrence, the last one. The index must be set. */
    method Remove(index: nat)
      requires Valid() && index < WINDOW_SIZE
      requires index in sbf
      modifies this
      ensures Valid() && multiset(sbf) == multiset(old(sbf)) - multiset{index}
    {
      var found := false;
      var dropIndexIndex := 0;
      for k := 0 to |sbf|
        invariant found ==> dropIndexIndex < k && sbf[dropIndexIndex] == index
        invariant !found ==> index !in sbf[..k]
      {
        if sbf[k] == index {
          found := true;
          dropIndexIndex := k;
        }
      }
      assert sbf[..|sbf|] == sbf;
      assert found;
      DropAtCounts(sbf, dropIndexIndex);
      DropAtSorted(sbf, dropIndexIndex);
      sbf := DropAt(sbf, dropIndexIndex);
    }

    method Contains(index: nat) returns (found: bool)
      requires index < WINDOW_SIZE
      ensures found <==> index in sbf
    {
      for k := 0 to |sbf|
        invariant index !in sbf[..k]
      {
        if sbf[k] == index { return true; }
      }
      assert sbf[..|sbf|] == sbf;
      found := false;
    }
  }

  /** What stays when the first chunk is dropped. */
  ghost predicate FirstChunkDropped(s: seq<nat>, kept: seq<nat>) {
    && Sorted(kept)
    && (forall k | 0 <= k < |kept| :: CHUNK_SIZE <= kept[k] < WINDOW_SIZE)
    && forall x: nat | CHUNK_SIZE <= x :: multiset(kept)[x] == multiset(s)[x]
  }

  lemma DropFirstChunk(s: seq<nat>)
    requires Sorted(s) && forall k | 0 <= k < |s| :: s[k] < WINDOW_SIZE
    ensures FirstChunkDropped(s, Outside(s, 0, CHUNK_SIZE))
  {
    var kept := Outside(s, 0, CHUNK_SIZE);
    OutsideSorted(s, 0, CHUNK_SIZE);
    forall k | 0 <= k < |kept| ensures CHUNK_SIZE <= kept[k] < WINDOW_SIZE {
      OutsideElements(s, 0, CHUNK_SIZE, k);
    }
    forall x: nat | CHUNK_SIZE <= x ensures multiset(kept)[x] == multiset(s)[x] {
      OutsideCount(s, 0, CHUNK_SIZE, x);
    }
  }

  /** What lowering the rest yields. */
  lemma LowerTheRest(s: seq<nat>, kept: seq<nat>)
    requires FirstChunkDropped(s, kept)
    ensures Sorted(Moved(kept, -CHUNK_SIZE))
    ensures SlidForward(s, Moved(kept, -CHUNK_SIZE))
  {
    hide Sorted;
    MovedSorted(kept, -CHUNK_SIZE);
    var moved: seq<nat> := Moved(kept, -CHUNK_SIZE);
    forall r: nat ensures multiset(moved)[r] == multiset(s)[r + CHUNK_SIZE] {
      MovedCount(kept, -CHUNK_SIZE, r);
    }
  }

  /** What sorting the raised window together with the chunk yields. */
  lemma SlideBackCounts(kept: seq<nat>, chunk: Chunk)
    requires forall k | 0 <= k < |kept| :: kept[k] < WINDOW_SIZE - CHUNK_SIZE
    requires forall x | x in chunk :: x < CHUNK_SIZE
    ensures var s := Sort(Moved(kept, CHUNK_SIZE) + chunk);
            && (forall k | 0 <= k < |s| :: s[k] < WINDOW_SIZE)
            && SlidBack(kept, chunk, s)
  {
    hide Sort;
    var raised := Moved(kept, CHUNK_SIZE);
    var s := Sort(raised + chunk);
    assert multiset(s) == multiset(raised) + multiset(chunk);
    forall r: nat
      ensures multiset(s)[r] == if r < CHUNK_SIZE then multiset(chunk)[r] else multiset(kept)[r - CHUNK_SIZE]
    {
      MovedCount(kept, CHUNK_SIZE, r);
      CountIsMembership(chunk, r);
    }
    forall k | 0 <= k < |s| ensures s[k] < WINDOW_SIZE {
      CountIsMembership(s, s[k]);
      CountIsMembership(raised, s[k]);
      CountIsMembership(chunk, s[k]);
    }
  }

  /** One more step of the drop loop: q is the last position before p that lies in the range. */
  lemma OutsideFrom(s: seq<nat>, q: nat, p: nat, lo: nat, hi: nat)
    requires q < p <= |s| && lo <= s[q] < hi
    requires forall k | q < k < p :: !(lo <= s[k] < hi)
    ensures DropAt(s[..p] + Outside(s[p..], lo, hi), q) == s[..q] + Outside(s[q..], lo, hi)
  {
    assert s[q..] == [s[q]] + (s[q + 1..p] + s[p..]);
    assert s[q..][1..] == s[q + 1..p] + s[p..];
    OutsideConcat(s[q + 1..p], s[p..], lo, hi);
    OutsideAll(s[q + 1..p], lo, hi);
  }
}
