/** Chunks packed into 32-bit words, twelve bits an index, and unpacked again. */
module ChunkPackings {
  import opened Options
  import opened Arithmetic
  import opened PostOrder
  import opened ActiveWindows

  const MAX_PACKED_LENGTH: nat := 34_561
  const MAX_UNPACKED_LENGTH: nat := 92_160
  const LONG_LENGTH_FLAG: nat := 0x800

  // ---------- numbers and their bits ----------

  /** The lowest bits of a number, the highest of them first. */
  ghost function BitsOf(x: nat, n: nat): (b: seq<bool>)
    ensures |b| == n
  {
    if n == 0 then [] else BitsOf(x / 2, n - 1) + [x % 2 == 1]
  }

  /** The bits of all numbers in a row. */
  ghost function Flat(s: seq<nat>, n: nat): (b: seq<bool>)
    ensures |b| == |s| * n
  {
    if s == [] then [] else Flat(s[..|s| - 1], n) + BitsOf(s[|s| - 1], n)
  }

  predicate Fit(s: seq<nat>, bound: nat) {
    forall k | 0 <= k < |s| :: s[k] < bound
  }

  lemma {:induction false} Join(a: nat, b: nat, m: nat, n: nat)
    requires b < Pow2(n)
    ensures BitsOf(a * Pow2(n) + b, m + n) == BitsOf(a, m) + BitsOf(b, n)
    decreases n
  {
    if n > 0 {
      var p := Pow2(n - 1);
      assert a * Pow2(n) + b == 2 * (a * p) + b;
      assert (a * Pow2(n) + b) / 2 == a * p + b / 2;
      Join(a, b / 2, m, n - 1);
      assert m + (n - 1) == m + n - 1;
    }
  }

  /** A right shift. */
  function High(x: nat, n: nat): (q: nat)
    ensures Pow2(n) > 0 && q == x / Pow2(n)
  {
    Pow2Positive(n);
    Divided(x, Pow2(n));
    x / Pow2(n)
  }

  /** The bits that a right shift drops. */
  function Low(x: nat, n: nat): (r: nat)
    ensures r < Pow2(n) && r == x % Pow2(n)
  {
    Pow2Positive(n);
    Divided(x, Pow2(n));
    x % Pow2(n)
  }

  lemma Divided(x: nat, m: nat)
    requires m > 0
    ensures 0 <= x / m && 0 <= x % m < m && x == x / m * m + x % m
  {
  }

  /** The bits of a number, cut in two. */
  lemma Cut(x: nat, m: nat, n: nat)
    ensures BitsOf(x, m + n) == BitsOf(High(x, n), m) + BitsOf(Low(x, n), n)
  {
    hide Pow2, BitsOf;
    Pow2Positive(n);
    Divided(x, Pow2(n));
    Join(High(x, n), Low(x, n), m, n);
  }

  lemma {:induction false} BitsInjective(x: nat, y: nat, n: nat)
    requires x < Pow2(n) && y < Pow2(n) && BitsOf(x, n) == BitsOf(y, n)
    ensures x == y
    decreases n
  {
    if n > 0 {
      assert BitsOf(x, n)[..n - 1] == BitsOf(x / 2, n - 1) && BitsOf(y, n)[..n - 1] == BitsOf(y / 2, n - 1);
      assert BitsOf(x, n)[n - 1] == BitsOf(y, n)[n - 1];
      BitsInjective(x / 2, y / 2, n - 1);
    }
  }

  lemma FlatSnoc(s: seq<nat>, x: nat, n: nat)
    ensures Flat(s + [x], n) == Flat(s, n) + BitsOf(x, n)
  {
    assert (s + [x])[..|s|] == s;
  }

  /** The first number's bits come first. */
  lemma {:induction false} FlatCons(s: seq<nat>, n: nat)
    requires s != []
    ensures Flat(s, n) == BitsOf(s[0], n) + Flat(s[1..], n)
    decreases |s|
  {
    var last := |s| - 1;
    if last > 0 {
      FlatCons(s[..last], n);
      assert s[..last][1..] == s[1..][..last - 1];
      assert s[1..] == s[1..][..last - 1] + [s[last]];
      FlatSnoc(s[1..][..last - 1], s[last], n);
    } else {
      assert s[..0] == [] && s[1..] == [];
    }
  }

  lemma {:induction false} FlatInjective(s: seq<nat>, t: seq<nat>, n: nat)
    requires Fit(s, Pow2(n)) && Fit(t, Pow2(n)) && |s| == |t| && Flat(s, n) == Flat(t, n)
    ensures s == t
    decreases |s|
  {
    hide Pow2, BitsOf;
    if s != [] {
      var last := |s| - 1;
      TwoParts(Flat(s[..last], n), BitsOf(s[last], n), Flat(t[..last], n), BitsOf(t[last], n));
      FlatInjective(s[..last], t[..last], n);
      BitsInjective(s[last], t[last], n);
      assert s == s[..last] + [s[last]] && t == t[..last] + [t[last]];
    }
  }

  lemma TwoParts(a: seq<bool>, b: seq<bool>, c: seq<bool>, d: seq<bool>)
    requires a + b == c + d && (|a| == |c| || |b| == |d|)
    ensures a == c && b == d
  {
    assert a == (a + b)[..|a|] && c == (c + d)[..|a|];
    assert b == (a + b)[|a|..] && d == (c + d)[|a|..];
  }

  lemma Widths()
    ensures Pow2(8) == 0x100 && Pow2(12) == 0x1000 && Pow2(20) == 0x10_0000 && Pow2(32) == 0x1_0000_0000
  {
    assert Pow2(4) == 16;
    Pow2Sum(4, 4);
    Pow2Sum(4, 8);
    Pow2Sum(8, 12);
    Pow2Sum(12, 20);
  }

  // ---------- the packed form ----------

  /** The indicator of the length: one digit of twelve bits, or two with a flag. */
  function LengthDigits(length: nat): (d: seq<nat>)
    requires length <= MAX_UNPACKED_LENGTH
    ensures |d| == 1 || |d| == 2
  {
    if length < LONG_LENGTH_FLAG then [length] else [length / 0x1000 + LONG_LENGTH_FLAG, length % 0x1000]
  }

  /** The indicator's digits fit twelve bits, the flag tells its forms apart, and what is left is the length. */
  lemma LengthIndicated(length: nat)
    requires length <= MAX_UNPACKED_LENGTH
    ensures var d := LengthDigits(length);
            && Fit(d, 0x1000) && (|d| == 1 <==> d[0] < LONG_LENGTH_FLAG)
            && length == (if |d| == 1 then d[0] else (d[0] - LONG_LENGTH_FLAG) * 0x1000 + d[1])
            && (|d| == 1 <==> length < LONG_LENGTH_FLAG)
  {
  }

  function WordsFor(digits: nat): (words: nat)
    ensures 0 <= 32 * words - 12 * digits < 32
  {
    (digits * 12 + 31) / 32
  }

  predicate Packable(chunk: seq<nat>) {
    |chunk| <= MAX_UNPACKED_LENGTH && Fit(chunk, CHUNK_SIZE)
  }

  /** The words are, bit for bit, the length and the indices, padded with zeros at the end. */
  ghost predicate IsPacked(chunk: seq<nat>, words: seq<nat>) {
    && Packable(chunk)
    && if chunk == [] then words == [] else AreBitsOf(words, LengthDigits(|chunk|) + chunk)
  }

  ghost predicate AreBitsOf(words: seq<nat>, digits: seq<nat>) {
    && Fit(words, Pow2(32)) && |words| == WordsFor(|digits|)
    && Flat(words, 32) == Flat(digits, 12) + BitsOf(0, 32 * |words| - 12 * |digits|)
  }

  lemma LengthAndIndicesFit(chunk: seq<nat>)
    requires Packable(chunk)
    ensures Fit(LengthDigits(|chunk|) + chunk, Pow2(12))
  {
    Widths();
  }

  /** A chunk has one packed form. */
  lemma PackedFormUnique(chunk: seq<nat>, v: seq<nat>, w: seq<nat>)
    requires IsPacked(chunk, v) && IsPacked(chunk, w)
    ensures v == w
  {
    hide Pow2, BitsOf, Flat;
    if chunk != [] { FlatInjective(v, w, 32); }
  }

  /** Words are the packed form of at most one chunk. */
  lemma UnpackedFormUnique(a: seq<nat>, b: seq<nat>, words: seq<nat>)
    requires IsPacked(a, words) && IsPacked(b, words)
    ensures a == b
  {
    hide Pow2, BitsOf, Flat;
    if a != [] && b != [] {
      HeaderOfPacked(a, words);
      HeaderOfPacked(b, words);
      var d, e := LengthDigits(|a|) + a, LengthDigits(|b|) + b;
      LengthAndIndicesFit(a);
      LengthAndIndicesFit(b);
      var pad := 32 * |words| - 12 * |d|;
      TwoParts(Flat(d, 12), BitsOf(0, pad), Flat(e, 12), BitsOf(0, pad));
      FlatInjective(d, e, 12);
      assert a == d[|d| - |a|..] && b == e[|e| - |b|..];
    }
  }

  // ---------- packing ----------

  /** Chunk::pack. None where it asserts that the chunk is not packed already and not too long. */
  method Pack(chunk: seq<nat>) returns (r: Option<seq<nat>>)
    ensures r.Some? <==> Packable(chunk)
    ensures r.Some? ==> IsPacked(chunk, r.value)
  {
    if |chunk| == 0 { return Some([]); }
    if exists k | 0 <= k < |chunk| :: chunk[k] >= CHUNK_SIZE { return None; }
    if |chunk| > MAX_UNPACKED_LENGTH { return None; }
    LengthAndIndicesFit(chunk);
    var words := PackDigits(LengthDigits(|chunk|) + chunk);
    r := Some(words);
  }

  /** Chunk::pack_with_length_encoding. Shifts and masks are multiplications and divisions by powers of two. */
  method PackDigits(digits: seq<nat>) returns (words: seq<nat>)
    requires Fit(digits, Pow2(12))
    ensures AreBitsOf(words, digits)
  {
    hide Pow2, BitsOf, Flat, Fit;
    words := [];
    var width, current := 0, 0;
    Nothing(digits, 12);
    for k := 0 to |digits|
      invariant 0 <= width < 32 && 12 * k == 32 * |words| + width
      invariant 0 <= current < Pow2(width) && Fit(words, Pow2(32))
      invariant Flat(words, 32) + BitsOf(current, width) == Flat(digits[..k], 12)
    {
      assert digits[..k + 1] == digits[..k] + [digits[k]];
      FlatSnoc(digits[..k], digits[k], 12);
      FitAt(digits, Pow2(12), k);
      words, current, width := PackDigit(words, current, width, digits[k]);
    }
    assert digits[..|digits|] == digits;
    if width != 0 {
      Pow2Positive(32 - width);
      Push(current, width, 0, 32 - width);
      Regroup(Flat(words, 32), BitsOf(current, width), BitsOf(0, 32 - width));
      FlatSnoc(words, current * Pow2(32 - width), 32);
      FitSnoc(words, current * Pow2(32 - width), Pow2(32));
      words := words + [current * Pow2(32 - width)];
    } else {
      NoBits(current);
    }
  }

  /** Twelve more bits. A word is complete once there are 32. */
  method PackDigit(words: seq<nat>, current: nat, width: nat, digit: nat) returns (more: seq<nat>, now: nat, left: nat)
    requires width < 32 && current < Pow2(width) && Fit(words, Pow2(32)) && digit < Pow2(12)
    ensures left < 32 && now < Pow2(left) && Fit(more, Pow2(32)) && 32 * |more| + left == 32 * |words| + width + 12
    ensures Flat(more, 32) + BitsOf(now, left) == Flat(words, 32) + BitsOf(current, width) + BitsOf(digit, 12)
  {
    hide Pow2, BitsOf, Flat, Fit;
    Push(current, width, digit, 12);
    Regroup(Flat(words, 32), BitsOf(current, width), BitsOf(digit, 12));
    more, left, now := words, width + 12, current * Pow2(12) + digit;
    if left >= 32 {
      var remainder := left - 32;
      Split(now, 32, remainder);
      Regroup(Flat(words, 32), BitsOf(High(now, remainder), 32), BitsOf(Low(now, remainder), remainder));
      FlatSnoc(words, High(now, remainder), 32);
      FitSnoc(words, High(now, remainder), Pow2(32));
      more := words + [High(now, remainder)];
      left, now := remainder, Low(now, remainder);
    }
  }

  lemma FitAt(s: seq<nat>, bound: nat, k: nat)
    requires Fit(s, bound) && k < |s|
    ensures s[k] < bound
  {
  }

  lemma FitSnoc(s: seq<nat>, x: nat, bound: nat)
    requires Fit(s, bound) && x < bound
    ensures Fit(s + [x], bound)
  {
  }

  lemma Regroup(a: seq<bool>, b: seq<bool>, c: seq<bool>)
    ensures (a + b) + c == a + (b + c)
  {
  }

  lemma Nothing(s: seq<nat>, n: nat)
    ensures Flat([], n) + BitsOf(0, 0) == Flat(s[..0], n) && Flat([], 32) == []
    ensures Pow2(0) == 1 && s[..0] == [] && Fit([], Pow2(32))
  {
  }

  lemma NoBits(x: nat)
    ensures BitsOf(x, 0) == BitsOf(0, 0) == []
  {
  }

  /** More bits at the low end. */
  lemma Push(current: nat, width: nat, x: nat, n: nat)
    requires current < Pow2(width) && x < Pow2(n)
    ensures current * Pow2(n) + x < Pow2(width + n)
    ensures BitsOf(current * Pow2(n) + x, width + n) == BitsOf(current, width) + BitsOf(x, n)
  {
    hide Pow2, BitsOf;
    Join(current, x, width, n);
    Pow2Sum(width, n);
    TopBelow(current, Pow2(width), Pow2(n), x);
  }

  lemma TopBelow(a: nat, b: nat, m: nat, x: nat)
    requires a < b && x < m
    ensures a * m + x < b * m
  {
    assert (a + 1) * m <= b * m;
  }

  /** The high bits of a number, and those that are left. */
  lemma Split(current: nat, n: nat, rest: nat)
    requires current < Pow2(n + rest)
    ensures High(current, rest) < Pow2(n)
    ensures BitsOf(current, n + rest) == BitsOf(High(current, rest), n) + BitsOf(Low(current, rest), rest)
  {
    hide Pow2, BitsOf;
    Cut(current, n, rest);
    Pow2Sum(n, rest);
    QuotientBelow(current, Pow2(n), Pow2(rest));
  }

  lemma QuotientBelow(x: nat, b: nat, m: nat)
    requires m > 0 && x < b * m
    ensures x / m < b
  {
    Divided(x, m);
    FactorBelow(x / m, b, m);
  }

  lemma FactorBelow(q: nat, b: nat, m: nat)
    requires q * m < b * m
    ensures q < b
  {
  }

  // ---------- unpacking ----------

  datatype UnpackResult =
    | Unpacked(chunk: seq<nat>)
    | PayloadTooBig
    | InconsistentLength
    | NonzeroTrailingPadding
    | NonCanonicalEmptyChunk
    | NonMinimalLengthIndicator

  datatype Header = Header(length: nat, digits: nat)

  /** The length indicator in the first word. */
  function HeaderOf(word: nat): (h: Header)
    ensures h.digits == 1 || h.digits == 2
    ensures h.digits == 1 ==> h.length < LONG_LENGTH_FLAG
  {
    var first := word / 0x10_0000 % 0x1000;
    if first < LONG_LENGTH_FLAG then Header(first, 1)
    else Header((first - LONG_LENGTH_FLAG) * 0x1000 + word / 0x100 % 0x1000, 2)
  }

  /** Read off the digits on top of a word, the header is the indicated length. */
  lemma HeaderOfDigits(word: nat, length: nat)
    requires length <= MAX_UNPACKED_LENGTH
    requires word / 0x10_0000 == LengthDigits(length)[0] < 0x1000
    requires |LengthDigits(length)| == 2 ==> word / 0x100 % 0x1000 == LengthDigits(length)[1]
    ensures HeaderOf(word) == Header(length, |LengthDigits(length)|)
  {
    LengthIndicated(length);
  }

  /** What a packed form looks like: the header tells the length, and the padding is zero. */
  lemma HeaderOfPacked(chunk: seq<nat>, words: seq<nat>)
    requires IsPacked(chunk, words) && chunk != []
    ensures 0 < |words| <= MAX_PACKED_LENGTH
    ensures HeaderOf(words[0]) == Header(|chunk|, |LengthDigits(|chunk|)|)
    ensures var pad := 32 * |words| - 12 * (|LengthDigits(|chunk|)| + |chunk|);
            Low(words[|words| - 1], pad) == 0
  {
    hide Pow2, BitsOf, Flat, HeaderOf, LengthDigits;
    var digits := LengthDigits(|chunk|) + chunk;
    var pad: nat := 32 * |words| - 12 * |digits|;
    LengthAndIndicesFit(chunk);
    Pow2Positive(pad);
    LeadingDigits(digits, words, 0, pad);
    HeaderOfDigits(words[0], |chunk|);
    Padding(digits, words, 0, pad);
  }

  /** The first word has the first two digits on top. */
  lemma LeadingDigits(digits: seq<nat>, words: seq<nat>, tail: nat, pad: nat)
    requires Fit(digits, Pow2(12)) && Fit(words, Pow2(32)) && |digits| >= 2 && words != []
    requires Flat(words, 32) == Flat(digits, 12) + BitsOf(tail, pad)
    ensures words[0] / 0x10_0000 == digits[0] < 0x1000 && words[0] / 0x100 % 0x1000 == digits[1]
  {
    hide Pow2, BitsOf, Flat;
    var high, middle, rest := WordsStart(words);
    var more := DigitsStart(digits);
    var x, y, d, e := BitsOf(high, 12), BitsOf(middle, 12), BitsOf(digits[0], 12), BitsOf(digits[1], 12);
    Regroup(d, e + more, BitsOf(tail, pad));
    Regroup(e, more, BitsOf(tail, pad));
    TwoParts(x, y + rest, d, e + (more + BitsOf(tail, pad)));
    TwoParts(y, rest, e, more + BitsOf(tail, pad));
    BitsInjective(high, digits[0], 12);
    BitsInjective(middle, digits[1], 12);
    Widths();
  }

  lemma DigitsStart(digits: seq<nat>) returns (more: seq<bool>)
    requires |digits| >= 2
    ensures Flat(digits, 12) == BitsOf(digits[0], 12) + (BitsOf(digits[1], 12) + more)
  {
    hide Pow2, BitsOf, Flat;
    FlatCons(digits, 12);
    FlatCons(digits[1..], 12);
    more := Flat(digits[1..][1..], 12);
  }

  lemma WordsStart(words: seq<nat>) returns (high: nat, middle: nat, rest: seq<bool>)
    requires words != [] && Fit(words, Pow2(32))
    ensures high < Pow2(12) && middle < Pow2(12) && high == words[0] / 0x10_0000 && middle == words[0] / 0x100 % 0x1000
    ensures Flat(words, 32) == BitsOf(high, 12) + (BitsOf(middle, 12) + rest)
  {
    hide Pow2, BitsOf, Flat;
    FlatCons(words, 32);
    var low;
    high, middle, low := TopDigits(words[0]);
    rest := BitsOf(low, 8) + Flat(words[1..], 32);
    Regroup(BitsOf(high, 12), BitsOf(middle, 12) + BitsOf(low, 8), Flat(words[1..], 32));
    Regroup(BitsOf(middle, 12), BitsOf(low, 8), Flat(words[1..], 32));
  }

  /** A word is two digits and eight more bits. */
  lemma TopDigits(word: nat) returns (high: nat, middle: nat, low: nat)
    requires word < Pow2(32)
    ensures high < Pow2(12) && middle < Pow2(12)
    ensures high == word / 0x10_0000 && middle == word / 0x100 % 0x1000
    ensures BitsOf(word, 32) == BitsOf(high, 12) + (BitsOf(middle, 12) + BitsOf(low, 8))
  {
    hide Pow2, BitsOf;
    Widths();
    Split(word, 12, 20);
    high := word / 0x10_0000;
    var rest := word % 0x10_0000;
    Split(rest, 12, 8);
    middle, low := rest / 0x100, rest % 0x100;
    QuotientUnique(word / 0x100, 0x1000, high, middle);
  }

  /** The bits after the digits are the lowest ones of the last word. */
  lemma Padding(digits: seq<nat>, words: seq<nat>, tail: nat, pad: nat)
    requires words != [] && pad < 32 && tail < Pow2(pad) && Flat(words, 32) == Flat(digits, 12) + BitsOf(tail, pad)
    ensures Low(words[|words| - 1], pad) == tail
  {
    hide Pow2, BitsOf;
    var last := words[|words| - 1];
    Cut(last, 32 - pad, pad);
    var bits := Flat(words, 32);
    assert bits[|bits| - pad..] == BitsOf(tail, pad);
    assert bits[|bits| - pad..] == BitsOf(Low(last, pad), pad);
    BitsInjective(tail, Low(last, pad), pad);
  }

  /** Chunk::try_unpack. It accepts exactly the packed forms, and gives back what was packed. */
  method TryUnpack(words: seq<nat>) returns (r: UnpackResult)
    requires Fit(words, Pow2(32))
    ensures r.Unpacked? ==> IsPacked(r.chunk, words)
    ensures !r.Unpacked? ==> forall chunk: seq<nat> :: !IsPacked(chunk, words)
  {
    hide Pow2, BitsOf, Flat, IsPacked, HeaderOf;
    if |words| == 0 {
      EmptyIsPacked();
      return Unpacked([]);
    }
    forall chunk: seq<nat> | IsPacked(chunk, words) ensures PassesChecks(words) {
      PackedPassesChecks(chunk, words);
    }
    if |words| > MAX_PACKED_LENGTH { return PayloadTooBig; }
    var header := HeaderOf(words[0]);
    if header.length == 0 { return NonCanonicalEmptyChunk; }
    if header.digits == 2 && header.length < LONG_LENGTH_FLAG { return NonMinimalLengthIndicator; }
    if WordsFor(header.length + header.digits) != |words| { return InconsistentLength; }
    var digits, tail := UnpackDigits(words, header.length + header.digits);
    var tailLength := 32 * |words| - 12 * |digits|;
    Padding(digits, words, tail, tailLength);
    if Low(words[|words| - 1], tailLength) != 0 { return NonzeroTrailingPadding; }
    DigitsArePacked(words, header, digits);
    r := Unpacked(digits[header.digits..]);
  }

  /** All checks that unpacking makes. */
  ghost predicate PassesChecks(words: seq<nat>)
    requires words != []
  {
    var header := HeaderOf(words[0]);
    var pad := 32 * |words| - 12 * (header.length + header.digits);
    && |words| <= MAX_PACKED_LENGTH && header.length > 0 && (header.digits == 2 ==> header.length >= LONG_LENGTH_FLAG)
    && |words| == WordsFor(header.length + header.digits)
    && Low(words[|words| - 1], pad) == 0
  }

  lemma EmptyIsPacked()
    ensures IsPacked([], [])
  {
  }

  lemma PackedPassesChecks(chunk: seq<nat>, words: seq<nat>)
    requires IsPacked(chunk, words) && words != []
    ensures PassesChecks(words)
  {
    hide Pow2, BitsOf, Flat, HeaderOf;
    HeaderOfPacked(chunk, words);
  }

  lemma DigitsArePacked(words: seq<nat>, header: Header, digits: seq<nat>)
    requires words != [] && header == HeaderOf(words[0]) && PassesChecks(words)
    requires |digits| == header.length + header.digits && Fit(digits, Pow2(12)) && AreBitsOf(words, digits)
    ensures IsPacked(digits[header.digits..], words)
  {
    hide Pow2, BitsOf, Flat, HeaderOf, AreBitsOf;
    var chunk := digits[header.digits..];
    FirstDigitsOf(words, digits);
    HeaderIsLength(words[0], digits[0], digits[1]);
    Widths();
    assert LengthDigits(|chunk|) + chunk == digits;
  }

  lemma FirstDigitsOf(words: seq<nat>, digits: seq<nat>)
    requires words != [] && |digits| >= 2 && Fit(digits, Pow2(12)) && AreBitsOf(words, digits)
    ensures words[0] / 0x10_0000 == digits[0] < 0x1000 && words[0] / 0x100 % 0x1000 == digits[1]
  {
    hide Pow2, BitsOf, Flat;
    LeadingDigits(digits, words, 0, 32 * |words| - 12 * |digits|);
  }

  /** A header that is in the short form whenever it can be is the indicator of the length it gives. */
  lemma HeaderIsLength(word: nat, first: nat, second: nat)
    requires word / 0x10_0000 == first < 0x1000 && word / 0x100 % 0x1000 == second
    ensures var header := HeaderOf(word);
            header.length <= MAX_UNPACKED_LENGTH && (header.digits == 2 ==> header.length >= LONG_LENGTH_FLAG) ==>
              LengthDigits(header.length) == if header.digits == 1 then [first] else [first, second]
  {
    if first >= LONG_LENGTH_FLAG {
      QuotientUnique((first - LONG_LENGTH_FLAG) * 0x1000 + second, 0x1000, first - LONG_LENGTH_FLAG, second);
    }
  }

  /** The first digits in the words, and what follows them. */
  method UnpackDigits(words: seq<nat>, count: nat) returns (digits: seq<nat>, ghost tail: nat)
    requires Fit(words, Pow2(32)) && |words| == WordsFor(count)
    ensures Fit(digits, Pow2(12)) && |digits| == count
    ensures tail < Pow2(32 * |words| - 12 * count)
    ensures Flat(words, 32) == Flat(digits, 12) + BitsOf(tail, 32 * |words| - 12 * count)
  {
    hide Pow2, BitsOf, Flat;
    digits := [];
    var width, current, remaining := 0, 0, count;
    Nothing(words, 32);
    for k := 0 to |words|
      invariant |digits| + remaining == count && 32 * k == 12 * |digits| + width
      invariant 0 <= current < Pow2(width) && Fit(digits, Pow2(12))
      invariant 0 <= width && (width < 12 || remaining == 0)
      invariant Flat(digits, 12) + BitsOf(current, width) == Flat(words[..k], 32)
    {
      assert words[..k + 1] == words[..k] + [words[k]];
      FlatSnoc(words[..k], words[k], 32);
      Push(current, width, words[k], 32);
      width, current := width + 32, current * Pow2(32) + words[k];
      while width >= 12 && remaining != 0
        invariant |digits| + remaining == count && 32 * (k + 1) == 12 * |digits| + width
        invariant 0 <= current < Pow2(width) && Fit(digits, Pow2(12)) && 0 <= width
        invariant Flat(digits, 12) + BitsOf(current, width) == Flat(words[..k + 1], 32)
      {
        Split(current, 12, width - 12);
        FlatSnoc(digits, High(current, width - 12), 12);
        digits := digits + [High(current, width - 12)];
        remaining, width, current := remaining - 1, width - 12, Low(current, width - 12);
      }
    }
    assert words[..|words|] == words;
    tail := current;
  }

  // ---------- there and back ----------

  /** Unpacking gives back what was packed. */
  method PackThenUnpack(chunk: seq<nat>) returns (r: UnpackResult)
    requires Packable(chunk)
    ensures r == Unpacked(chunk)
  {
    hide Pow2, BitsOf, Flat, IsPacked;
    var words := Pack(chunk);
    PackedFormFits(chunk, words.value);
    r := TryUnpack(words.value);
    UnpackedFormUnique(chunk, r.chunk, words.value);
  }

  /** Whatever unpacks is exactly what packing makes of the result. */
  method UnpackThenPack(words: seq<nat>) returns (r: UnpackResult, again: Option<seq<nat>>)
    requires Fit(words, Pow2(32))
    ensures r.Unpacked? ==> again == Some(words)
    ensures !r.Unpacked? ==> forall chunk: seq<nat> :: !IsPacked(chunk, words)
  {
    hide Pow2, BitsOf, Flat;
    r := TryUnpack(words);
    again := None;
    if r.Unpacked? {
      again := Pack(r.chunk);
      PackedFormUnique(r.chunk, words, again.value);
    }
  }

  lemma PackedFormFits(chunk: seq<nat>, words: seq<nat>)
    requires IsPacked(chunk, words)
    ensures Fit(words, Pow2(32))
  {
  }
}
