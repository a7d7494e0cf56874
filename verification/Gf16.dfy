/** The 16-bit float GF16 (sign, six exponent bits, nine mantissa bits, gradual underflow):
    its value lattice in units of 2^-39 and the correctly rounded encoding of a rational. */
module Gf16 {
  import opened Arithmetic

  const SIGN: nat := 0x8000
  const INFINITY: nat := 0x7e00
  const MAX_FINITE: nat := 0x7dff
  const Q39: nat := 0x80_0000_0000            // 2^39
  const TWO_71: nat := 0x80_0000_0000_0000_0000 // 2^71, the first magnitude past the finite ones

  /** A word whose exponent field is not all ones. */
  predicate Finite(word: int) {
    0 <= word <= 0xffff && (word / 512) % 64 != 63
  }

  ghost predicate AllFinite(words: seq<int>) {
    forall i :: 0 <= i < |words| ==> Finite(words[i])
  }

  /** The magnitude of a code 0..INFINITY times 2^39. INFINITY itself stands for 2^32, the
      point the next binade would start at. */
  function Lattice(code: nat): nat {
    if code < 512 then code else (code % 512 + 512) * Pow2(code / 512 - 1)
  }

  function Code(word: nat): nat {
    word % SIGN
  }

  /** The exact signed value of a finite word times 2^39. */
  function Fixed(word: int): int
    requires Finite(word)
  {
    var magnitude: int := Lattice(Code(word));
    if word >= SIGN then -magnitude else magnitude
  }

  /** The fields of a finite word. */
  function Exponent(word: nat): nat {
    word / 512 % 64
  }

  function Mantissa(word: nat): (m: nat)
    ensures m < 512
  {
    word % 512
  }

  /** The magnitude of a finite word as a ratio: mantissa / 2^39 in the lowest binade, and
      (1 + mantissa / 512) * 2^(exponent - 31) above it. */
  function ValueRatio(word: nat): (r: (nat, nat))
    ensures r.1 > 0
  {
    var e, m := Exponent(word), Mantissa(word);
    if e == 0 then (m, Pow2(39))
    else if e >= 31 then (Mul(512 + m, Pow2(e - 31)), 512)
    else (512 + m, 512 * Pow2(31 - e))
  }

  /** The value a word decodes to, times 2^39, is its fixed-point integer. */
  lemma ValueIsFixed(word: int)
    requires Finite(word)
    ensures Mul(ValueRatio(word).0, Pow2(39)) == Mul(Abs(Fixed(word)), ValueRatio(word).1)
    ensures word >= SIGN ==> Fixed(word) <= 0
    ensures word < SIGN ==> Fixed(word) >= 0
  {
    FixedMagnitude(word);
    WordFields(word);
    hide Fixed, Pow2;
    var e, m := Exponent(word), Mantissa(word);
    if e == 0 {
      assert Lattice(Code(word)) == m;
    } else {
      assert Lattice(Code(word)) == Mul(512 + m, Pow2(e - 1));
      hide Lattice;
      BinadeRatio(512 + m, e);
    }
  }

  lemma WordFields(word: nat)
    requires Finite(word)
    ensures Code(word) == 512 * Exponent(word) + Mantissa(word)
  {
    var h := if word >= SIGN then 1 else 0;
    var c := word - SIGN * h;
    DivModUnique(word, SIGN, h, c);
    DivModUnique(word, 512, 64 * h + c / 512, c % 512);
    DivModUnique(word / 512, 64, h, c / 512);
  }

  lemma BinadeRatio(s: nat, e: nat)
    requires 1 <= e
    ensures e >= 31 ==> Mul(Mul(s, Pow2(e - 31)), Pow2(39)) == Mul(Mul(s, Pow2(e - 1)), 512)
    ensures e < 31 ==> Mul(s, Pow2(39)) == Mul(Mul(s, Pow2(e - 1)), 512 * Pow2(31 - e))
  {
    Pow2Small();
    hide Pow2;
    if e >= 31 {
      Pow2Add(e - 31, 39);
      Pow2Add(e - 1, 9);
      SameScaled(s, Pow2(e - 31), Pow2(39), Pow2(e - 1), 512, Pow2(e + 8));
    } else {
      Pow2Add(e - 1, 31 - e);
      Pow2Add(30, 9);
      ScaledOnce(s, Pow2(e - 1), Pow2(31 - e), Pow2(30), Pow2(39));
    }
  }

  lemma SameScaled(s: nat, a: nat, b: nat, c: nat, d: nat, all: nat)
    requires all == a * b && all == c * d
    ensures Mul(Mul(s, a), b) == Mul(Mul(s, c), d)
  {
    assert (s * a) * b == s * (a * b);
    assert (s * c) * d == s * (c * d);
  }

  lemma ScaledOnce(s: nat, a: nat, b: nat, ab: nat, all: nat)
    requires ab == a * b && all == ab * 512
    ensures Mul(s, all) == Mul(Mul(s, a), 512 * b)
  {
    assert (s * a) * (512 * b) == s * (512 * (a * b));
  }

  lemma FiniteCode(word: int)
    requires 0 <= word <= 0xffff
    ensures Finite(word) <==> Code(word) < INFINITY
  {
    var h := if word >= SIGN then 1 else 0;
    var c := word - SIGN * h;
    DivModUnique(word, SIGN, h, c);
    DivModUnique(word, 512, 64 * h + c / 512, c % 512);
    DivModUnique(word / 512, 64, h, c / 512);
  }

  lemma FixedMagnitude(word: int)
    requires Finite(word)
    ensures Abs(Fixed(word)) == Lattice(Code(word)) && Code(word) < INFINITY
    ensures word == (if word >= SIGN then SIGN else 0) + Code(word)
  {
    hide Lattice, Pow2;
    FiniteCode(word);
  }

  lemma LatticeStep(code: nat)
    ensures Lattice(code) < Lattice(code + 1)
  {
    if code >= 511 {
      var e, m := code / 512, code % 512;
      if m < 511 {
        assert (code + 1) / 512 == e && (code + 1) % 512 == m + 1;
        assert e >= 1;
        EqualProducts(Pow2(e - 1), m + 512, m + 513);
      } else {
        assert (code + 1) / 512 == e + 1 && (code + 1) % 512 == 0;
        if e >= 1 {
          assert Pow2(e) == 2 * Pow2(e - 1);
        }
      }
    }
  }

  /** The value lattice is strictly increasing in the code. */
  lemma {:induction false} LatticeIncreasing(a: nat, b: nat)
    requires a <= b
    ensures Lattice(a) <= Lattice(b)
    ensures a < b ==> Lattice(a) < Lattice(b)
    decreases b - a
  {
    if a >= b {
    } else {
      LatticeIncreasing(a, b - 1);
      LatticeStep(b - 1);
    }
  }

  // ---- Encoding a rational ----

  /** How far scaled/den lies above a lattice value, times den. */
  function Gap(scaled: nat, den: nat, code: nat): int {
    scaled - Lattice(code) * den
  }

  lemma GapDecreasing(scaled: nat, den: nat, a: nat, b: nat)
    requires den > 0 && a < b
    ensures Gap(scaled, den, a) > Gap(scaled, den, b)
  {
    LatticeIncreasing(a, b);
    EqualProducts(den, Lattice(a), Lattice(b));
  }

  /** The first code from `k` on whose value reaches scaled/den, INFINITY if none does. */
  function CeilCode(scaled: nat, den: nat, k: nat): (c: nat)
    requires den > 0 && k <= INFINITY
    ensures k <= c <= INFINITY
    ensures c < INFINITY ==> Gap(scaled, den, c) <= 0
    ensures forall i: nat :: k <= i < c ==> Gap(scaled, den, i) > 0
    decreases INFINITY - k
  {
    if k == INFINITY || Gap(scaled, den, k) <= 0 then k else CeilCode(scaled, den, k + 1)
  }

  /** Which of the two lattice neighbours of scaled/den the encoder takes, given the upper. */
  function Choose(scaled: nat, den: nat, high: nat): nat
    requires den > 0 && high <= INFINITY
  {
    if high == INFINITY then
      if scaled * 2 >= (Lattice(MAX_FINITE) + TWO_71) * den then INFINITY else MAX_FINITE
    else if high == 0 then 0
    else
      var low := high - 1;
      var left, right := Gap(scaled, den, low), -Gap(scaled, den, high);
      if left < right || (left == right && low % 2 == 0) then low else high
  }

  /** The code of numerator/denominator. */
  function Encode(numerator: nat, denominator: nat): (code: nat)
    requires denominator > 0
    ensures code <= INFINITY
  {
    var scaled := numerator * Q39;
    Choose(scaled, denominator, CeilCode(scaled, denominator, 0))
  }

  function EncodeRatio(numerator: nat, denominator: nat, sign: nat): nat
    requires denominator > 0 && sign in {0, SIGN}
  {
    sign + Encode(numerator, denominator)
  }

  /** bisect_left on the table of finite magnitudes. */
  method BisectLattice(target: nat) returns (index: nat)
    ensures index <= INFINITY
    ensures forall i: nat :: i < index ==> Lattice(i) < target
    ensures forall i: nat :: index <= i < INFINITY ==> Lattice(i) >= target
  {
    var end: nat := INFINITY;
    index := 0;
    while index < end
      invariant index <= end <= INFINITY
      invariant forall i: nat :: i < index ==> Lattice(i) < target
      invariant forall i: nat :: end <= i < INFINITY ==> Lattice(i) >= target
    {
      var mid := (index + end) / 2;
      if Lattice(mid) < target {
        forall i: nat | i <= mid ensures Lattice(i) < target { LatticeIncreasing(i, mid); }
        index := mid + 1;
      } else {
        forall i: nat | mid <= i < INFINITY ensures Lattice(i) >= target { LatticeIncreasing(mid, i); }
        end := mid;
      }
    }
  }

  /** The encoder as the code runs it: a binary search for the floor of the scaled ratio,
      then single steps up to the ratio itself. */
  method EncodeRatioSearch(numerator: nat, denominator: nat, sign: nat) returns (word: nat)
    requires denominator > 0 && sign in {0, SIGN}
    ensures word == EncodeRatio(numerator, denominator, sign)
  {
    hide Gap, Lattice, Choose;
    var scaled := numerator * Q39;
    var target := scaled / denominator;
    FloorNonNegative(scaled, denominator);
    var high := BisectLattice(target);
    BelowFloor(scaled, denominator, high);
    while high < INFINITY && Gap(scaled, denominator, high) > 0
      invariant high <= INFINITY
      invariant forall i: nat :: i < high ==> Gap(scaled, denominator, i) > 0
    {
      high := high + 1;
    }
    CeilCodeIs(scaled, denominator, high);
    word := sign + Choose(scaled, denominator, high);
  }

  lemma FloorNonNegative(scaled: nat, den: nat)
    requires den > 0
    ensures scaled / den >= 0
  {
  }

  lemma BelowFloor(scaled: nat, den: nat, high: nat)
    requires den > 0 && forall i: nat :: i < high ==> Lattice(i) < scaled / den
    ensures forall i: nat :: i < high ==> Gap(scaled, den, i) > 0
  {
    forall i: nat | i < high ensures Gap(scaled, den, i) > 0 {
      EqualProducts(den, Lattice(i), scaled / den);
      assert scaled == (scaled / den) * den + scaled % den;
    }
  }

  lemma CeilCodeIs(scaled: nat, den: nat, high: nat)
    requires den > 0 && high <= INFINITY && (high < INFINITY ==> Gap(scaled, den, high) <= 0)
    requires forall i: nat :: i < high ==> Gap(scaled, den, i) > 0
    ensures CeilCode(scaled, den, 0) == high
  {
  }

  // ---- Correct rounding ----

  /** `code` is at least as near scaled/den as every other code, and even where one ties. */
  ghost predicate IsNearestCode(scaled: nat, den: nat, code: nat) {
    && code <= INFINITY
    && forall k: nat :: k <= INFINITY && k != code ==>
      && Abs(Gap(scaled, den, code)) <= Abs(Gap(scaled, den, k))
      && (Abs(Gap(scaled, den, code)) == Abs(Gap(scaled, den, k)) ==> code % 2 == 0)
  }

  lemma LatticeInfinity()
    ensures Lattice(INFINITY) == TWO_71
  {
    Pow2Literals();
    Pow2Add(23, 39);
    assert Lattice(INFINITY) == 512 * Pow2(62);
  }

  /** The encoder is correctly rounded for every non-negative rational: nearest on the
      lattice, ties to the even code, infinity from the overflow midpoint on. */
  lemma EncodeNearest(num: nat, den: nat)
    requires den > 0
    ensures IsNearestCode(num * Q39, den, Encode(num, den))
  {
    var scaled := num * Q39;
    var high := CeilCode(scaled, den, 0);
    if high == INFINITY {
      InfinityTie(scaled, den);
      ChosenIsNearest(scaled, den, high, Choose(scaled, den, high));
    } else {
      ChooseBelowInfinity(scaled, den, high);
      ChosenIsNearest(scaled, den, high, Choose(scaled, den, high));
    }
  }

  lemma ChooseBelowInfinity(scaled: nat, den: nat, high: nat)
    requires den > 0 && high < INFINITY && Gap(scaled, den, high) <= 0
    requires high > 0 ==> Gap(scaled, den, high - 1) > 0
    ensures var code := Choose(scaled, den, high); IsChoice(scaled, den, high, code)
  {
  }

  /** Whichever of the two neighbours is nearer, the even one if neither is. */
  ghost predicate IsChoice(scaled: nat, den: nat, high: nat, code: nat) {
    if high == 0 then code == 0 else
      || (code == high && Gap(scaled, den, high - 1) >= Abs(Gap(scaled, den, high))
          && (Gap(scaled, den, high - 1) == Abs(Gap(scaled, den, high)) ==> code % 2 == 0))
      || (code == high - 1 && Gap(scaled, den, high - 1) <= Abs(Gap(scaled, den, high))
          && (Gap(scaled, den, high - 1) == Abs(Gap(scaled, den, high)) ==> code % 2 == 0))
  }

  lemma ChosenIsNearest(scaled: nat, den: nat, high: nat, code: nat)
    requires den > 0 && high <= INFINITY && (high < INFINITY ==> Gap(scaled, den, high) <= 0)
    requires high > 0 ==> Gap(scaled, den, high - 1) > 0
    requires IsChoice(scaled, den, high, code)
    ensures IsNearestCode(scaled, den, code)
  {
    forall k: nat | k <= INFINITY && k != code
      ensures Abs(Gap(scaled, den, code)) <= Abs(Gap(scaled, den, k))
      ensures Abs(Gap(scaled, den, code)) == Abs(Gap(scaled, den, k)) ==> code % 2 == 0
    {
      if high == 0 {
        GapDecreasing(scaled, den, 0, k);
      } else if k < high - 1 {
        GapDecreasing(scaled, den, k, high - 1);
      } else if k > high {
        GapDecreasing(scaled, den, high, k);
      }
    }
  }

  lemma InfinityTie(scaled: nat, den: nat)
    requires den > 0 && Gap(scaled, den, MAX_FINITE) > 0
    ensures IsChoice(scaled, den, INFINITY, Choose(scaled, den, INFINITY))
  {
    LatticeInfinity();
    GapDecreasing(scaled, den, MAX_FINITE, INFINITY);
    var u, v := Lattice(MAX_FINITE), Lattice(INFINITY);
    Distribute(u, v, den);
    Halfway(scaled, u * den, v * den, (u + v) * den);
    hide Lattice;
  }

  /** Nearest-even on the lattice leaves no choice either. */
  lemma NearestCodeUnique(scaled: nat, den: nat, a: nat, b: nat)
    requires den > 0 && IsNearestCode(scaled, den, a) && IsNearestCode(scaled, den, b)
    ensures a == b
  {
    if a < b {
      NearestCodesClash(scaled, den, a, b);
    } else if b < a {
      NearestCodesClash(scaled, den, b, a);
    }
  }

  lemma NearestCodesClash(scaled: nat, den: nat, lo: nat, hi: nat)
    requires den > 0 && lo < hi && IsNearestCode(scaled, den, lo)
    ensures !IsNearestCode(scaled, den, hi)
  {
    if IsNearestCode(scaled, den, hi) {
      assert Abs(Gap(scaled, den, lo)) <= Abs(Gap(scaled, den, hi));
      assert Abs(Gap(scaled, den, hi)) <= Abs(Gap(scaled, den, lo));
      EvenNeighbourNearer(scaled, den, lo, hi);
    }
  }

  /** Between two even codes at equal distance lies a nearer code. */
  lemma EvenNeighbourNearer(scaled: nat, den: nat, lo: nat, hi: nat)
    requires den > 0 && lo < hi && lo % 2 == 0 && hi % 2 == 0
    requires Abs(Gap(scaled, den, lo)) == Abs(Gap(scaled, den, hi))
    ensures Abs(Gap(scaled, den, lo + 1)) < Abs(Gap(scaled, den, lo))
  {
    GapDecreasing(scaled, den, lo, lo + 1);
    GapDecreasing(scaled, den, lo + 1, hi);
  }

  /** A ratio equal to a lattice value encodes to that value's code. */
  lemma EncodeExact(num: nat, den: nat, code: nat)
    requires den > 0 && code <= INFINITY && num * Q39 == Lattice(code) * den
    ensures Encode(num, den) == code
  {
    var scaled := num * Q39;
    assert Gap(scaled, den, code) == 0;
    if code > 0 {
      GapDecreasing(scaled, den, code - 1, code);
    }
    assert IsNearestCode(scaled, den, code) by {
      ChosenIsNearest(scaled, den, code, code);
    }
    EncodeNearest(num, den);
    NearestCodeUnique(scaled, den, code, Encode(num, den));
  }

  /** Encoding the exact value of a finite word returns the word; a negative zero keeps its
      sign bit because the caller passes it. */
  lemma RoundTrip(word: int)
    requires Finite(word)
    ensures EncodeRatio(Abs(Fixed(word)), Q39, if word >= SIGN then SIGN else 0) == word
  {
    FixedMagnitude(word);
    EncodeExact(Lattice(Code(word)), Q39, Code(word));
  }

  /** A ratio not above a lattice value encodes to a code not above its code. */
  lemma EncodeAtMost(num: nat, den: nat, code: nat)
    requires den > 0 && code <= INFINITY && num * Q39 <= Lattice(code) * den
    ensures Encode(num, den) <= code
  {
    assert Gap(num * Q39, den, code) <= 0;
  }

  /** Only the ratio decides the encoding, not the pair that writes it. */
  lemma EncodeSameRatio(n1: nat, d1: nat, n2: nat, d2: nat)
    requires d1 > 0 && d2 > 0 && n1 * d2 == n2 * d1
    ensures Encode(n1, d1) == Encode(n2, d2)
  {
    EncodeMonotone(n1, d1, n2, d2);
    EncodeMonotone(n2, d2, n1, d1);
  }

  /** Rounding to the lattice keeps order: a larger ratio never gets a smaller code. */
  lemma EncodeMonotone(n1: nat, d1: nat, n2: nat, d2: nat)
    requires d1 > 0 && d2 > 0 && n1 * d2 <= n2 * d1
    ensures Encode(n1, d1) <= Encode(n2, d2)
  {
    var s1, s2 := n1 * Q39, n2 * Q39;
    EncodeNearest(n1, d1);
    EncodeNearest(n2, d2);
    ScaleOrder(Q39, n1, d1, n2, d2);
    NearestCodeMonotone(s1, d1, Encode(n1, d1), s2, d2, Encode(n2, d2));
  }

  lemma ScaleOrder(k: nat, n1: nat, d1: nat, n2: nat, d2: nat)
    requires n1 * d2 <= n2 * d1
    ensures (n1 * k) * d2 <= (n2 * k) * d1
  {
    MulOrder(k, n1 * d2, n2 * d1);
    assert (n1 * k) * d2 == k * (n1 * d2) && (n2 * k) * d1 == k * (n2 * d1);
  }

  lemma NearestCodeMonotone(s1: nat, d1: nat, a: nat, s2: nat, d2: nat, b: nat)
    requires d1 > 0 && d2 > 0 && s1 * d2 <= s2 * d1
    requires IsNearestCode(s1, d1, a) && IsNearestCode(s2, d2, b)
    ensures a <= b
  {
    if a > b {
      PastMidpoint(s1, d1, a, b);
      PastMidpoint(s2, d2, a, b);
      assert Abs(Gap(s1, d1, a)) <= Abs(Gap(s1, d1, b));
      assert Abs(Gap(s2, d2, b)) <= Abs(Gap(s2, d2, a));
      SameMidpoint(Lattice(a) + Lattice(b), s1, d1, s2, d2);
      EvenNeighbourNearer(s1, d1, b, a);
      assert false;
    }
  }

  /** Which of two codes is nearer depends on the side of their midpoint. */
  lemma PastMidpoint(s: nat, d: nat, a: nat, b: nat)
    requires d > 0 && a > b
    ensures Abs(Gap(s, d, a)) <= Abs(Gap(s, d, b)) <==> 2 * s >= (Lattice(a) + Lattice(b)) * d
    ensures Abs(Gap(s, d, b)) <= Abs(Gap(s, d, a)) <==> 2 * s <= (Lattice(a) + Lattice(b)) * d
  {
    GapDecreasing(s, d, b, a);
    var u, v := Lattice(a), Lattice(b);
    Distribute(u, v, d);
    Halfway(s, v * d, u * d, (u + v) * d);
  }

  lemma Distribute(u: int, v: int, d: int)
    ensures (u + v) * d == u * d + v * d
  {
  }

  lemma Halfway(s: int, x: int, y: int, sum: int)
    requires x < y && sum == x + y
    ensures Abs(s - y) <= Abs(s - x) <==> 2 * s >= sum
    ensures Abs(s - x) <= Abs(s - y) <==> 2 * s <= sum
  {
  }

  /** Two ordered ratios on the wrong sides of a midpoint both lie on it. */
  lemma SameMidpoint(f: nat, s1: nat, d1: nat, s2: nat, d2: nat)
    requires d1 > 0 && d2 > 0 && s1 * d2 <= s2 * d1
    requires 2 * s1 >= f * d1 && 2 * s2 <= f * d2
    ensures 2 * s1 == f * d1 && 2 * s2 == f * d2
  {
    MulOrder(d2, f * d1, 2 * s1);
    MulOrder(d1, 2 * s2, f * d2);
    assert d2 * (f * d1) == d1 * (f * d2);
    EqualProducts(d2, f * d1, 2 * s1);
    EqualProducts(d1, 2 * s2, f * d2);
  }
}
