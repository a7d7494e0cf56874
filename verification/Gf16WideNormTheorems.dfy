/** What the wide normalisation guarantees: its products are correctly rounded and always in
    the domain it demands, its assertions cannot fail, and its scalar product of two words
    rounds once although it packs twice. */
module Gf16WideNormTheorems {
  import opened Arithmetic
  import opened Gf16
  import opened Binary32
  import opened Results
  import opened Gf16WideNorm

  // ---- The squared-ReLU product ----

  lemma FixedBound(word: int)
    requires Finite(word)
    ensures Abs(Fixed(word)) <= 1023 * Pow2(61)
  {
    FixedMagnitude(word);
    LatticeIncreasing(Code(word), MAX_FINITE);
    LatticeMax();
  }

  lemma MulMonotone(a: nat, b: nat, c: nat, d: nat)
    requires a <= c && b <= d
    ensures Mul(a, b) <= Mul(c, d)
  {
    MulOrder(b, a, c);
    MulOrder(c, b, d);
  }

  lemma ProductMagnitudeBound(gate: int, up: int)
    requires Finite(gate) && Finite(up)
    ensures ProductMagnitude(gate, up) <= 1023 * 1023 * 1023 * Pow2(183)
  {
    FixedBound(gate);
    FixedBound(up);
    var top := 1023 * Pow2(61);
    var relu: nat := Max(Fixed(gate), 0);
    MulMonotone(relu, relu, top, top);
    MulMonotone(Mul(relu, relu), Abs(Fixed(up)), Mul(top, top), top);
    CubeOfTop(Pow2(61));
    Pow2Add(61, 61);
    Pow2Add(122, 61);
  }

  lemma CubeOfTop(p: nat)
    ensures Mul(Mul(1023 * p, 1023 * p), 1023 * p) == 1023 * 1023 * 1023 * ((p * p) * p)
  {
  }

  /** For finite gate and up the product packs, keeps up's sign, and lands in the exponent
      domain that `normalize` demands. */
  lemma ProductInDomain(gate: int, up: int)
    requires Finite(gate) && Finite(up)
    ensures Product(gate, up).Ok? && InProductDomain(Product(gate, up).value)
    ensures Product(gate, up).value >= SIGN32 <==> up >= SIGN
    ensures Pack32(ProductMagnitude(gate, up), 117) == Some(Product(gate, up).value % SIGN32)
  {
    hide Pow2, Fixed;
    ProductMagnitudeBound(gate, up);
    var mag := ProductMagnitude(gate, up);
    hide ProductMagnitude;
    PackDomain(mag);
    hide Pack32;
    BiasedOfSigned(Pack32(mag, 117).value);
  }

  lemma BiasedOfSigned(bits: nat)
    requires bits < SIGN32
    ensures Biased(bits) == Biased(SIGN32 + bits) == bits / HIDDEN
    ensures (SIGN32 + bits) % SIGN32 == bits % SIGN32 == bits
  {
    assert (SIGN32 + bits) / HIDDEN == 256 + bits / HIDDEN;
  }

  lemma PackDomain(mag: nat)
    requires mag <= 1023 * 1023 * 1023 * Pow2(183)
    ensures Pack32(mag, 117).Some?
    ensures mag == 0 ==> Pack32(mag, 117).value == 0
    ensures mag > 0 ==> Log2(mag) <= 212 && 10 <= Pack32(mag, 117).value / HIDDEN <= 222
  {
    hide Pow2;
    if mag > 0 {
      var k := Log2(mag);
      var s := DivRne(mag * HIDDEN, Pow2(k));
      SignificandRange(mag);
      TopSignificand(mag, 183, Pow2(183), k, s);
      if s < 2 * HIDDEN {
        SplitWord(k + 9, s - HIDDEN);
      } else {
        SplitWord(k + 10, 0);
      }
    }
  }

  lemma TopSignificand(mag: nat, e: nat, p: nat, k: nat, s: nat)
    requires 0 < mag <= 1023 * 1023 * 1023 * p && p == Pow2(e) && k == Log2(mag)
    requires s == DivRne(mag * HIDDEN, Pow2(k))
    ensures k <= e + 29 && (k == e + 29 ==> s < 2 * HIDDEN)
  {
    hide Pow2, Log2, DivRne;
    ThirtyBitsUp(e);
    if k > e + 29 {
      Pow2Monotone(e + 30, k);
    }
    if k == e + 29 {
      DivRneBetween(mag * HIDDEN, 0x2000_0000 * p, 0, 2 * HIDDEN - 1);
    }
  }

  lemma ThirtyBitsUp(e: nat)
    ensures Pow2(e + 29) == 0x2000_0000 * Pow2(e) && Pow2(e + 30) == 0x4000_0000 * Pow2(e)
  {
    hide Pow2;
    Pow2Literals();
    Pow2Small();
    Pow2Add(24, 5);
    Pow2Add(e, 29);
    Pow2Add(29, 1);
    Pow2Add(e, 30);
  }

  /** `packed` (over 2^-149) is mag * 2^-117 with its significand rounded to 24 bits, to
      nearest, ties to even; k is the exponent of mag's leading bit. */
  ghost predicate RoundedTo24Bits(mag: nat, packed: nat, k: nat, significand: nat) {
    && Pow2(k) <= mag < Pow2(k + 1)
    && IsNearestEven(mag * HIDDEN, Pow2(k), significand)
    && packed == 512 * (significand * Pow2(k))
  }

  /** The product word is the exact product rounded to 24 bits once, so it is relatively
      within 2^-24 of it; only a zero product is zero. */
  lemma ProductRounded(gate: int, up: int) returns (k: nat, significand: nat)
    requires Finite(gate) && Finite(up)
    ensures Product(gate, up).Ok?
    ensures var g, u := Fixed(gate), Abs(Fixed(up));
      ProductMagnitude(gate, up) == if g > 0 then Mul(g * g, u) else 0
    ensures var exact, packed := ProductMagnitude(gate, up) * 0x1_0000_0000,
      Magnitude32(Product(gate, up).value % SIGN32);
      && (exact == 0 ==> packed == 0)
      && (exact > 0 ==> RoundedTo24Bits(ProductMagnitude(gate, up), packed, k, significand))
      && Abs(packed - exact) * 0x100_0000 <= exact
  {
    ProductMagnitudeIs(gate, up);
    ProductInDomain(gate, up);
    ProductMagnitudeBound(gate, up);
    var mag := ProductMagnitude(gate, up);
    hide ProductMagnitude, Product, Fixed, Mul;
    k, significand := 0, 0;
    PackDomain(mag);
    if mag > 0 {
      k := Log2(mag);
      significand := PackedSignificand(mag, 117);
      assert Pow2(k) <= mag;
      hide Pack32, Magnitude32;
      RelativeError(mag, Pow2(k), significand);
    }
  }

  lemma ProductMagnitudeIs(gate: int, up: int)
    requires Finite(gate) && Finite(up)
    ensures var g, u := Fixed(gate), Abs(Fixed(up)); ProductMagnitude(gate, up) == if g > 0 then Mul(g * g, u) else 0
  {
    hide Fixed, Finite;
  }

  lemma PackedSignificand(mag: nat, q: nat) returns (significand: nat)
    requires mag > 0 && q == 117 && Pack32(mag, q).Some?
    ensures RoundedTo24Bits(mag, Magnitude32(Pack32(mag, q).value), Log2(mag), significand)
  {
    var k := Log2(mag);
    assert Pow2(k) <= mag < Pow2(k + 1);
    hide Pow2, Pack32, Magnitude32, Mul, Log2;
    SignificandRange(mag);
    significand := DivRne(mag * HIDDEN, Pow2(k));
    PackNormal(mag, q);
    hide DivRne, IsNearestEven;
    ScaleFactor(k, q);
    ScaleOut(Magnitude32(Pack32(mag, q).value), significand, Pow2(k), Pow2(q), Pow2(k + q + 9));
  }

  lemma ScaleFactor(k: nat, q: nat)
    ensures Pow2(k + q + 9) == Pow2(k) * (512 * Pow2(q))
  {
    Pow2Small();
    hide Pow2;
    Pow2Add(k, q + 9);
    Pow2Add(9, q);
  }

  lemma ScaleOut(packed: nat, s: nat, p: nat, one: nat, all: nat)
    requires one > 0 && Mul(packed, one) == Mul(s, all) && all == p * (512 * one)
    ensures packed == 512 * (s * p)
  {
    assert s * all == (512 * (s * p)) * one;
    EqualProducts(one, packed, 512 * (s * p));
  }

  lemma RelativeError(mag: nat, p: nat, s: nat)
    requires p <= mag && IsNearestEven(mag * HIDDEN, p, s)
    ensures Abs(512 * (s * p) - mag * 0x1_0000_0000) * 0x100_0000 <= mag * 0x1_0000_0000
  {
    assert 512 * (s * p) - mag * 0x1_0000_0000 == -512 * (mag * HIDDEN - s * p);
  }

  // ---- The product of two words ----

  /** A finite magnitude is a ten-bit significand times a power of two. */
  lemma TenBits(code: nat) returns (s: nat, t: nat)
    requires code < INFINITY
    ensures s <= 1023 && Lattice(code) == s * Pow2(t)
  {
    if code < 512 {
      s, t := code, 0;
    } else {
      s, t := code % 512 + 512, code / 512 - 1;
    }
  }

  /** Packing a value of at most 24 significant bits in the normal range is exact. */
  lemma PackExact(mag: nat, s: nat, t: nat, q: nat)
    requires 0 < s < 0x100_0000 && q <= 126 && mag == Mul(s, Pow2(t))
    requires Pack32(mag, q).Some?
    ensures Mul(Magnitude32(Pack32(mag, q).value), Pow2(q)) == Mul(mag, HIDDEN * Pow2(126))
  {
    hide Pow2, Log2, Mul;
    var l := Log2(s);
    LeadingBit(mag, s, l, t);
    ShortLog(s, l);
    SignificandExact(mag, s, t, l);
    PackNormal(mag, q);
    hide Pack32, Magnitude32, DivRne;
    ExactProduct(mag, s, t, l);
  }

  lemma ExactProduct(mag: nat, s: nat, t: nat, l: nat)
    requires l <= 23 && mag == Mul(s, Pow2(t))
    ensures Mul(Mul(s, Pow2(23 - l)), Pow2(l + t + 126)) == Mul(mag, HIDDEN * Pow2(126))
  {
    hide Pow2;
    Pow2Add(23 - l, l);
    Pow2Literals();
    Pow2Add(l, t);
    Pow2Add(l + t, 126);
    RegroupFactors(s, Pow2(t), Pow2(23 - l), Pow2(l), Pow2(126), Pow2(l + t), Pow2(l + t + 126));
  }

  lemma RegroupFactors(s: nat, pt: nat, pc: nat, pl: nat, p126: nat, plt: nat, all: nat)
    requires pc * pl == HIDDEN && plt == pl * pt && all == plt * p126
    ensures (s * pc) * all == (s * pt) * (HIDDEN * p126)
  {
    assert (s * pc) * all == ((s * pc) * (pl * pt)) * p126;
    ExactSignificand(s, pt, pc, pl);
    assert (s * pt) * (HIDDEN * p126) == (s * pt * HIDDEN) * p126;
  }

  lemma ShortLog(s: nat, l: nat)
    requires 0 < s < 0x100_0000 && l == Log2(s)
    ensures l <= 23
  {
    Pow2Literals();
    if l >= 24 { Pow2Monotone(24, l); }
  }

  lemma SignificandExact(mag: nat, s: nat, t: nat, l: nat)
    requires l <= 23 && mag == Mul(s, Pow2(t))
    ensures DivRne(mag * HIDDEN, Pow2(l + t)) == Mul(s, Pow2(23 - l))
  {
    hide Pow2, DivRne;
    Pow2Literals();
    Pow2Add(23 - l, l);
    Pow2Add(l, t);
    ExactSignificand(s, Pow2(t), Pow2(23 - l), Pow2(l));
    DivRneExact(s * Pow2(23 - l), Pow2(l + t));
  }

  lemma LeadingBit(mag: nat, s: nat, l: nat, t: nat)
    requires s > 0 && l == Log2(s) && mag == Mul(s, Pow2(t))
    ensures mag > 0 && Log2(mag) == l + t
  {
    assert Pow2(l) <= s < Pow2(l + 1);
    hide Pow2, Log2;
    Pow2Add(l, t);
    Pow2Add(l + 1, t);
    ScaledBetween(Pow2(l), s, Pow2(l + 1), Pow2(t), Pow2(l + t), Pow2(l + 1 + t));
    Log2Unique(mag, l + t);
  }

  lemma ScaledBetween(a: nat, s: nat, b: nat, p: nat, ap: nat, bp: nat)
    requires a <= s < b && p > 0 && ap == a * p && bp == b * p
    ensures ap <= Mul(s, p) < bp
  {
    MulOrder(p, a, s);
    EqualProducts(p, s, b);
  }

  lemma ExactSignificand(s: nat, pt: nat, pc: nat, pl: nat)
    requires pc * pl == HIDDEN
    ensures s * pt * HIDDEN == (s * pc) * (pl * pt)
  {
    assert (s * pc) * (pl * pt) == (s * pt) * (pc * pl);
  }

  lemma PackSomeBelow(mag: nat, q: nat, e: nat)
    requires mag < Pow2(e) && q <= 126 && e <= q + 64
    ensures Pack32(mag, q).Some?
  {
    if mag > 0 {
      var k := Log2(mag);
      if k >= e { Pow2Monotone(e, k); }
      SignificandRange(mag);
    }
  }

  /** multiply rounds once: packing the product of two ten-bit significands is exact, so the
      result is the correctly rounded GF16 of the exact product, signed by both signs. */
  lemma MultiplyRoundsOnce(a: int, b: int)
    requires Finite(a) && Finite(b)
    ensures Multiply(a, b) == Ok(EncodeRatio(Mul(Abs(Fixed(a)), Abs(Fixed(b))), Pow2(78),
                                             if (a >= SIGN) != (b >= SIGN) then SIGN else 0))
  {
    hide Pow2, Fixed, Mul, Pack32, Magnitude32, Encode, EncodeWord;
    var mag := Mul(Abs(Fixed(a)), Abs(Fixed(b)));
    MultiplyPacks(a, b, mag, 78);
    var bits := Pack32(mag, 78).value;
    SignedWord(bits);
    EncodeWordIsRatio(bits);
    EncodeWordIsRatio(SIGN32 + bits);
    SameValue(Magnitude32(bits), mag, 78);
  }

  lemma SameValue(packed: nat, mag: nat, q: nat)
    requires Mul(packed, Pow2(q)) == Mul(mag, HIDDEN * Pow2(126))
    ensures Encode(packed, Pow2(149)) == Encode(mag, Pow2(q))
  {
    hide Pow2, Encode;
    Pow2Add(23, 126);
    Pow2Literals();
    EncodeSameRatio(packed, Pow2(149), mag, Pow2(q));
  }

  lemma SignedWord(bits: nat)
    requires bits < SIGN32
    ensures bits % SIGN32 == (SIGN32 + bits) % SIGN32 == bits
  {
  }

  lemma MultiplyPacks(a: int, b: int, mag: nat, q: nat)
    requires Finite(a) && Finite(b) && mag == Mul(Abs(Fixed(a)), Abs(Fixed(b))) && q == 78
    ensures Pack32(mag, q).Some?
    ensures Mul(Magnitude32(Pack32(mag, q).value), Pow2(q)) == Mul(mag, HIDDEN * Pow2(126))
  {
    hide Pow2, Fixed, Lattice, Mul, Pack32, Magnitude32;
    FixedMagnitude(a);
    FixedMagnitude(b);
    var x, y := Abs(Fixed(a)), Abs(Fixed(b));
    var s1, t1 := TenBits(Code(a));
    var s2, t2 := TenBits(Code(b));
    FixedBound(a);
    FixedBound(b);
    ProductBelow(x, y);
    PackSomeBelow(mag, q, 142);
    ProductOfTenBits(x, s1, t1, y, s2, t2);
    if mag > 0 {
      PackExact(mag, s1 * s2, t1 + t2, q);
    } else {
      PackZero(q);
    }
  }

  lemma PackZero(q: nat)
    ensures Pack32(0, q) == Some(0) && Mul(Magnitude32(0), Pow2(q)) == 0 == Mul(0, HIDDEN * Pow2(126))
  {
    hide Pow2;
  }

  lemma ProductBelow(x: nat, y: nat)
    requires x <= 1023 * Pow2(61) && y <= 1023 * Pow2(61)
    ensures Mul(x, y) < Pow2(142)
  {
    hide Pow2;
    var p := Pow2(61);
    MulMonotone(x, y, 1023 * p, 1023 * p);
    Pow2Add(61, 61);
    Pow2Add(20, 122);
    Pow2Add(10, 10);
    Pow2Small();
    assert (1023 * p) * (1023 * p) == 1023 * 1023 * (p * p);
  }

  lemma ProductOfTenBits(x: nat, s1: nat, t1: nat, y: nat, s2: nat, t2: nat)
    requires s1 <= 1023 && s2 <= 1023 && x == s1 * Pow2(t1) && y == s2 * Pow2(t2)
    ensures Mul(x, y) == Mul(s1 * s2, Pow2(t1 + t2))
    ensures s1 * s2 < 0x100_0000
    ensures Mul(x, y) > 0 ==> s1 * s2 > 0
  {
    hide Pow2;
    MulMonotone(s1, s2, 1023, 1023);
    Pow2Add(t1, t2);
    FourFactors(s1, Pow2(t1), s2, Pow2(t2));
  }

  lemma FourFactors(s1: nat, p1: nat, s2: nat, p2: nat)
    ensures (s1 * p1) * (s2 * p2) == (s1 * s2) * (p1 * p2)
  {
  }
}
