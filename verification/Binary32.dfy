/** IEEE 754 binary32 as struct packs and unpacks it, on exact values, and the GF16 encoder
    of a binary32 word. */
module Binary32 {
  import opened Arithmetic
  import opened Gf16
  import opened Results

  const SIGN32: nat := 0x8000_0000
  const INFINITY32: nat := 0x7f80_0000
  const HIDDEN: nat := 0x80_0000 // 2^23

  /** The magnitude of a 31-bit pattern below or at infinity, times 2^149. */
  function Magnitude32(bits: nat): nat {
    if bits < HIDDEN then bits else (bits % HIDDEN + HIDDEN) * Pow2(bits / HIDDEN - 1)
  }

  /** The 31 magnitude bits of mag * 2^-q rounded to binary32; None is the OverflowError of
      struct.pack. */
  function Pack32(mag: nat, q: nat): (bits: Option<nat>)
    ensures bits.Some? ==> bits.value < INFINITY32
  {
    if mag == 0 then Some(0) else
      var k := Log2(mag);
      var word := if k + 126 < q then DivRne(mag * Pow2(149), Pow2(q))
                  else (k + 126 - q) * HIDDEN + DivRne(mag * HIDDEN, Pow2(k));
      PackNonNegative(mag, q);
      if word < INFINITY32 then Some(word) else None
  }

  lemma PackNonNegative(mag: nat, q: nat)
    requires mag > 0
    ensures 0 <= DivRne(mag * Pow2(149), Pow2(q))
    ensures HIDDEN <= DivRne(mag * HIDDEN, Pow2(Log2(mag))) <= 2 * HIDDEN
  {
    DivRneMonotone(0, 1, mag * Pow2(149), Pow2(q));
    SignificandRange(mag);
  }

  lemma SignificandRange(mag: nat)
    requires mag > 0
    ensures HIDDEN <= DivRne(mag * HIDDEN, Pow2(Log2(mag))) <= 2 * HIDDEN
  {
    var p := Pow2(Log2(mag));
    assert p <= mag < 2 * p;
    DivRneBetween(mag * HIDDEN, p, HIDDEN, 2 * HIDDEN);
  }

  /** A normal result is the exact value with its significand rounded once to 24 bits, and
      so within 2^-24 of it relatively. */
  lemma PackNormal(mag: nat, q: nat)
    requires mag > 0 && Log2(mag) + 126 >= q && Pack32(mag, q).Some?
    ensures var significand := DivRne(mag * HIDDEN, Pow2(Log2(mag)));
      && significand >= 0
      && Mul(Magnitude32(Pack32(mag, q).value), Pow2(q)) == Mul(significand, Pow2(Log2(mag) + 126))
      && IsNearestEven(mag * HIDDEN, Pow2(Log2(mag)), significand)
  {
    hide Pow2, Log2;
    var k := Log2(mag);
    var significand := DivRne(mag * HIDDEN, Pow2(k));
    SignificandRange(mag);
    Pow2Step(k + 126 - q);
    var e := k + 126 - q;
    var word := e * HIDDEN + significand;
    if significand < 2 * HIDDEN {
      SplitWord(e, significand - HIDDEN);
      assert Magnitude32(word) == significand * Pow2(e);
    } else {
      SplitWord(e + 1, 0);
      assert Magnitude32(word) == HIDDEN * Pow2(e + 1) == significand * Pow2(e);
    }
    Pow2Add(e, q);
    MulAssociative(significand, Pow2(e), Pow2(q));
  }

  lemma Pow2Step(k: nat)
    ensures Pow2(k + 1) == 2 * Pow2(k)
  {
  }

  lemma MulAssociative(a: int, b: int, c: int)
    ensures (a * b) * c == a * (b * c)
  {
  }

  lemma SplitWord(e: nat, fraction: nat)
    requires fraction < HIDDEN
    ensures ((e + 1) * HIDDEN + fraction) / HIDDEN == e + 1
    ensures ((e + 1) * HIDDEN + fraction) % HIDDEN == fraction
  {
  }

  // ---- gf16_reference.encode ----

  /** The search of the finite magnitudes for mag/one, both scaled by 2^39 as in Gf16. */
  function TableSearch(mag: nat, one: nat): nat
    requires one > 0
  {
    var scaled := mag * Q39;
    if mag >= 0xffe0_0000 * one then INFINITY else
      var high := CeilCode(scaled, one, 0);
      if high == 0 then 0
      else if high == INFINITY then high - 1
      else
        var low := high - 1;
        var left, right := Gap(scaled, one, low), -Gap(scaled, one, high);
        if left < right || (left == right && low % 2 == 0) then low else high
  }

  /** GF16 of the binary32 word: NaN is 0x7e01, values from the overflow midpoint on are
      infinite, others go to the nearer table neighbour, ties to even. */
  function EncodeWord(word: nat): nat
    requires word < 2 * SIGN32
  {
    var bits := word % SIGN32;
    if bits > INFINITY32 then 0x7e01 else
      var sign := if word >= SIGN32 then SIGN else 0;
      sign + TableSearch(Magnitude32(bits), Pow2(149))
  }

  /** The table search of `encode` and the lattice search of `encode_ratio` agree on every
      binary32 value. */
  lemma EncodeWordIsRatio(word: nat)
    requires word < 2 * SIGN32 && word % SIGN32 <= INFINITY32
    ensures EncodeWord(word) ==
      EncodeRatio(Magnitude32(word % SIGN32), Pow2(149), if word >= SIGN32 then SIGN else 0)
  {
    var mag, one := Magnitude32(word % SIGN32), Pow2(149);
    OverflowMidpoint(mag, one);
    TableSearchAgrees(mag, one, CeilCode(mag * Q39, one, 0));
  }

  lemma TableSearchAgrees(mag: nat, one: nat, high: nat)
    requires one > 0 && high == CeilCode(mag * Q39, one, 0)
    requires mag >= 0xffe0_0000 * one <==> mag * Q39 * 2 >= (Lattice(MAX_FINITE) + TWO_71) * one
    requires mag >= 0xffe0_0000 * one ==> Gap(mag * Q39, one, MAX_FINITE) > 0
    ensures TableSearch(mag, one) == Encode(mag, one)
  {
    hide Gap, Lattice;
    if mag >= 0xffe0_0000 * one && high < MAX_FINITE {
      GapDecreasing(mag * Q39, one, high, MAX_FINITE);
    }
  }

  lemma OverflowMidpoint(mag: nat, one: nat)
    requires one > 0
    ensures mag >= 0xffe0_0000 * one <==> mag * Q39 * 2 >= (Lattice(MAX_FINITE) + TWO_71) * one
    ensures mag >= 0xffe0_0000 * one ==> mag * Q39 > Lattice(MAX_FINITE) * one
  {
    LatticeMax();
    hide Lattice;
    assert Lattice(MAX_FINITE) * one == Q39 * (0xffc0_0000 * one);
  }

  lemma LatticeTop(code: nat, e: nat)
    requires code == 511 + 512 * (e + 1)
    ensures Lattice(code) == 1023 * Pow2(e)
  {
  }

  lemma LatticeMax()
    ensures Lattice(MAX_FINITE) == 1023 * Pow2(61) == 0xffc0_0000 * Q39
    ensures TWO_71 == 0x1_0000_0000 * Q39
  {
    LatticeTop(MAX_FINITE, 61);
    Pow2Literals();
    Pow2Add(23, 39);
    assert Pow2(62) == 2 * Pow2(61);
  }

  /** Infinity is the exponent field 255; the word before it has 24 significant bits, all ones, at the
      greatest exponent. */
  lemma LargestFinite()
    ensures INFINITY32 == 255 * HIDDEN && Magnitude32(INFINITY32 - 1) == (2 * HIDDEN - 1) * Pow2(253)
  {
    hide Pow2;
    assert (INFINITY32 - 1) / HIDDEN == 254 && (INFINITY32 - 1) % HIDDEN == HIDDEN - 1;
  }
}
