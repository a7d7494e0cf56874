/** The 128-bit product of the freestanding wasm build, from 64-bit products only. Every addition and
    multiplication of the C code is taken modulo 2^64. */
module WasmMul {
  import opened Arithmetic

  /** uint64_t arithmetic. */
  function Add64(a: nat, b: nat): (r: nat)
    ensures r < 0x1_0000_0000_0000_0000
  {
    (a + b) % 0x1_0000_0000_0000_0000
  }

  function Mul64(a: nat, b: nat): (r: nat)
    ensures r < 0x1_0000_0000_0000_0000
  {
    Mul(a, b) % 0x1_0000_0000_0000_0000
  }

  function Lo(a: nat): (r: nat)
    ensures r < 0x1_0000_0000
  {
    a % 0x1_0000_0000
  }

  function Hi(a: nat): nat {
    a / 0x1_0000_0000
  }

  /** A 64-bit number shifted up 32 bits. */
  function Shifted(a: nat): nat {
    a * 0x1_0000_0000 % 0x1_0000_0000_0000_0000
  }

  /** The halves of a product, as tf_wasm_mul64 computes them: (high, low). */
  function Halves(x: nat, y: nat): (nat, nat) {
    var x0, x1, y0, y1 := Lo(x), Hi(x), Lo(y), Hi(y);
    var p00, p01, p10, p11 := Mul64(x0, y0), Mul64(x0, y1), Mul64(x1, y0), Mul64(x1, y1);
    var mid := Add64(Add64(Hi(p00), Lo(p01)), Lo(p10));
    var low := Shifted(mid) + Lo(p00);
    var high := Add64(Add64(Add64(p11, Hi(p01)), Hi(p10)), Hi(mid));
    (high, low)
  }

  function Wide(x: nat, y: nat): nat {
    Halves(x, y).0 * 0x1_0000_0000_0000_0000 + Halves(x, y).1
  }

  lemma SmallProduct(a: nat, b: nat)
    requires a < 0x1_0000_0000 && b < 0x1_0000_0000
    ensures Mul(a, b) <= 0xFFFF_FFFE_0000_0001 && Mul64(a, b) == Mul(a, b)
  {
    MulOrder(a, b, 0xFFFF_FFFF);
    MulOrder(0xFFFF_FFFF, a, 0xFFFF_FFFF);
  }

  lemma SplitProduct(x0: nat, x1: nat, y0: nat, y1: nat)
    ensures Mul(x0 + 0x1_0000_0000 * x1, y0 + 0x1_0000_0000 * y1)
      == Mul(x0, y0) + 0x1_0000_0000 * (Mul(x0, y1) + Mul(x1, y0)) + 0x1_0000_0000_0000_0000 * Mul(x1, y1)
  {
    var k := 0x1_0000_0000;
    assert (x0 + k * x1) * (y0 + k * y1) == x0 * y0 + x0 * (k * y1) + (k * x1) * y0 + (k * x1) * (k * y1);
    assert x0 * (k * y1) == k * (x0 * y1);
    assert (k * x1) * y0 == k * (x1 * y0);
    assert (k * x1) * (k * y1) == k * (k * (x1 * y1));
  }

  /** The carries: four partial products of at most (2^32 - 1)^2 are summed with none lost. */
  lemma Carries(p00: nat, p01: nat, p10: nat, p11: nat)
    requires p00 <= 0xFFFF_FFFE_0000_0001 && p01 <= 0xFFFF_FFFE_0000_0001
    requires p10 <= 0xFFFF_FFFE_0000_0001 && p11 <= 0xFFFF_FFFE_0000_0001
    ensures var mid := Hi(p00) + Lo(p01) + Lo(p10);
      && Add64(Add64(Hi(p00), Lo(p01)), Lo(p10)) == mid
      && Add64(Add64(Add64(p11, Hi(p01)), Hi(p10)), Hi(mid)) == p11 + Hi(p01) + Hi(p10) + Hi(mid)
  {
    HighBound(p00);
    HighBound(p01);
    HighBound(p10);
    var mid := Hi(p00) + Lo(p01) + Lo(p10);
    NoWrap(Hi(p00), Lo(p01));
    NoWrap(Hi(p00) + Lo(p01), Lo(p10));
    HighOfSum(mid);
    hide Hi, Lo, Add64;
    NoWrap(p11, Hi(p01));
    NoWrap(p11 + Hi(p01), Hi(p10));
    NoWrap(p11 + Hi(p01) + Hi(p10), Hi(mid));
  }

  lemma HighBound(p: nat)
    requires p <= 0xFFFF_FFFE_0000_0001
    ensures Hi(p) <= 0xFFFF_FFFE
  {
  }

  lemma HighOfSum(mid: nat)
    requires mid <= 0x3_0000_0000
    ensures Hi(mid) <= 3
  {
  }

  lemma NoWrap(a: nat, b: nat)
    requires a + b < 0x1_0000_0000_0000_0000
    ensures Add64(a, b) == a + b
  {
  }

  lemma Recombine(p00: nat, p01: nat, p10: nat, p11: nat)
    ensures var mid := Hi(p00) + Lo(p01) + Lo(p10);
      (p11 + Hi(p01) + Hi(p10) + Hi(mid)) * 0x1_0000_0000_0000_0000 + (Shifted(mid) + Lo(p00))
      == p00 + 0x1_0000_0000 * (p01 + p10) + 0x1_0000_0000_0000_0000 * p11
  {
    var mid := Hi(p00) + Lo(p01) + Lo(p10);
    hide Shifted;
    LowPart(mid);
  }

  lemma LowPart(mid: nat)
    ensures Shifted(mid) == Lo(mid) * 0x1_0000_0000
  {
    DivModUnique(mid * 0x1_0000_0000, 0x1_0000_0000_0000_0000, Hi(mid), Lo(mid) * 0x1_0000_0000);
  }

  /** tf_wasm_mul64 is the whole 128-bit product of two 64-bit numbers: none of its additions or
      multiplications wraps. */
  lemma WideExact(x: nat, y: nat)
    requires x < 0x1_0000_0000_0000_0000 && y < 0x1_0000_0000_0000_0000
    ensures Wide(x, y) == Mul(x, y)
    ensures Halves(x, y).0 < 0x1_0000_0000_0000_0000 && Halves(x, y).1 < 0x1_0000_0000_0000_0000
  {
    hide Mul, Mul64, Add64, Lo, Hi, Halves, Shifted;
    var x0, x1, y0, y1 := Lo(x), Hi(x), Lo(y), Hi(y);
    SplitHalves(x);
    SplitHalves(y);
    SmallProduct(x0, y0);
    SmallProduct(x0, y1);
    SmallProduct(x1, y0);
    SmallProduct(x1, y1);
    HalvesAre(x, y, Mul(x0, y0), Mul(x0, y1), Mul(x1, y0), Mul(x1, y1));
    SplitProduct(x0, x1, y0, y1);
    Recombine(Mul(x0, y0), Mul(x0, y1), Mul(x1, y0), Mul(x1, y1));
  }

  lemma SplitHalves(x: nat)
    requires x < 0x1_0000_0000_0000_0000
    ensures x == Lo(x) + 0x1_0000_0000 * Hi(x) && Hi(x) < 0x1_0000_0000
  {
  }

  /** The two halves from the four partial products, no carry lost. */
  lemma HalvesAre(x: nat, y: nat, p00: nat, p01: nat, p10: nat, p11: nat)
    requires p00 == Mul64(Lo(x), Lo(y)) <= 0xFFFF_FFFE_0000_0001 && p01 == Mul64(Lo(x), Hi(y)) <= 0xFFFF_FFFE_0000_0001
    requires p10 == Mul64(Hi(x), Lo(y)) <= 0xFFFF_FFFE_0000_0001 && p11 == Mul64(Hi(x), Hi(y)) <= 0xFFFF_FFFE_0000_0001
    ensures var mid := Hi(p00) + Lo(p01) + Lo(p10);
      Halves(x, y) == (p11 + Hi(p01) + Hi(p10) + Hi(mid), Shifted(mid) + Lo(p00))
    ensures Halves(x, y).0 < 0x1_0000_0000_0000_0000 && Halves(x, y).1 < 0x1_0000_0000_0000_0000
  {
    hide Mul64, Hi, Lo, Add64, Shifted;
    Carries(p00, p01, p10, p11);
    LowPart(Hi(p00) + Lo(p01) + Lo(p10));
  }

  /** __multi3 on 128-bit numbers. */
  function Multi3(a: nat, b: nat): nat {
    var al, ah := a % 0x1_0000_0000_0000_0000, a / 0x1_0000_0000_0000_0000;
    var bl, bh := b % 0x1_0000_0000_0000_0000, b / 0x1_0000_0000_0000_0000;
    var cross := Add64(Mul64(ah, bl), Mul64(al, bh));
    (Wide(al, bl) + cross * 0x1_0000_0000_0000_0000) % 0x1_0000_0000_0000_0000_0000_0000_0000_0000
  }

  lemma SplitWide(al: nat, ah: nat, bl: nat, bh: nat)
    ensures Mul(al + 0x1_0000_0000_0000_0000 * ah, bl + 0x1_0000_0000_0000_0000 * bh)
      == Mul(al, bl) + 0x1_0000_0000_0000_0000 * (Mul(ah, bl) + Mul(al, bh))
        + 0x1_0000_0000_0000_0000_0000_0000_0000_0000 * Mul(ah, bh)
  {
    var k := 0x1_0000_0000_0000_0000;
    assert (al + k * ah) * (bl + k * bh) == al * bl + al * (k * bh) + (k * ah) * bl + (k * ah) * (k * bh);
    assert al * (k * bh) == k * (al * bh);
    assert (k * ah) * bl == k * (ah * bl);
    assert (k * ah) * (k * bh) == k * (k * (ah * bh));
  }

  /** Multiples of 2^64 of residues modulo 2^64 agree modulo 2^128. */
  lemma CrossResidue(p: nat, c: nat, m: nat, n: nat, top: nat)
    requires c == ((m % 0x1_0000_0000_0000_0000) + (n % 0x1_0000_0000_0000_0000)) % 0x1_0000_0000_0000_0000
    ensures (p + c * 0x1_0000_0000_0000_0000) % 0x1_0000_0000_0000_0000_0000_0000_0000_0000
      == (p + 0x1_0000_0000_0000_0000 * (m + n) + 0x1_0000_0000_0000_0000_0000_0000_0000_0000 * top)
         % 0x1_0000_0000_0000_0000_0000_0000_0000_0000
  {
    var k := 0x1_0000_0000_0000_0000;
    var q := (m + n - c) / k;
    SumResidue(m, n);
    assert m + n == c + k * q;
    SameResidue(p + c * k, p + k * (m + n) + k * k * top, q + top);
  }

  lemma SumResidue(m: nat, n: nat)
    ensures var k := 0x1_0000_0000_0000_0000;
      var c := (m % k + n % k) % k; c <= m + n && (m + n - c) % k == 0
  {
    var k := 0x1_0000_0000_0000_0000;
    var s := m % k + n % k;
    assert m + n == s + k * (m / k + n / k);
    assert s == s % k + k * (s / k);
    assert m + n - s % k == k * (m / k + n / k + s / k);
  }

  lemma SameResidue(a: nat, b: nat, q: nat)
    requires b == a + 0x1_0000_0000_0000_0000_0000_0000_0000_0000 * q
    ensures a % 0x1_0000_0000_0000_0000_0000_0000_0000_0000 == b % 0x1_0000_0000_0000_0000_0000_0000_0000_0000
  {
  }

  /** __multi3 is the product modulo 2^128. */
  lemma Multi3Exact(a: nat, b: nat)
    requires a < 0x1_0000_0000_0000_0000_0000_0000_0000_0000 && b < 0x1_0000_0000_0000_0000_0000_0000_0000_0000
    ensures Multi3(a, b) == Mul(a, b) % 0x1_0000_0000_0000_0000_0000_0000_0000_0000
  {
    hide Mul, Wide, Halves, Add64, Mul64;
    var al, ah := a % 0x1_0000_0000_0000_0000, a / 0x1_0000_0000_0000_0000;
    var bl, bh := b % 0x1_0000_0000_0000_0000, b / 0x1_0000_0000_0000_0000;
    Rejoin(a);
    Rejoin(b);
    WideExact(al, bl);
    SplitWide(al, ah, bl, bh);
    Crossed(Mul(al, bl), ah, bl, al, bh, Mul(ah, bh));
  }

  lemma Rejoin(a: nat)
    ensures a == a % 0x1_0000_0000_0000_0000 + 0x1_0000_0000_0000_0000 * (a / 0x1_0000_0000_0000_0000)
  {
  }

  lemma Crossed(p: nat, ah: nat, bl: nat, al: nat, bh: nat, top: nat)
    ensures (p + Add64(Mul64(ah, bl), Mul64(al, bh)) * 0x1_0000_0000_0000_0000)
            % 0x1_0000_0000_0000_0000_0000_0000_0000_0000
      == (p + 0x1_0000_0000_0000_0000 * (Mul(ah, bl) + Mul(al, bh))
          + 0x1_0000_0000_0000_0000_0000_0000_0000_0000 * top)
         % 0x1_0000_0000_0000_0000_0000_0000_0000_0000
  {
    hide Mul;
    CrossResidue(p, Add64(Mul64(ah, bl), Mul64(al, bh)), Mul(ah, bl), Mul(al, bh), top);
  }
}
