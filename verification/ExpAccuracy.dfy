/** How near exp_q16 is to the exponential: over every argument its value lies between two Taylor
    polynomials of 2^-x, times the table entry, within half a unit of the result and three units
    of the 32-bit mantissa. The polynomials are compared over a common denominator, in integers. */
module ExpAccuracy {
  import opened Arithmetic
  import opened ExpQ16

  /** 2^64, 2^128 and 2^192: the scales at which the nested polynomial has no fractions. */
  const W2: int := 0x1_0000_0000_0000_0000
  const W4: int := 0x1_0000_0000_0000_0000_0000_0000_0000_0000
  const W6: int := 0x1_0000_0000_0000_0000_0000_0000_0000_0000_0000_0000_0000_0000

  const TWO_56: int := 0x100_0000_0000_0000

  function Times(a: int, b: int): int {
    a * b
  }

  // ---- Products ----

  lemma NoSign(a: int, b: int)
    requires a >= 0 && b >= 0
    ensures Times(a, b) >= 0
  {
  }

  lemma TimesMinus(a: int, b: int, c: int)
    ensures Times(a - b, c) == Times(a, c) - Times(b, c) && Times(c, a - b) == Times(c, a) - Times(c, b)
  {
  }

  lemma TimesPlus(a: int, b: int, c: int)
    ensures Times(a + b, c) == Times(a, c) + Times(b, c) && Times(c, a + b) == Times(c, a) + Times(c, b)
  {
  }

  /** Products keep order and bounds. */
  lemma InOrder(a: int, b: int, c: int)
    requires a <= b && c >= 0
    ensures Times(a, c) <= Times(b, c) && Times(c, a) <= Times(c, b)
  {
    hide Times;
    NoSign(b - a, c);
    NoSign(c, b - a);
    TimesMinus(b, a, c);
  }

  lemma AtMost(a: int, p: int, b: int, q: int)
    requires 0 <= a <= p && 0 <= b <= q
    ensures 0 <= Times(a, b) <= Times(p, q)
  {
    hide Times;
    NoSign(a, b);
    InOrder(a, p, b);
    InOrder(b, q, p);
  }

  lemma Associative(a: int, b: int, c: int)
    ensures Times(a, Times(b, c)) == Times(Times(a, b), c)
  {
    assert a * (b * c) == (a * b) * c;
  }

  lemma Commutes(a: int, b: int)
    ensures Times(a, b) == Times(b, a)
  {
  }

  /** 2^32 and 2^64 taken out of a product. */
  lemma Scaled(s: int, x: int)
    ensures Times(s, 0x1_0000_0000 * x) == 0x1_0000_0000 * Times(s, x) == Times(0x1_0000_0000 * s, x)
    ensures Times(0x1_0000_0000_0000_0000 * s, x) == 0x1_0000_0000 * Times(s, 0x1_0000_0000 * x)
  {
  }

  // ---- One floored step of a nested polynomial ----

  lemma Floored(a: nat, h: nat)
    ensures Times(a, h) - 0x1_0000_0000 < 0x1_0000_0000 * High(a * h) <= Times(a, h)
  {
  }

  /** A value known at scale s, multiplied by h, floored and added to: at scale 2^64 s it is the product
      with 2^32 h, the error so far times 2^56 and one unit more. */
  lemma HornerNear(s: int, a: nat, h: nat, c: nat, p: int, e: int)
    requires s >= 0 && h < 0x100_0000 && e >= 0 && p - e <= Times(s, a) <= p
    ensures var v, t := 0x1_0000_0000 * h, 0x1_0000_0000_0000_0000 * s;
      Times(p, v) + Times(t, c) - (0x100_0000_0000_0000 * e + t) <= Times(t, High(a * h) + c)
        <= Times(p, v) + Times(t, c)
  {
    var v, t := 0x1_0000_0000 * h, 0x1_0000_0000_0000_0000 * s;
    var x := High(a * h);
    Floored(a, h);
    hide High, Times;
    TimesPlus(x, c, t);
    Scaled(s, x);
    InOrder(0x1_0000_0000 * x, Times(a, h), s);
    InOrder(Times(a, h) - 0x1_0000_0000, 0x1_0000_0000 * x, s);
    TimesMinus(Times(a, h), 0x1_0000_0000, s);
    Constant(s, 0x1_0000_0000);
    Associative(s, a, h);
    Scaled(Times(s, a), h);
    InOrder(p - e, Times(s, a), v);
    InOrder(Times(s, a), p, v);
    TimesMinus(p, e, v);
    AtMost(e, e, v, 0x100_0000_0000_0000);
    Constant(e, 0x100_0000_0000_0000);
  }

  lemma Constant(a: int, c: int)
    ensures Times(a, c) == c * a == Times(c, a)
  {
  }

  // ---- The two parts without their floors, in v = 2^32 h ----

  /** 2^192 times the even part. */
  function EvenE(v: int): int {
    Times(Times(Times(EVEN6, v) + Times(W2, EVEN4), v) + Times(W4, EVEN2), v) + Times(W6, EVEN0)
  }

  /** 2^128 times the odd part. */
  function OddE(v: int): int {
    Times(Times(ODD5, v) + Times(W2, ODD3), v) + Times(W4, ODD1)
  }

  lemma One(x: int)
    ensures Times(1, x) == x
  {
  }

  // ---- From the floored square to the square ----

  /** One step of a nested polynomial at two places less than 2^32 apart: how far it rises. */
  lemma HornerShift(p: int, q: int, v: int, u: int, top: int, rise: int)
    requires 0 <= p <= q <= top && q - p <= rise && 0 <= v <= u <= 0x100_0000_0000_0000 && u - v <= 0x1_0000_0000
    ensures 0 <= Times(q, u) - Times(p, v) <= 0x1_0000_0000 * top + 0x100_0000_0000_0000 * rise
    ensures 0 <= Times(p, v) && Times(q, u) <= 0x100_0000_0000_0000 * top
  {
    hide Times;
    TimesMinus(q, p, v);
    TimesMinus(u, v, q);
    AtMost(q, top, u - v, 0x1_0000_0000);
    AtMost(q - p, rise, v, 0x100_0000_0000_0000);
    AtMost(q, top, u, 0x100_0000_0000_0000);
    NoSign(p, v);
    Constant(top, 0x1_0000_0000);
    Constant(top, 0x100_0000_0000_0000);
    Constant(rise, 0x100_0000_0000_0000);
  }

  /** Each coefficient at its scale. */
  lemma AtScale()
    ensures Times(W2, EVEN4) == 41309550 * W2 && Times(W4, EVEN2) == 1031764991 * W4
    ensures Times(W6, EVEN0) == 0x1_0000_0000 * W6
    ensures Times(W2, ODD3) == 238388332 * W2 && Times(W4, ODD1) == 2977044472 * W4
  {
  }

  /** The even part moves by less than a quarter unit. */
  lemma EvenShift(v: int, u: int)
    requires 0 <= v <= u <= 0x100_0000_0000_0000 && u - v <= 0x1_0000_0000
    ensures 0 <= 4 * (EvenE(u) - EvenE(v)) <= W6
  {
    AtScale();
    hide Times;
    HornerShift(EVEN6, EVEN6, v, u, 661577, 0);
    var p, q := Times(EVEN6, v) + Times(W2, EVEN4), Times(EVEN6, u) + Times(W2, EVEN4);
    HornerShift(p, q, v, u, 42000000 * W2, 661577 * 0x1_0000_0000);
    HornerShift(Times(p, v) + Times(W4, EVEN2), Times(q, u) + Times(W4, EVEN2), v, u, 1032000000 * W4,
                43000000 * 0x1_0000_0000 * W2);
  }

  /** The odd part moves by less than six hundredths of a unit. */
  lemma OddShift(v: int, u: int)
    requires 0 <= v <= u <= 0x100_0000_0000_0000 && u - v <= 0x1_0000_0000
    ensures 0 <= 100 * (OddE(u) - OddE(v)) <= 6 * W4
  {
    AtScale();
    hide Times;
    HornerShift(ODD5, ODD5, v, u, 5726720, 0);
    HornerShift(Times(ODD5, v) + Times(W2, ODD3), Times(ODD5, u) + Times(W2, ODD3), v, u, 239000000 * W2,
                5726720 * 0x1_0000_0000);
  }

  /** 2^192 times the code's polynomial with no floor in it. */
  function PolyE(g: int): int {
    EvenE(Times(g, g)) - Times(0x1_0000_0000 * g, OddE(Times(g, g)))
  }

  lemma SquareFloored(g: nat)
    requires g < TWO_28
    ensures var u, v := Times(g, g), 0x1_0000_0000 * High(g * g);
      High(g * g) < 0x100_0000 && 0 <= v <= u <= 0x100_0000_0000_0000 && u - v <= 0x1_0000_0000
  {
    SquareBelow(g);
    Floored(g, g);
    hide Times;
    AtMost(g, 0x1000_0000, g, 0x1000_0000);
    Constant(0x1000_0000, 0x1000_0000);
  }

  lemma OddPart(g: nat, odd: nat, exact: int)
    requires g < TWO_28 && 100 * exact - 107 * W4 <= 100 * Times(W4, odd) <= 100 * exact
    ensures Times(0x1_0000_0000 * g, exact) - 107 * W6 / 1600 - W6 - 1 <= Times(W6, High(g * odd))
      <= Times(0x1_0000_0000 * g, exact)
  {
    var x, y := 0x1_0000_0000 * g, High(g * odd);
    Floored(g, odd);
    hide High, Times;
    // W6 * y == 2^32 * (W4 * (2^32 * y)), with 2^32 * y between g * odd - 2^32 and g * odd
    Scaled(W4, y);
    InOrder(0x1_0000_0000 * y, Times(g, odd), W4);
    InOrder(Times(g, odd) - 0x1_0000_0000, 0x1_0000_0000 * y, W4);
    TimesMinus(Times(g, odd), 0x1_0000_0000, W4);
    Constant(W4, 0x1_0000_0000);
    Associative(W4, g, odd);
    Associative(g, W4, odd);
    Commutes(W4, g);
    Scaled(g, Times(W4, odd));
    var d := exact - Times(W4, odd);
    TimesMinus(exact, Times(W4, odd), x);
    AtMost(x, 0x1000_0000_0000_0000, 100 * d, 107 * W4);
    Constant(107 * W4, 0x1000_0000_0000_0000);
    Hundred(x, d);
    NoSign(x, d);
  }

  lemma Hundred(x: int, d: int)
    ensures Times(x, 100 * d) == 100 * Times(x, d)
  {
  }

  // ---- Taylor ----

  /** ln 2 times 10^11, and the common denominator of the coefficients, 24 * 10^44. */
  const LN2: int := 69314718056
  const TEN_11: int := 100000000000
  const DEN: int := 24 * TEN_11 * TEN_11 * TEN_11 * TEN_11

  /** The Taylor coefficients of 2^-x in Q32 over that denominator: 1, ln 2, (ln 2)^2 / 2, (ln 2)^3 / 6
      and (ln 2)^4 / 24. */
  const TAYLOR0: int := 0x1_0000_0000 * DEN
  const TAYLOR1: int := 0x1_0000_0000 * 24 * TEN_11 * TEN_11 * TEN_11 * LN2
  const TAYLOR2: int := 0x1_0000_0000 * 12 * TEN_11 * TEN_11 * LN2 * LN2
  const TAYLOR3: int := 0x1_0000_0000 * 4 * TEN_11 * LN2 * LN2 * LN2
  const TAYLOR4: int := 0x1_0000_0000 * LN2 * LN2 * LN2 * LN2

  function Raised(g: int, k: nat): int {
    if k == 0 then 1 else Times(Raised(g, k - 1), g)
  }

  /** x^k for x = g / 2^32, times 2^192. */
  function Term(g: nat, k: nat): int
    requires k <= 6
  {
    Times(Raised(g, k), Pow2(192 - 32 * k))
  }

  /** Each power of x is at most a sixteenth of the one before. */
  lemma NextTerm(g: nat, k: nat)
    requires g < TWO_28 && k < 6 && Raised(g, k) >= 0
    ensures Raised(g, k + 1) >= 0 && 0 <= 16 * Term(g, k + 1) <= Term(g, k)
  {
    Pow2Literals();
    hide Pow2, Times;
    var r, w := Raised(g, k), Pow2(160 - 32 * k);
    Pow2Add(32, 160 - 32 * k);
    NoSign(r, g);
    Associative(r, g, w);
    Commutes(w, g);
    AtMost(g, 0x1000_0000, w, w);
    NoSign(g, w);
    Constant(w, 0x1000_0000);
    InOrder(16 * Times(g, w), 0x1_0000_0000 * w, r);
    NoSign(r, Times(g, w));
    Sixteen(r, Times(g, w));
    Constant(w, 0x1_0000_0000);
  }

  lemma Sixteen(r: int, x: int)
    ensures Times(r, 16 * x) == 16 * Times(r, x)
  {
  }

  /** The polynomial by its powers. */
  lemma PolyTerms(g: nat)
    ensures PolyE(g) == EVEN0 * Term(g, 0) - ODD1 * Term(g, 1) + EVEN2 * Term(g, 2) - ODD3 * Term(g, 3)
                        + EVEN4 * Term(g, 4) - ODD5 * Term(g, 5) + EVEN6 * Term(g, 6)
  {
    PowersAre(g);
    hide Term;
    EvenExpanded(g);
    OddExpanded(g);
    hide EvenE, OddE, Times;
  }

  lemma PowersAre(g: nat)
    ensures var u := Times(g, g);
      && Term(g, 0) == W6 && Term(g, 1) == 0x1_0000_0000 * Times(W4, g) && Term(g, 2) == Times(W4, u)
      && Term(g, 3) == 0x1_0000_0000 * Times(W2, Times(u, g)) && Term(g, 4) == Times(W2, Times(u, u))
      && Term(g, 5) == 0x1_0000_0000 * Times(Times(u, u), g) && Term(g, 6) == Times(Times(u, u), u)
  {
    Scales();
    RaisedAre(g);
    var u := Times(g, g);
    hide Pow2, Times, Raised;
    Placed(Raised(g, 0), 1, W6);
    Placed(g, W4, 0x1_0000_0000 * W4);
    Placed(u, 1, W4);
    Placed(Times(u, g), W2, 0x1_0000_0000 * W2);
    Placed(Times(u, u), 1, W2);
    Placed(Times(Times(u, u), g), 1, 0x1_0000_0000);
    Placed(Times(Times(u, u), u), 1, 1);
  }

  lemma Scales()
    ensures Pow2(0) == 1 && Pow2(32) == 0x1_0000_0000 && Pow2(64) == W2 && Pow2(96) == 0x1_0000_0000 * W2
    ensures Pow2(128) == W4 && Pow2(160) == 0x1_0000_0000 * W4 && Pow2(192) == W6
  {
    Pow2Literals();
    hide Pow2;
    Pow2Add(64, 32);
    Pow2Add(64, 64);
    Pow2Add(128, 32);
    Pow2Add(128, 64);
    assert Pow2(0) == 1 by { Pow2None(); }
  }

  lemma Pow2None()
    ensures Pow2(0) == 1
  {
  }

  lemma RaisedAre(g: nat)
    ensures var u := Times(g, g);
      && Raised(g, 0) == 1 && Raised(g, 1) == g && Raised(g, 2) == u && Raised(g, 3) == Times(u, g)
      && Raised(g, 4) == Times(u, u) && Raised(g, 5) == Times(Times(u, u), g)
      && Raised(g, 6) == Times(Times(u, u), u)
  {
    hide Times;
    One(g);
    Associative(Times(g, g), g, g);
    Associative(Times(Times(g, g), Times(g, g)), g, g);
  }

  /** A factor on either side, and 2^32 outside. */
  lemma Placed(x: int, w: int, t: int)
    ensures Times(x, t) == Times(t, x) && Times(x, 1) == x == Times(1, x) && Times(1, t) == t
    ensures t == 0x1_0000_0000 * w ==> Times(x, t) == 0x1_0000_0000 * Times(w, x)
  {
  }

  lemma EvenExpanded(g: nat)
    ensures var u := Times(g, g);
      EvenE(u) == EVEN6 * Times(Times(u, u), u) + EVEN4 * Times(W2, Times(u, u)) + EVEN2 * Times(W4, u) + EVEN0 * W6
  {
  }

  lemma OddExpanded(g: nat)
    ensures var u := Times(g, g);
      Times(0x1_0000_0000 * g, OddE(u))
      == 0x1_0000_0000 * (ODD5 * Times(Times(u, u), g) + ODD3 * Times(W2, Times(u, g)) + ODD1 * Times(W4, g))
  {
  }

  lemma Numbers()
    ensures DEN == 24_00000000000_00000000000_00000000000_00000000000
    ensures TAYLOR0 == 4294967296 * DEN
    ensures -DEN <= 5 * (ODD1 * DEN - TAYLOR1) <= DEN
    ensures -DEN <= 33 * (EVEN2 * DEN - TAYLOR2) <= DEN
    ensures -DEN <= 2 * (ODD3 * DEN - TAYLOR3) <= DEN
    ensures -DEN <= 20 * (EVEN4 * DEN - TAYLOR4) <= DEN
  {
  }

  /** The Taylor polynomials of 2^-x at x = g / 2^32, of degree three and four, in Q32 over
      2^192 * DEN: on x >= 0 the first is below 2^-x and the second above. */
  function Low(g: nat): int {
    TAYLOR0 * Term(g, 0) - TAYLOR1 * Term(g, 1) + TAYLOR2 * Term(g, 2) - TAYLOR3 * Term(g, 3)
  }

  function Above(g: nat): int {
    Low(g) + TAYLOR4 * Term(g, 4)
  }

  /** A difference of coefficients, at most DEN over n, times a term. */
  lemma TermError(c: int, t: int, n: int, x: int)
    requires n > 0 && x >= 0 && -DEN <= n * (c * DEN - t) <= DEN
    ensures -(DEN * x) <= n * (DEN * (c * x) - t * x) <= DEN * x
  {
    var d := c * DEN - t;
    InOrder(n * d, DEN, x);
    InOrder(-DEN, n * d, x);
    assert n * (DEN * (c * x) - t * x) == (n * d) * x;
  }

  lemma Tail(t4: int, t5: int, t6: int)
    requires 0 <= 16 * t5 <= t4 && 0 <= 16 * t6 <= t5
    ensures EVEN4 * t4 - ODD5 * t5 + EVEN6 * t6 >= 0 && ODD5 * t5 - EVEN6 * t6 >= 0
  {
  }

  lemma SevenTerms(d: int, a: int, b: int, c: int, e: int, f: int, h: int, i: int)
    ensures d * (a - b + c - e + f - h + i) == d * a - d * b + d * c - d * e + d * (f - h + i)
    ensures d * (a - b + c - e + f - h + i) == d * a - d * b + d * c - d * e + d * f - d * (h - i)
  {
  }

  lemma Chain(t0: int, t1: int, t2: int, t3: int, t4: int)
    requires 0 <= 16 * t1 <= t0 && 0 <= 16 * t2 <= t1 && 0 <= 16 * t3 <= t2 && 0 <= 16 * t4 <= t3
    ensures 0 <= 16 * (DEN * t1) <= DEN * t0 && 0 <= 256 * (DEN * t2) <= DEN * t0
    ensures 0 <= 4096 * (DEN * t3) <= DEN * t0 && 0 <= 65536 * (DEN * t4) <= DEN * t0
  {
    Numbers();
    hide DEN;
    InOrder(16 * t1, t0, DEN);
    InOrder(256 * t2, t0, DEN);
    InOrder(4096 * t3, t0, DEN);
    InOrder(65536 * t4, t0, DEN);
    NoSign(DEN, t1);
    NoSign(DEN, t2);
    NoSign(DEN, t3);
    NoSign(DEN, t4);
  }

  lemma AllTerms(g: nat)
    requires g < TWO_28
    ensures 0 <= 16 * Term(g, 1) <= Term(g, 0) && 0 <= 16 * Term(g, 2) <= Term(g, 1)
    ensures 0 <= 16 * Term(g, 3) <= Term(g, 2) && 0 <= 16 * Term(g, 4) <= Term(g, 3)
    ensures 0 <= 16 * Term(g, 5) <= Term(g, 4) && 0 <= 16 * Term(g, 6) <= Term(g, 5)
  {
    assert Raised(g, 0) == 1;
    hide Term, Raised;
    NextTerm(g, 0);
    NextTerm(g, 1);
    NextTerm(g, 2);
    NextTerm(g, 3);
    NextTerm(g, 4);
    NextTerm(g, 5);
  }

  /** The polynomial lies between the Taylor polynomials, within a tenth of a unit. */
  lemma TaylorBounds(g: nat)
    requires g < TWO_28
    ensures 10 * Low(g) - DEN * W6 <= 10 * (DEN * PolyE(g)) <= 10 * Above(g) + DEN * W6
  {
    var t0, t1, t2, t3, t4, t5, t6 :=
      Term(g, 0), Term(g, 1), Term(g, 2), Term(g, 3), Term(g, 4), Term(g, 5), Term(g, 6);
    AllTerms(g);
    PolyTerms(g);
    PowersAre(g);
    hide Term, PolyE;
    Numbers();
    Chain(t0, t1, t2, t3, t4);
    Tail(t4, t5, t6);
    TermError(ODD1, TAYLOR1, 5, t1);
    TermError(EVEN2, TAYLOR2, 33, t2);
    TermError(ODD3, TAYLOR3, 2, t3);
    TermError(EVEN4, TAYLOR4, 20, t4);
    SevenTerms(DEN, EVEN0 * t0, ODD1 * t1, EVEN2 * t2, ODD3 * t3, EVEN4 * t4, ODD5 * t5, EVEN6 * t6);
    hide DEN;
    NoSign(DEN, EVEN4 * t4 - ODD5 * t5 + EVEN6 * t6);
    NoSign(DEN, ODD5 * t5 - EVEN6 * t6);
    assert DEN * (EVEN0 * t0) == TAYLOR0 * t0;
  }

  // ---- The mantissa and the result ----

  /** One unit of Q32 at the scale of the Taylor polynomials. */
  const UNIT: int := DEN * W6

  lemma UnitPositive()
    ensures UNIT > 0 && DEN > 0 && UNIT == Times(DEN, W6)
  {
    Numbers();
  }

  /** The code's polynomial, floors and all, lies between the Taylor polynomials of 2^-x, within a unit
      and a half. */
  lemma PolyTaylor(g: nat)
    requires g < TWO_28
    ensures 10 * Low(g) - 14 * UNIT <= 10 * Times(UNIT, Poly(g)) <= 10 * Above(g) + 14 * UNIT
  {
    var h, u := High(g * g), Times(g, g);
    var v := 0x1_0000_0000 * h;
    SquareFloored(g);
    hide High, Times, TAYLOR0, TAYLOR1, TAYLOR2, TAYLOR3, TAYLOR4, DEN, Low, Above;
    // Even: three floored steps, then from v to u.
    One(EVEN6);
    HornerNear(1, EVEN6, h, EVEN4, EVEN6, 0);
    var p2 := Times(EVEN6, v) + Times(W2, EVEN4);
    HornerNear(W2, A2(h), h, EVEN2, p2, W2);
    HornerNear(W4, A1(h), h, EVEN0, Times(p2, v) + Times(W4, EVEN2), TWO_56 * W2 + W4);
    EvenShift(v, u);
    // Odd: two floored steps, from v to u, and times g.
    One(ODD5);
    HornerNear(1, ODD5, h, ODD3, ODD5, 0);
    HornerNear(W2, B1(h), h, ODD1, Times(ODD5, v) + Times(W2, ODD3), W2);
    OddShift(v, u);
    OddPart(g, Odd(h), OddE(u));
    TimesMinus(Even(h), High(g * Odd(h)), W6);
    hide Even, Odd, EvenE, OddE;
    TaylorBounds(g);
    UnitPositive();
    Associative(DEN, W6, Poly(g));
    ByDenominator(PolyE(g), Times(W6, Poly(g)));
  }

  lemma ByDenominator(exact: int, w: int)
    requires 10 * exact - 13 * W6 <= 10 * w <= 10 * exact + 13 * W6
    ensures 10 * (DEN * exact) - 13 * UNIT <= 10 * Times(DEN, w) <= 10 * (DEN * exact) + 13 * UNIT
  {
    UnitPositive();
    hide DEN, W6;
    InOrder(10 * exact - 13 * W6, 10 * w, DEN);
    InOrder(10 * w, 10 * exact + 13 * W6, DEN);
  }

  /** Table entry times polynomial, floored; exact in the first segment. */
  lemma MantissaFloored(j: nat, g: nat)
    requires j < 16 && g < TWO_28
    ensures Times(Table(j), Poly(g)) - 0x1_0000_0000 < 0x1_0000_0000 * Mantissa(j, g) <= Times(Table(j), Poly(g))
  {
    hide Poly, Table;
    PolyRange(g);
    TableZero();
  }

  /** In every segment, the first included, the mantissa lies between the table entry times the Taylor
      polynomials of 2^-x, within three units. */
  lemma MantissaNear(j: nat, g: nat)
    requires j < 16 && g < TWO_28
    ensures var unit := 0x1_0000_0000 * UNIT;
      Times(Table(j), Low(g)) - 3 * unit <= Times(unit, Mantissa(j, g)) <= Times(Table(j), Above(g)) + 2 * unit
  {
    PolyTaylor(g);
    MantissaFloored(j, g);
    TableFacts(j);
    UnitPositive();
    hide Low, Above, Poly, Mantissa, Table, UNIT, Times;
    var t, y, x := Table(j), Poly(g), Mantissa(j, g);
    TableTimes(t, y, Low(g), Above(g));
    UnitTimes(t, y, x);
  }

  /** A factor of at most 2^32 on both sides of the polynomial's bounds. */
  lemma TableTimes(t: int, y: int, low: int, above: int)
    requires 0 <= t <= 0x1_0000_0000
    requires 10 * low - 14 * UNIT <= 10 * Times(UNIT, y) <= 10 * above + 14 * UNIT
    ensures 10 * Times(t, low) - 14 * (0x1_0000_0000 * UNIT) <= 10 * Times(t, Times(UNIT, y))
      <= 10 * Times(t, above) + 14 * (0x1_0000_0000 * UNIT)
  {
    UnitPositive();
    hide UNIT, Times;
    var w := Times(UNIT, y);
    InOrder(10 * low - 14 * UNIT, 10 * w, t);
    InOrder(10 * w, 10 * above + 14 * UNIT, t);
    TimesMinus(10 * low, 14 * UNIT, t);
    TimesPlus(10 * above, 14 * UNIT, t);
    InOrder(t, 0x1_0000_0000, 14 * UNIT);
    Constant(14 * UNIT, 0x1_0000_0000);
    Ten(t, low);
    Ten(t, above);
    Ten(t, w);
  }

  lemma Ten(t: int, x: int)
    ensures Times(t, 10 * x) == 10 * Times(t, x)
  {
  }

  lemma UnitTimes(t: int, y: int, x: int)
    requires Times(t, y) - 0x1_0000_0000 < 0x1_0000_0000 * x <= Times(t, y)
    ensures var unit := 0x1_0000_0000 * UNIT;
      Times(t, Times(UNIT, y)) - unit <= Times(unit, x) <= Times(t, Times(UNIT, y))
  {
    UnitPositive();
    hide UNIT, Times;
    InOrder(Times(t, y) - 0x1_0000_0000, 0x1_0000_0000 * x, UNIT);
    InOrder(0x1_0000_0000 * x, Times(t, y), UNIT);
    TimesMinus(Times(t, y), 0x1_0000_0000, UNIT);
    Constant(UNIT, 0x1_0000_0000);
    Scaled(UNIT, x);
    Associative(UNIT, t, y);
    Commutes(UNIT, t);
    Associative(t, UNIT, y);
  }

  /** How the argument's bits are used: octave, segment and remainder of z * log2(e). */
  ghost predicate Split(z: nat, m: nat, j: nat, g: nat) {
    j < 16 && g < TWO_28 && 0 <= z * LOG2_E - ((m * 16 + j) * TWO_28 + g) * TWO_16 < TWO_16
  }

  /** e is near 65536 * 2^-(m + j/16 + x), x = g / 2^32: with p = 2^(16 + m) units of the 32-bit
      mantissa to one of the result, e * p is within p / 2 and three of those units of the table entry
      times the Taylor polynomials, which enclose 2^-x. */
  ghost predicate NearPower(e: int, m: nat, j: nat, g: nat)
    requires j < 16
  {
    var unit, p := 0x1_0000_0000 * UNIT, Pow2(16 + m);
    && 2 * Times(Table(j), Low(g)) - 6 * unit - Times(unit, p) <= 2 * Times(unit, Times(e, p))
    && 2 * Times(unit, Times(e, p)) <= 2 * Times(Table(j), Above(g)) + 4 * unit + Times(unit, p)
  }

  /** Above the cut-off the result is the power to half a unit and three units of the mantissa. */
  lemma ExpAccurate(delta: int) returns (m: nat, j: nat, g: nat)
    requires delta <= 0 && -delta < THRESHOLD
    ensures Split(-delta, m, j, g) && NearPower(Exp(delta), m, j, g)
  {
    hide Exp, Octave, Segment, Remainder, Split, NearPower, Mantissa, Table, Low, Above, Times, Pow2, DivRne, UNIT;
    var z: nat := -delta;
    m, j, g := Octave(z), Segment(z), Remainder(z);
    SplitIs(z);
    ExpIs(delta);
    MantissaNear(j, g);
    NearPowerFrom(Exp(delta), m, j, g, Mantissa(j, g));
  }

  lemma NearPowerFrom(e: int, m: nat, j: nat, g: nat, y: int)
    requires j < 16 && e == DivRne(y, Pow2(16 + m))
    requires var unit := 0x1_0000_0000 * UNIT;
      Times(Table(j), Low(g)) - 3 * unit <= Times(unit, y) <= Times(Table(j), Above(g)) + 2 * unit
    ensures NearPower(e, m, j, g)
  {
    hide Table, Low, Above, Times, Pow2, DivRne, UNIT;
    RoundedNear(0x1_0000_0000 * UNIT, y, Pow2(16 + m));
  }

  lemma ExpIs(delta: int)
    requires delta <= 0 && -delta < THRESHOLD
    ensures var z: nat := -delta;
      Exp(delta) == DivRne(Mantissa(Segment(z), Remainder(z)), Pow2(16 + Octave(z)))
  {
    hide Octave, Segment, Remainder, Mantissa, Pow2, DivRne;
  }

  lemma SplitIs(z: nat)
    ensures Split(z, Octave(z), Segment(z), Remainder(z))
  {
    var u := z * LOG2_E;
    var m, f := u / TWO_48, u % TWO_48;
    var j, r := f / TWO_44, f % TWO_44;
    var g, e := r / TWO_16, r % TWO_16;
    assert u == ((m * 16 + j) * TWO_28 + g) * TWO_16 + e;
  }

  lemma RoundedNear(unit: int, y: int, p: nat)
    requires p > 0 && unit == 0x1_0000_0000 * UNIT
    ensures 2 * Times(unit, y) - Times(unit, p) <= 2 * Times(unit, Times(DivRne(y, p), p))
      <= 2 * Times(unit, y) + Times(unit, p)
  {
    var q := DivRne(y, p);
    NearestEvenBounds(y, p, q);
    HalfUnit(y, p, q);
    UnitPositive();
    hide DivRne, UNIT, Times;
    var n := Times(q, p);
    InOrder(2 * y - p, 2 * n, unit);
    InOrder(2 * n, 2 * y + p, unit);
    TimesMinus(2 * y, p, unit);
    TimesPlus(2 * y, p, unit);
    Two(unit, y);
    Two(unit, n);
  }

  lemma HalfUnit(y: int, p: nat, q: int)
    requires (2 * q - 1) * p <= 2 * y <= (2 * q + 1) * p
    ensures 2 * y - p <= 2 * Times(q, p) <= 2 * y + p
  {
    assert (2 * q - 1) * p == 2 * (q * p) - p && (2 * q + 1) * p == 2 * (q * p) + p;
  }

  lemma Two(t: int, x: int)
    ensures Times(t, 2 * x) == 2 * Times(t, x)
  {
  }

  /** The enclosure is narrow: the Taylor polynomials differ by less than 1.6 * 10^-7, in Q32 at most
      650 units. */
  lemma EnclosureNarrow(g: nat)
    requires g < TWO_28
    ensures 0 <= Above(g) - Low(g) <= 650 * UNIT
  {
    AllTerms(g);
    PowersAre(g);
    Numbers();
    hide Term, DEN;
    Chain(Term(g, 0), Term(g, 1), Term(g, 2), Term(g, 3), Term(g, 4));
    TermError(EVEN4, TAYLOR4, 20, Term(g, 4));
    FourthTerm(Term(g, 4));
  }

  lemma FourthTerm(x: int)
    requires x >= 0
    ensures 0 <= TAYLOR4 * x <= DEN * (41309551 * x)
  {
    InOrder(TAYLOR4, 41309551 * DEN, x);
    NoSign(TAYLOR4, x);
  }

  /** LOG2_E is the reciprocal of ln 2 in Q32, rounded to nearest. */
  lemma Log2EIsReciprocal()
    ensures -LN2 < 2 * (LOG2_E * LN2 - 0x1_0000_0000 * TEN_11) < LN2
  {
  }
}
