/** The shared integer exponential exp_q16: 65536 * exp(delta / 65536) for delta <= 0, from a
    16-segment table, an even/odd degree-6 polynomial and one rounding. */
module ExpQ16 {
  import opened Arithmetic

  const LOG2_E: nat := 6196328019
  const EVEN0: nat := 4294967296
  const EVEN2: nat := 1031764991
  const EVEN4: nat := 41309550
  const EVEN6: nat := 661577
  const ODD1: nat := 2977044472
  const ODD3: nat := 238388332
  const ODD5: nat := 5726720
  const THRESHOLD: nat := 772244

  const TWO_16: nat := 0x1_0000
  const TWO_28: nat := 0x1000_0000
  const TWO_32: nat := 0x1_0000_0000
  const TWO_44: nat := 0x1000_0000_0000
  const TWO_48: nat := 0x1_0000_0000_0000
  const TWO_64: nat := 0x1_0000_0000_0000_0000

  /** The segment table: 2^(-j/16) in Q32. */
  function Table(j: nat): nat
    requires j < 16
  {
    [4294967296, 4112874773, 3938502376, 3771522796, 3611622603, 3458501653, 3311872529, 3171459999,
     3037000500, 2908241642, 2784941738, 2666869345, 2553802834, 2445529972, 2341847524, 2242560872][j]
  }

  function High(x: nat): nat {
    x / TWO_32
  }

  function A2(h: nat): nat { High(EVEN6 * h) + EVEN4 }
  function A1(h: nat): nat { High(A2(h) * h) + EVEN2 }
  function Even(h: nat): nat { High(A1(h) * h) + EVEN0 }
  function B1(h: nat): nat { High(ODD5 * h) + ODD3 }
  function Odd(h: nat): nat { High(B1(h) * h) + ODD1 }

  /** 2^-g in Q32 for a remainder g of less than one segment. */
  function Poly(g: nat): int {
    var h := High(g * g);
    Even(h) - High(g * Odd(h))
  }

  /** m, j and g of z * log2(e): integer part, segment, remainder in Q32. */
  function Octave(z: nat): nat { z * LOG2_E / TWO_48 }
  function Segment(z: nat): (j: nat)
    ensures j < 16
  {
    z * LOG2_E % TWO_48 / TWO_44
  }
  function Remainder(z: nat): (g: nat)
    ensures g < TWO_28
  {
    z * LOG2_E % TWO_48 % TWO_44 / TWO_16
  }

  /** 2^-f in Q32, f the fractional part. */
  function Mantissa(j: nat, g: nat): int
    requires j < 16
  {
    if j == 0 then Poly(g) else Table(j) * Poly(g) / TWO_32
  }

  /** The value before the cut-off is applied. */
  function Core(z: nat): int {
    DivRne(Mantissa(Segment(z), Remainder(z)), Pow2(16 + Octave(z)))
  }

  function Exp(delta: int): int
    requires delta <= 0
  {
    var z: nat := -delta;
    if z >= THRESHOLD then 0 else Core(z)
  }

  // ---- The polynomial ----

  /** Bounds of every intermediate of the polynomial. */
  lemma PolyWidths(h: nat)
    requires h < 0x100_0000
    ensures EVEN4 <= A2(h) < 0x400_0000
    ensures EVEN2 <= A1(h) < 0x4000_0000
    ensures EVEN0 <= Even(h) < EVEN0 + 0x40_0000
    ensures ODD3 <= B1(h) < 0x1000_0000
    ensures ODD1 <= Odd(h) < ODD1 + 0x10_0000
  {
    hide High;
    HighBelow(EVEN6 * h, 0x1000);
    MulOrder(h, A2(h), 0x400_0000);
    HighBelow(A2(h) * h, 0x4_0000);
    MulOrder(h, A1(h), 0x4000_0000);
    HighBelow(A1(h) * h, 0x40_0000);
    HighBelow(ODD5 * h, 0x1_0000);
    MulOrder(h, B1(h), 0x1000_0000);
    HighBelow(B1(h) * h, 0x10_0000);
  }

  lemma HighBelow(x: nat, k: nat)
    requires x < k * TWO_32
    ensures High(x) < k
  {
  }

  /** Shifting both ends of an interval right changes its length by less than one. */
  lemma HighGap(x: nat, y: nat)
    requires x <= y
    ensures High(x) <= High(y)
    ensures y - x - TWO_32 < TWO_32 * (High(y) - High(x)) < y - x + TWO_32
  {
  }

  /** The even part rises by at most half a unit per unit of g^2, plus two. */
  lemma EvenRise(h: nat, h': nat)
    requires h <= h' < 0x100_0000
    ensures Even(h) <= Even(h') && 2 * (Even(h') - Even(h)) <= h' - h + 4
  {
    PolyWidths(h);
    PolyWidths(h');
    hide High;
    HornerRise(EVEN6, h, EVEN6, h', EVEN6);
    HornerRise(A2(h), h, A2(h'), h', 0x400_0000);
    HornerRise(A1(h), h, A1(h'), h', 0x4000_0000);
    hide A1, A2;
  }

  /** One step of a nested polynomial: how far its high word rises. */
  lemma HornerRise(a: nat, h: nat, a': nat, h': nat, top: nat)
    requires a <= a' <= top && h <= h' < 0x100_0000
    ensures 0 <= TWO_32 * (High(a' * h') - High(a * h)) < top * (h' - h) + 0x100_0000 * (a' - a) + TWO_32
  {
    hide High;
    ProductRise(a, h, a', h', top);
    HighGap(a * h, a' * h');
  }

  lemma ProductRise(a: nat, h: nat, a': nat, h': nat, top: nat)
    requires a <= a' <= top && h <= h' < 0x100_0000
    ensures a * h <= a' * h' <= a * h + top * (h' - h) + 0x100_0000 * (a' - a)
  {
    var d, e := h' - h, a' - a;
    SplitFactor(a', h, d);
    SplitFactor(h, a, e);
    MulOrder(d, a', top);
    MulOrder(e, h, 0x100_0000);
    Rises(a * h, a' * h, a' * h', a' * d, e * h, top * d, 0x100_0000 * e);
  }

  lemma SplitFactor(a: nat, b: nat, d: nat)
    ensures a * (b + d) == a * b + a * d && (b + d) * a == b * a + d * a
  {
  }

  lemma Rises(low: nat, mid: nat, high: nat, p: nat, q: nat, p': nat, q': nat)
    requires high == mid + p && mid == low + q && p <= p' && q <= q'
    ensures low <= high <= low + p' + q'
  {
  }

  lemma OddRises(h: nat, h': nat)
    requires h <= h' < 0x100_0000
    ensures Odd(h) <= Odd(h')
  {
    hide High;
    PolyWidths(h);
    PolyWidths(h');
    HighGap(ODD5 * h, ODD5 * h');
    ProductRise(B1(h), h, B1(h'), h', 0x1000_0000);
    HighGap(B1(h) * h, B1(h') * h');
  }

  lemma SquareBelow(g: nat)
    requires g < TWO_28
    ensures High(g * g) < 0x100_0000
  {
    MulOrder(g, g, TWO_28);
  }

  /** The polynomial is not monotone step by step, but over any distance it falls by at least
      half the distance less four. */
  lemma PolyFalls(g: nat, g': nat)
    requires g <= g' < TWO_28
    ensures 2 * (Poly(g) - Poly(g')) >= g' - g - 8
  {
    hide High, Even, Odd;
    var h, h' := High(g * g), High(g' * g');
    SquareBelow(g);
    SquareBelow(g');
    SquareGap(g, g');
    HighGap(g * g, g' * g');
    EvenRise(h, h');
    OddRises(h, h');
    PolyWidths(h);
    OddGap(g, Odd(h), g', Odd(h'));
    HighGap(g * Odd(h), g' * Odd(h'));
  }

  lemma SquareGap(g: nat, g': nat)
    requires g <= g' < TWO_28
    ensures g * g <= g' * g' <= g * g + (g' - g) * 0x2000_0000
  {
    var d := g' - g;
    SplitFactor(g', g, d);
    SplitFactor(g, g, d);
    SplitFactor(d, g', g);
    MulOrder(d, g' + g, 0x2000_0000);
    Rises(g * g, g' * g, g' * g', g' * d, d * g, g' * d, d * g);
  }

  lemma OddGap(g: nat, odd: nat, g': nat, odd': nat)
    requires g <= g' && ODD1 <= odd <= odd'
    ensures g' * odd' >= g * odd + (g' - g) * ODD1
  {
    assert g' * odd' - g * odd == (g' - g) * odd' + g * (odd' - odd);
    MulOrder(g' - g, ODD1, odd');
  }

  lemma PolyEnds()
    ensures Poly(0) == TWO_32 && Poly(TWO_28 - 1) == 4112874774
  {
    PolyAtEnd();
    assert Even(0) == TWO_32;
    hide Even, Odd;
  }

  lemma PolyAtEnd()
    ensures Poly(268435455) == 4112874774
  {
    var h := High(268435455 * 268435455);
    assert h == 16777215;
    assert A2(h) == 41312134 && B1(h) == 238410701;
    hide A2, B1;
    assert A1(h) == 1031926366 && Odd(h) == 2977975763;
    hide A1, Odd;
    assert Even(h) == 4298998258;
    hide Even;
  }

  /** 0 < p <= 2^32, and p lies between the two lines that the fall bounds draw. */
  lemma PolyRange(g: nat)
    requires g < TWO_28
    ensures 0 < Poly(g) <= TWO_32
    ensures 2 * Poly(g) >= 8225749539 + (TWO_28 - g)
    ensures 2 * Poly(g) <= 0x2_0000_0000 + 8 - g
  {
    PolyEnds();
    PolyFalls(0, g);
    PolyFalls(g, TWO_28 - 1);
    if g < 8 {
      PolyNearZero(g);
    }
    hide Poly;
  }

  lemma PolyNearZero(g: nat)
    requires g < 8
    ensures Poly(g) <= TWO_32
  {
    MulOrder(g, g, 8);
    assert High(g * g) == 0;
    assert Even(0) == TWO_32;
    hide Even, Odd;
  }

  // ---- Neighbouring arguments ----

  lemma TableFacts(j: nat)
    requires j < 16
    ensures 2242560872 <= Table(j) <= TWO_32
    ensures j > 0 ==> Table(j) <= 4112874773
    ensures j < 15 ==> Table(j) * 8225749539 + Table(j + 1) * 94548 >= Table(j + 1) * 8589934600
    ensures j < 15 ==> Table(j) >= Table(j + 1)
  {
  }

  /** z * log2(e) in Q32: octave, segment and remainder are its mixed-radix digits. */
  function Exponent(z: nat): nat {
    z * LOG2_E / TWO_16
  }

  lemma Digits(z: nat)
    ensures Exponent(z) == Octave(z) * TWO_32 + Segment(z) * TWO_28 + Remainder(z)
  {
    var u := z * LOG2_E;
    DigitsOf(u);
  }

  lemma DigitsOf(u: nat)
    ensures u / TWO_16 == u / TWO_48 * TWO_32 + u % TWO_48 / TWO_44 * TWO_28 + u % TWO_48 % TWO_44 / TWO_16
  {
    var m, f := u / TWO_48, u % TWO_48;
    var j, r := f / TWO_44, f % TWO_44;
    var g, e := r / TWO_16, r % TWO_16;
    assert u == (m * TWO_32 + j * TWO_28 + g) * TWO_16 + e;
    DivModUnique(u, TWO_16, m * TWO_32 + j * TWO_28 + g, e);
  }

  lemma Advance(z: nat)
    ensures 94548 <= Exponent(z + 1) - Exponent(z) <= 94549
  {
    var u := z * LOG2_E;
    assert (z + 1) * LOG2_E == u + LOG2_E;
  }

  /** One more in z moves the remainder by about 94548.5 in place, into the next segment, or
      from the last segment into the next octave. */
  lemma NextDigits(z: nat) returns (step: nat)
    ensures 94548 <= step <= 94549
    ensures
      || (Octave(z + 1) == Octave(z) && Segment(z + 1) == Segment(z) && Remainder(z + 1) == Remainder(z) + step)
      || (Octave(z + 1) == Octave(z) && Segment(z + 1) == Segment(z) + 1
          && Remainder(z + 1) == Remainder(z) + step - TWO_28)
      || (Octave(z + 1) == Octave(z) + 1 && Segment(z) == 15 && Segment(z + 1) == 0
          && Remainder(z + 1) == Remainder(z) + step - TWO_28)
  {
    Digits(z);
    Digits(z + 1);
    Advance(z);
    step := Exponent(z + 1) - Exponent(z);
    hide Exponent, Octave, Segment, Remainder;
    MixedRadix(Octave(z), Segment(z), Remainder(z), Octave(z + 1), Segment(z + 1), Remainder(z + 1), step);
  }

  lemma MixedRadix(m: nat, j: nat, g: nat, m': nat, j': nat, g': nat, step: nat)
    requires j < 16 && j' < 16 && g < TWO_28 && g' < TWO_28 && step < TWO_28
    requires m' * TWO_32 + j' * TWO_28 + g' == m * TWO_32 + j * TWO_28 + g + step
    ensures
      || (m' == m && j' == j && g' == g + step)
      || (m' == m && j' == j + 1 && g' == g + step - TWO_28)
      || (m' == m + 1 && j == 15 && j' == 0 && g' == g + step - TWO_28)
  {
  }

  /** Within a segment the mantissa cannot rise over a step. */
  lemma FallsInSegment(j: nat, g: nat, g': nat)
    requires j < 16 && g + 8 <= g' < TWO_28
    ensures Mantissa(j, g') <= Mantissa(j, g)
  {
    hide Poly, Table;
    PolyFalls(g, g');
    PolyRange(g);
    PolyRange(g');
    MulOrder(Table(j), Poly(g'), Poly(g));
    DivOrder(Table(j) * Poly(g'), Table(j) * Poly(g));
  }

  lemma DivOrder(a: int, b: int)
    requires a <= b
    ensures a / TWO_32 <= b / TWO_32
  {
  }

  /** Across a segment boundary the table's step outweighs the polynomial's return to one. */
  lemma FallsAcrossSegments(j: nat, g: nat, g': nat, step: nat)
    requires j < 15 && g < TWO_28 && g' < TWO_28 && g' == g + step - TWO_28 && 94548 <= step
    ensures Mantissa(j + 1, g') <= Mantissa(j, g)
  {
    hide Poly;
    PolyRange(g);
    PolyRange(g');
    TableFacts(j);
    var t, t' := Table(j), Table(j + 1);
    TableZero();
    hide Table;
    Products(t, t', 2 * Poly(g), 2 * Poly(g'), TWO_28 - g, g');
    DivOrder(t' * Poly(g'), t * Poly(g));
  }

  lemma TableZero()
    ensures Table(0) == TWO_32
  {
  }

  lemma Products(t: nat, t': nat, p: nat, p': nat, s: nat, s': nat)
    requires t * 8225749539 + t' * 94548 >= t' * 8589934600 && t >= t'
    requires p >= 8225749539 + s && p' <= 0x2_0000_0000 + 8 - s' && s + s' >= 94548
    ensures t * p >= t' * p'
  {
    MulOrder(t, 8225749539 + s, p);
    MulOrder(t', p', 8589934600 - s');
    MulOrder(s, t', t);
    MulOrder(t', 94548, s + s');
    assert t * (8225749539 + s) == t * 8225749539 + s * t;
    assert t' * (8589934600 - s') == t' * 8589934600 - t' * s';
  }

  /** Out of the last segment the mantissa at most doubles, and the octave halves it. */
  lemma FallsAcrossOctaves(g: nat, g': nat, step: nat)
    requires g < TWO_28 && g' < TWO_28 && g' == g + step - TWO_28 && 94548 <= step
    ensures Mantissa(0, g') <= 2 * Mantissa(15, g)
  {
    hide Poly;
    PolyRange(g);
    PolyRange(g');
    LastTable();
    hide Table;
    var p := Poly(g);
    assert 2242560872 * p >= 0;
    HalfOctave(2242560872 * p, Poly(g'), p, TWO_28 - g, g');
  }

  lemma LastTable()
    ensures Table(15) == 2242560872
  {
  }

  lemma HalfOctave(tp: int, p': int, p: int, s: int, s': int)
    requires tp == 2242560872 * p && 2 * p >= 8225749539 + s && s >= 0
    requires 2 * p' <= 0x2_0000_0000 + 8 - s' && s + s' >= 94548
    ensures p' <= 2 * (tp / TWO_32)
  {
  }

  /** Neighbouring arguments: the result never rises by going one further below zero. */
  lemma CoreFalls(z: nat)
    ensures Core(z + 1) <= Core(z)
  {
    hide Octave, Segment, Remainder, Mantissa, DivRne, Pow2;
    var step := NextDigits(z);
    var j, g, m := Segment(z), Remainder(z), Octave(z);
    var j', g' := Segment(z + 1), Remainder(z + 1);
    if Octave(z + 1) == m {
      if j' == j {
        FallsInSegment(j, g, g');
      } else {
        FallsAcrossSegments(j, g, g', step);
      }
      MulOrder(Pow2(16 + m), Mantissa(j', g'), Mantissa(j, g));
      DivRneMonotone(Mantissa(j', g'), Pow2(16 + m), Mantissa(j, g), Pow2(16 + m));
    } else {
      FallsAcrossOctaves(g, g', step);
      Pow2Step(16 + m);
      Halved(Mantissa(0, g'), Mantissa(15, g), Pow2(16 + m));
      DivRneMonotone(Mantissa(0, g'), Pow2(17 + m), Mantissa(15, g), Pow2(16 + m));
    }
  }

  lemma Pow2Step(k: nat)
    ensures Pow2(k + 1) == 2 * Pow2(k)
  {
  }

  lemma Halved(y': int, y: int, p: nat)
    requires y' <= 2 * y
    ensures y' * p <= y * (2 * p)
  {
    MulOrder(p, y', 2 * y);
  }

  lemma {:induction false} CoreMonotone(z: nat, z': nat)
    requires z <= z'
    ensures Core(z') <= Core(z)
    decreases z' - z
  {
    hide Core;
    if z >= z' {
    } else {
      CoreMonotone(z, z' - 1);
      CoreFalls(z' - 1);
    }
  }

  // ---- The exponential ----

  lemma MantissaRange(j: nat, g: nat)
    requires j < 16 && g < TWO_28
    ensures 0 <= Mantissa(j, g) <= TWO_32
  {
    PolyRange(g);
    TableFacts(j);
    hide Poly, Table;
    MulOrder(Table(j), Poly(g), TWO_32);
    MulOrder(Poly(g), 0, Table(j));
    MulOrder(TWO_32, Table(j), TWO_32);
    DivOrder(Table(j) * Poly(g), TWO_32 * TWO_32);
    DivOrder(0, Table(j) * Poly(g));
  }

  lemma CoreRange(z: nat)
    ensures 0 <= Core(z) <= 65536
  {
    hide Octave, Segment, Remainder, Mantissa, DivRne, Pow2;
    MantissaRange(Segment(z), Remainder(z));
    var p := Pow2(16 + Octave(z));
    Pow2Monotone(16, 16 + Octave(z));
    Pow2Literals();
    MulOrder(65536, TWO_16, p);
    DivRneBetween(Mantissa(Segment(z), Remainder(z)), p, 0, 65536);
  }

  lemma CoreAtZero()
    ensures Core(0) == 65536
  {
    hide Poly;
    PolyEnds();
    assert Octave(0) == 0 && Segment(0) == 0 && Remainder(0) == 0;
    hide DivRne;
    Pow2Literals();
    DivRneExact(65536, TWO_16);
  }

  lemma DigitsAtCutOff()
    ensures Octave(772243) == 16 && Segment(772243) == 15 && Remainder(772243) == 268379521
    ensures Octave(772244) == 17 && Segment(772244) == 0 && Remainder(772244) == 38614
  {
  }

  lemma PolyAtCutOff()
    ensures Poly(268379521) == 4112911901 && Poly(38614) == 4294940531
  {
    hide Poly;
    PolyBeforeCutOff();
    PolyPastCutOff();
  }

  lemma PolyBeforeCutOff()
    ensures Poly(268379521) == 4112911901
  {
    var h := High(268379521 * 268379521);
    assert h == 16770224;
    assert A2(h) == 41312133 && B1(h) == 238410692;
    hide A2, B1;
    assert A1(h) == 1031926299 && Odd(h) == 2977975375;
    hide A1, Odd;
    assert Even(h) == 4298996578;
    hide Even;
  }

  lemma PolyPastCutOff()
    ensures Poly(38614) == 4294940531
  {
    var h := High(38614 * 38614);
    assert h == 0;
    assert A2(h) == 41309550 && B1(h) == 238388332;
    hide A2, B1;
    assert A1(h) == 1031764991 && Odd(h) == 2977044472;
    hide A1, Odd;
    assert Even(h) == 4294967296;
    hide Even;
  }

  /** The cut-off is exactly where the rounded value becomes zero. */
  lemma CutOff()
    ensures Core(THRESHOLD - 1) == 1 && Core(THRESHOLD) == 0
  {
    DigitsAtCutOff();
    PolyAtCutOff();
    LastTable();
    Pow2Literals();
    Pow2Step(32);
    hide Octave, Segment, Remainder, Poly, Table, Pow2;
  }

  /** exp_q16 over its whole domain: within [0, 65536], exactly 65536 at zero, and zero exactly
      from the threshold on. */
  lemma ExpRange(delta: int)
    requires delta <= 0
    ensures 0 <= Exp(delta) <= 65536
    ensures Exp(0) == 65536
    ensures Exp(delta) == 0 <==> -delta >= THRESHOLD
  {
    hide Core;
    CoreAtZero();
    CutOff();
    CoreRange(-delta);
    if -delta < THRESHOLD {
      CoreMonotone(-delta, THRESHOLD - 1);
    }
  }

  /** The result never rises as delta falls. */
  lemma ExpMonotone(a: int, b: int)
    requires a <= b <= 0
    ensures Exp(a) <= Exp(b)
  {
    hide Core;
    ExpRange(a);
    ExpRange(b);
    if -a < THRESHOLD {
      CoreMonotone(-b, -a);
    }
  }

  /** The cut-off only skips work: past it the formula itself gives zero. */
  lemma CutOffSkipsZeros(z: nat)
    requires z >= THRESHOLD
    ensures Core(z) == 0
  {
    hide Core;
    CutOff();
    CoreMonotone(THRESHOLD, z);
    CoreRange(z);
  }

  /** Every product of the algorithm stays non-negative and inside 64 bits, u inside 53, and
      the polynomial is positive, so the subtraction in it never wraps. */
  lemma ExpWidths(z: nat)
    requires z < THRESHOLD
    ensures z * LOG2_E < 0x20_0000_0000_0000 && TWO_64 == Pow2(64)
    ensures var g := Remainder(z);
      var h := High(g * g);
      && g * g < TWO_64 && EVEN6 * h < TWO_64 && A2(h) * h < TWO_64 && A1(h) * h < TWO_64
      && ODD5 * h < TWO_64 && B1(h) * h < TWO_64 && g * Odd(h) < TWO_64
      && 0 < Poly(g) <= TWO_32
      && (Segment(z) > 0 ==> 0 <= Table(Segment(z)) * Poly(g) < TWO_64)
  {
    Pow2Literals();
    hide Segment, Remainder, Poly, High, A2, A1, B1, Odd, Table, Pow2;
    var g := Remainder(z);
    var h := High(g * g);
    SquareBelow(g);
    PolyWidths(h);
    PolyRange(g);
    TableFacts(Segment(z));
    SquareMonotone(g, TWO_28);
    Below(EVEN6, 0xf_ffff, h);
    Below(A2(h), 0x400_0000, h);
    Below(A1(h), 0x4000_0000, h);
    Below(ODD5, 0x1000_0000, h);
    Below(B1(h), 0x1000_0000, h);
    Below(Odd(h), 0x1_0000_0000, g);
    if Segment(z) > 0 {
      MulOrder(Table(Segment(z)), Poly(g), TWO_32);
    }
  }

  lemma Below(a: nat, top: nat, h: nat)
    requires a <= top <= 0x1_0000_0000 && h < TWO_28
    ensures a * h < TWO_64
  {
    MulOrder(h, a, top);
    MulOrder(top, h, TWO_28);
  }

  // ---- The table ----

  function Power16(x: nat): nat {
    var x2 := x * x;
    var x4 := x2 * x2;
    var x8 := x4 * x4;
    x8 * x8
  }

  /** t is 2^33 / p^(1/16) rounded to nearest, halved: 2t - 1 and 2t + 1 enclose it. */
  ghost predicate IsRounded(t: nat, p: nat)
    requires t > 0
  {
    Power16(2 * t - 1) * p < Power16(2 * TWO_32) < Power16(2 * t + 1) * p
  }

  /** Each table entry is 2^(32 - j/16) rounded to nearest, compared through 16th powers. */
  lemma TableIsRounded(j: nat)
    requires j < 16
    ensures IsRounded(Table(j), Pow2(j))
  {
    SmallPowers();
    hide Pow2, IsRounded;
    match j
    case 0 => Entry0();
    case 1 => Entry1();
    case 2 => Entry2();
    case 3 => Entry3();
    case 4 => Entry4();
    case 5 => Entry5();
    case 6 => Entry6();
    case 7 => Entry7();
    case 8 => Entry8();
    case 9 => Entry9();
    case 10 => Entry10();
    case 11 => Entry11();
    case 12 => Entry12();
    case 13 => Entry13();
    case 14 => Entry14();
    case 15 => Entry15();
  }

  lemma Entry0() ensures IsRounded(4294967296, 1) {}
  lemma Entry1() ensures IsRounded(4112874773, 2) {}
  lemma Entry2() ensures IsRounded(3938502376, 4) {}
  lemma Entry3() ensures IsRounded(3771522796, 8) {}
  lemma Entry4() ensures IsRounded(3611622603, 16) {}
  lemma Entry5() ensures IsRounded(3458501653, 32) {}
  lemma Entry6() ensures IsRounded(3311872529, 64) {}
  lemma Entry7() ensures IsRounded(3171459999, 128) {}
  lemma Entry8() ensures IsRounded(3037000500, 256) {}
  lemma Entry9() ensures IsRounded(2908241642, 512) {}
  lemma Entry10() ensures IsRounded(2784941738, 1024) {}
  lemma Entry11() ensures IsRounded(2666869345, 2048) {}
  lemma Entry12() ensures IsRounded(2553802834, 4096) {}
  lemma Entry13() ensures IsRounded(2445529972, 8192) {}
  lemma Entry14() ensures IsRounded(2341847524, 16384) {}
  lemma Entry15() ensures IsRounded(2242560872, 32768) {}

  lemma SmallPowers()
    ensures Pow2(0) == 1 && Pow2(1) == 2 && Pow2(2) == 4 && Pow2(3) == 8 && Pow2(4) == 16 && Pow2(5) == 32
    ensures Pow2(6) == 64 && Pow2(7) == 128 && Pow2(8) == 256 && Pow2(9) == 512 && Pow2(10) == 1024
    ensures Pow2(11) == 2048 && Pow2(12) == 4096 && Pow2(13) == 8192 && Pow2(14) == 16384 && Pow2(15) == 32768
  {
  }
}
