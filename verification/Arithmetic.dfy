/** Integer arithmetic shared by the numeric models: powers of two, rounding to nearest
    with ties to even, and the integer square root. */
module Arithmetic {

  function Pow2(k: nat): (p: nat)
    ensures p > 0
  {
    if k == 0 then 1 else 2 * Pow2(k - 1)
  }

  lemma {:induction false} Pow2Add(a: nat, b: nat)
    ensures Pow2(a + b) == Pow2(a) * Pow2(b)
  {
    if a == 0 {
    } else {
      Pow2Add(a - 1, b);
      assert Pow2(a + b) == 2 * Pow2(a - 1 + b);
      assert 2 * (Pow2(a - 1) * Pow2(b)) == (2 * Pow2(a - 1)) * Pow2(b);
    }
  }

  lemma {:induction false} Pow2Monotone(a: nat, b: nat)
    requires a <= b
    ensures Pow2(a) <= Pow2(b)
    ensures a < b ==> Pow2(a) < Pow2(b)
    decreases b - a
  {
    if a >= b {
    } else {
      Pow2Monotone(a, b - 1);
    }
  }

  /** The literal powers the data formats use. */
  lemma Pow2Literals()
    ensures Pow2(16) == 0x1_0000 && Pow2(23) == 0x80_0000 && Pow2(24) == 0x100_0000
    ensures Pow2(32) == 0x1_0000_0000
    ensures Pow2(39) == 0x80_0000_0000
    ensures Pow2(64) == 0x1_0000_0000_0000_0000
  {
    Pow2Small();
    Pow2Add(8, 8);
    Pow2Add(16, 7);
    Pow2Add(16, 8);
    Pow2Add(16, 16);
    Pow2Add(32, 7);
    Pow2Add(32, 32);
  }

  lemma Pow2Small()
    ensures Pow2(1) == 2 && Pow2(5) == 32 && Pow2(7) == 128 && Pow2(8) == 256 && Pow2(9) == 512 && Pow2(10) == 1024
  {
  }

  /** The exponent of the leading bit. */
  function Log2(n: nat): (k: nat)
    requires n > 0
    ensures Pow2(k) <= n < Pow2(k + 1)
  {
    if n == 1 then 0 else Log2(n / 2) + 1
  }

  lemma Log2Unique(n: nat, k: nat)
    requires Pow2(k) <= n < Pow2(k + 1)
    ensures n > 0 && Log2(n) == k
  {
    var l := Log2(n);
    if l < k {
      Pow2Monotone(l + 1, k);
    } else if k < l {
      Pow2Monotone(k + 1, l);
    }
  }

  function Abs(x: int): (r: nat) {
    if x < 0 then -x else x
  }

  function Mul(a: nat, b: nat): nat {
    a * b
  }

  function Max(a: int, b: int): int {
    if a < b then b else a
  }

  /** q is num/den rounded to the nearest integer, a tie going to the even one. */
  ghost predicate IsNearestEven(num: int, den: int, q: int)
  {
    && 2 * Abs(num - q * den) <= den
    && (2 * Abs(num - q * den) == den ==> q % 2 == 0)
  }

  /** Quotient and remainder by floor, then one step up past the midpoint or at a midpoint
      from an odd quotient. */
  function DivRne(num: int, den: int): (q: int)
    requires den > 0
    ensures IsNearestEven(num, den, q)
  {
    var f := num / den;
    var r := num % den;
    assert num == f * den + r;
    assert (f + 1) * den == f * den + den;
    if 2 * r > den || (2 * r == den && f % 2 == 1) then f + 1 else f
  }

  /** The two half-unit bounds of a nearest integer, met with equality only by even ones. */
  lemma NearestEvenBounds(num: int, den: int, q: int)
    requires den > 0 && IsNearestEven(num, den, q)
    ensures (2 * q - 1) * den <= 2 * num <= (2 * q + 1) * den
    ensures (2 * num == (2 * q - 1) * den || 2 * num == (2 * q + 1) * den) ==> q % 2 == 0
  {
    assert (2 * q - 1) * den == 2 * (q * den) - den;
    assert (2 * q + 1) * den == 2 * (q * den) + den;
  }

  /** Rounding never reverses the order of two rationals. */
  lemma NearestEvenMonotone(n1: int, d1: int, q1: int, n2: int, d2: int, q2: int)
    requires d1 > 0 && d2 > 0 && n1 * d2 <= n2 * d1
    requires IsNearestEven(n1, d1, q1) && IsNearestEven(n2, d2, q2)
    ensures q1 <= q2
  {
    hide IsNearestEven;
    NearestEvenBounds(n1, d1, q1);
    NearestEvenBounds(n2, d2, q2);
    Doubled(n1 * d2, n2 * d1, n1, d2, n2, d1);
    BoundsInOrder(2 * n1, d1, q1, 2 * n2, d2, q2);
  }

  lemma Doubled(a: int, b: int, n1: int, d2: int, n2: int, d1: int)
    requires a == n1 * d2 && b == n2 * d1 && a <= b
    ensures 2 * n1 * d2 <= 2 * n2 * d1
  {
    assert 2 * n1 * d2 == 2 * a;
    assert 2 * n2 * d1 == 2 * b;
  }

  /** Roundings in the wrong order would both be ties, of neighbouring integers, one of them odd. */
  lemma BoundsInOrder(a: int, d1: int, q1: int, b: int, d2: int, q2: int)
    requires d1 > 0 && d2 > 0 && a * d2 <= b * d1
    requires (2 * q1 - 1) * d1 <= a && (a == (2 * q1 - 1) * d1 ==> q1 % 2 == 0)
    requires b <= (2 * q2 + 1) * d2 && (b == (2 * q2 + 1) * d2 ==> q2 % 2 == 0)
    ensures q1 <= q2
  {
    OrderClash(a, d1, 2 * q1 - 1, b, d2, 2 * q2 + 1);
  }

  /** a/d1 <= b/d2 with a/d1 >= p and b/d2 <= q forces p <= q, and equality all through when
      p == q. */
  lemma OrderClash(a: int, d1: int, p: int, b: int, d2: int, q: int)
    requires d1 > 0 && d2 > 0 && a * d2 <= b * d1
    requires p * d1 <= a && b <= q * d2
    ensures p <= q
    ensures p == q ==> a == p * d1 && b == q * d2
  {
    MulOrder(d2, p * d1, a);
    MulOrder(d1, b, q * d2);
    Rearrange(p, d1, d2);
    Rearrange(q, d1, d2);
    EqualProducts(d1 * d2, q, p);
    if p == q {
      EqualProducts(d2, p * d1, a);
      EqualProducts(d1, b, q * d2);
    }
  }

  lemma Rearrange(p: int, d1: int, d2: int)
    ensures d2 * (p * d1) == d1 * (p * d2) == (d1 * d2) * p
    ensures (p * d1) * d2 == (p * d2) * d1 == (d1 * d2) * p
    ensures d1 > 0 && d2 > 0 ==> d1 * d2 > 0
  {
  }

  lemma EqualProducts(k: int, a: int, b: int)
    requires k > 0
    ensures k * a == k * b <==> a == b
    ensures k * a < k * b <==> a < b
  {
    if a < b {
      MulOrder(k, a + 1, b);
    } else if b < a {
      MulOrder(k, b + 1, a);
    }
  }

  /** Nearest-even leaves no choice. */
  lemma NearestEvenUnique(num: int, den: int, p: int, q: int)
    requires den > 0 && IsNearestEven(num, den, p) && IsNearestEven(num, den, q)
    ensures p == q
  {
    NearestEvenMonotone(num, den, p, num, den, q);
    NearestEvenMonotone(num, den, q, num, den, p);
  }

  lemma DivRneMonotone(n1: int, d1: int, n2: int, d2: int)
    requires d1 > 0 && d2 > 0 && n1 * d2 <= n2 * d1
    ensures DivRne(n1, d1) <= DivRne(n2, d2)
  {
    NearestEvenMonotone(n1, d1, DivRne(n1, d1), n2, d2, DivRne(n2, d2));
  }

  /** An integer between two bounds stays between them under rounding of a quotient. */
  lemma DivRneBetween(num: int, den: int, lo: int, hi: int)
    requires den > 0 && lo * den <= num <= hi * den
    ensures lo <= DivRne(num, den) <= hi
  {
    DivRneExact(lo, den);
    DivRneExact(hi, den);
    MulOrder(den, lo * den, num);
    MulOrder(den, num, hi * den);
    hide DivRne;
    DivRneMonotone(lo * den, den, num, den);
    DivRneMonotone(num, den, hi * den, den);
  }

  lemma DivRneExact(q: int, den: int)
    requires den > 0
    ensures DivRne(q * den, den) == q
  {
    NearestEvenUnique(q * den, den, DivRne(q * den, den), q);
  }

  lemma DivModUnique(x: int, d: int, q: int, r: int)
    requires d > 0 && x == q * d + r && 0 <= r < d
    ensures x / d == q && x % d == r
  {
    var e := x / d;
    assert x == e * d + x % d;
    if e < q {
      MulOrder(d, e + 1, q);
    } else if e > q {
      MulOrder(d, q + 1, e);
    }
  }

  /** A multiple of d leaves no remainder. */
  lemma MultipleOf(x: int, d: int, q: int)
    requires d > 0 && x == q * d
    ensures x % d == 0 && x / d == q
  {
    DivModUnique(x, d, q, 0);
  }

  /** The specification of math.isqrt. */
  ghost predicate IsRoot(n: nat, r: nat) {
    r * r <= n < (r + 1) * (r + 1)
  }

  /** The integer square root, by four-to-one descent. */
  function Isqrt(n: nat): (r: nat)
    ensures IsRoot(n, r)
  {
    if n == 0 then 0 else
      var half := Isqrt(n / 4);
      IsqrtStep(n, half);
      hide IsRoot;
      if Square(2 * half + 1) <= n then 2 * half + 1 else 2 * half
  }

  function Square(r: nat): nat {
    r * r
  }

  lemma IsqrtStep(n: nat, half: nat)
    requires IsRoot(n / 4, half)
    ensures IsRoot(n, if Square(2 * half + 1) <= n then 2 * half + 1 else 2 * half)
  {
    var s, t := half * half, (half + 1) * (half + 1);
    assert 4 * s <= n < 4 * t;
    assert (2 * half) * (2 * half) == 4 * s;
    assert (2 * half + 2) * (2 * half + 2) == 4 * t;
  }

  lemma SquareMonotone(a: nat, b: nat)
    requires a <= b
    ensures a * a <= b * b
  {
  }

  lemma MulOrder(k: int, a: int, b: int)
    requires 0 <= k && a <= b
    ensures k * a <= k * b && a * k <= b * k
  {
  }
}
