/** Words as numbers: what the operations on bit lists are on the integers the code computes with. */
module WordNumbers {
  import opened Arithmetic
  import opened Digits
  import opened Bitwise
  import opened Bits

  /** A word is its low bit and the rest. */
  lemma FirstBit(s: seq<bool>)
    requires s != []
    ensures FromBits(s) == BitDigit(s[0]) + 2 * FromBits(s[1..])
    ensures FromBits(s) / 2 == FromBits(s[1..]) && FromBits(s) % 2 == BitDigit(s[0])
  {
    var ds := BitDigits(s);
    assert ds[1..] == BitDigits(s[1..]);
    assert Num(2, ds) == ds[0] + Mul(2, Num(2, ds[1..]));
    hide Num;
  }

  lemma NoBits()
    ensures FromBits([]) == 0
  {
  }

  // ---- Bitwise operations ----

  lemma XorStep(a: nat, b: nat)
    ensures BitXor(a, b) == 2 * BitXor(a / 2, b / 2) + if a % 2 != b % 2 then 1 else 0
  {
  }

  lemma AndStep(a: nat, b: nat)
    ensures BitAnd(a, b) == 2 * BitAnd(a / 2, b / 2) + if a % 2 == 1 && b % 2 == 1 then 1 else 0
  {
  }

  lemma OrStep(a: nat, b: nat)
    ensures BitOr(a, b) == 2 * BitOr(a / 2, b / 2) + if a % 2 == 1 || b % 2 == 1 then 1 else 0
  {
  }

  lemma {:induction false} XorNumber(x: seq<bool>, y: seq<bool>)
    requires |x| == |y|
    ensures FromBits(Xor(x, y)) == BitXor(FromBits(x), FromBits(y))
  {
    hide FromBits, BitXor;
    if x == [] {
      NoBits();
      assert Xor(x, y) == [] && x == y == [];
      XorZero();
    } else {
      FirstBit(x);
      FirstBit(y);
      FirstBit(Xor(x, y));
      XorNumber(x[1..], y[1..]);
      XorStep(FromBits(x), FromBits(y));
      assert Xor(x, y)[1..] == Xor(x[1..], y[1..]);
    }
  }

  lemma XorZero()
    ensures BitXor(0, 0) == 0 && BitAnd(0, 0) == 0 && BitOr(0, 0) == 0
  {
  }

  lemma {:induction false} AndNumber(x: seq<bool>, y: seq<bool>)
    requires |x| == |y|
    ensures FromBits(And(x, y)) == BitAnd(FromBits(x), FromBits(y))
  {
    hide FromBits, BitAnd;
    if x == [] {
      NoBits();
      assert And(x, y) == [] && x == y == [];
      XorZero();
    } else {
      FirstBit(x);
      FirstBit(y);
      FirstBit(And(x, y));
      AndNumber(x[1..], y[1..]);
      AndStep(FromBits(x), FromBits(y));
      assert And(x, y)[1..] == And(x[1..], y[1..]);
    }
  }

  lemma {:induction false} OrNumber(x: seq<bool>, y: seq<bool>)
    requires |x| == |y|
    ensures FromBits(Or(x, y)) == BitOr(FromBits(x), FromBits(y))
  {
    hide FromBits, BitOr;
    if x == [] {
      NoBits();
      assert Or(x, y) == [] && x == y == [];
      XorZero();
    } else {
      FirstBit(x);
      FirstBit(y);
      FirstBit(Or(x, y));
      OrNumber(x[1..], y[1..]);
      OrStep(FromBits(x), FromBits(y));
      assert Or(x, y)[1..] == Or(x[1..], y[1..]);
    }
  }

  lemma {:induction false} NotNumber(x: seq<bool>)
    ensures FromBits(Not(x)) + FromBits(x) == Pow(2, |x|) - 1
  {
    hide FromBits;
    if x == [] {
      NoBits();
      assert Not(x) == [];
    } else {
      FirstBit(x);
      FirstBit(Not(x));
      NotNumber(x[1..]);
      assert Not(x)[1..] == Not(x[1..]);
    }
  }

  // ---- Shifts ----

  lemma {:induction false} ConcatNumber(x: seq<bool>, y: seq<bool>)
    ensures FromBits(x + y) == FromBits(x) + Mul(Pow(2, |x|), FromBits(y))
  {
    hide Num, Pow;
    assert BitDigits(x + y) == BitDigits(x) + BitDigits(y);
    NumConcat(2, BitDigits(x), BitDigits(y));
  }

  lemma {:induction false} ZeroesNumber(n: nat)
    ensures FromBits(Zeroes(n)) == 0
  {
    hide Num;
    assert BitDigits(Zeroes(n)) == seq(n, _ => 0);
    ZeroNum(2, n);
  }

  lemma PartsNumber(x: seq<bool>, k: nat)
    requires k <= |x|
    ensures Pow(2, k) > 0
    ensures FromBits(x[..k]) == FromBits(x) % Pow(2, k) && FromBits(x[k..]) == FromBits(x) / Pow(2, k)
  {
    hide Num, Pow;
    BitDigitsBelow(x);
    NumSplit(2, BitDigits(x), k);
    assert BitDigits(x)[..k] == BitDigits(x[..k]) && BitDigits(x)[k..] == BitDigits(x[k..]);
  }

  lemma ShrNumber(x: seq<bool>, n: nat)
    requires n <= |x|
    ensures Pow(2, n) > 0 && FromBits(Shr(x, n)) == FromBits(x) / Pow(2, n)
  {
    hide FromBits, Pow;
    assert Shr(x, n) == x[n..] + Zeroes(n);
    PartsNumber(x, n);
    ConcatNumber(x[n..], Zeroes(n));
    ZeroesNumber(n);
    MulZero(Pow(2, |x[n..]|));
  }

  lemma MulZero(a: nat)
    ensures Mul(a, 0) == 0
  {
  }

  lemma ShlNumber(x: seq<bool>, n: nat)
    requires n <= |x|
    ensures Pow(2, |x|) > 0 && FromBits(Shl(x, n)) == Mul(FromBits(x), Pow(2, n)) % Pow(2, |x|)
  {
    hide FromBits, Pow, Mul;
    var k := |x| - n;
    assert Shl(x, n) == Zeroes(n) + x[..k];
    PartsNumber(x, k);
    ConcatNumber(Zeroes(n), x[..k]);
    ZeroesNumber(n);
    PowAdd(2, k, n);
    PartsNumber(x, 0);
    ShiftedResidue(FromBits(x), Pow(2, k), Pow(2, n));
    PositivePow(n);
  }

  lemma PositivePow(n: nat)
    ensures Pow(2, n) > 0
  {
  }

  /** A residue times a factor is the residue of the product, the modulus times the factor. */
  lemma ShiftedResidue(n: nat, p: nat, q: nat)
    requires p > 0 && q > 0
    ensures Mul(p, q) > 0 && Mul(q, n % p) == Mul(n, q) % Mul(p, q)
  {
    var d, r := n / p, n % p;
    assert p * q > 0;
    MulOrder(q, r + 1, p);
    assert q * (r + 1) == q * r + q;
    assert n * q == d * (p * q) + q * r by {
      assert n == p * d + r;
      assert (p * d + r) * q == (p * d) * q + r * q;
      assert (p * d) * q == d * (p * q);
    }
    DivModUnique(n * q, p * q, d, q * r);
  }
}
