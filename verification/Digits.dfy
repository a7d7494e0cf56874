/** Positional numbers: packed fields, little-endian bytes and base-three groups are all digit
    lists in some base, lowest digit first. */
module Digits {
  import opened Arithmetic

  function Pow(b: nat, n: nat): (p: nat)
    ensures b > 0 ==> p > 0
  {
    if n == 0 then 1 else b * Pow(b, n - 1)
  }

  predicate Below(b: nat, ds: seq<nat>) {
    forall i :: 0 <= i < |ds| ==> ds[i] < b
  }

  /** The number with these digits. */
  function Num(b: nat, ds: seq<nat>): nat {
    if ds == [] then 0 else ds[0] + Mul(b, Num(b, ds[1..]))
  }

  /** Digit i: shift down one place i times and keep the lowest. */
  function Digit(b: nat, n: nat, i: nat): (d: nat)
    requires b > 0
    decreases i
  {
    if i == 0 then n % b else Digit(b, n / b, i - 1)
  }

  lemma {:induction false} DigitBound(b: nat, n: nat, i: nat)
    requires b > 0
    ensures Digit(b, n, i) < b
    decreases i
  {
    if i == 0 {
    } else {
      DigitBound(b, n / b, i - 1);
    }
  }

  function DigitsOf(b: nat, n: nat, len: nat): (ds: seq<nat>)
    requires b > 0
    ensures |ds| == len && forall i :: 0 <= i < len ==> ds[i] == Digit(b, n, i)
  {
    seq(len, i requires 0 <= i < len => Digit(b, n, i))
  }

  /** A number as little-endian bytes. */
  function Le(n: nat, len: nat): (bytes: seq<nat>)
    ensures |bytes| == len
  {
    DigitsOf(256, n, len)
  }

  lemma LeInjective(m: nat, n: nat, len: nat)
    requires m < Pow(256, len) && n < Pow(256, len) && Le(m, len) == Le(n, len)
    ensures m == n
  {
    hide Num, Digit, Pow;
    NumOfDigits(256, m, len);
    NumOfDigits(256, n, len);
  }

  lemma DivMod(b: nat, q: nat, r: nat)
    requires r < b
    ensures (r + Mul(b, q)) / b == q && (r + Mul(b, q)) % b == r
  {
    DivModUnique(r + Mul(b, q), b, q, r);
  }

  lemma BelowTail(b: nat, ds: seq<nat>)
    requires ds != [] && Below(b, ds)
    ensures ds[0] < b && Below(b, ds[1..])
  {
  }

  /** Reading digit i of a number gives back the digit it was built from, zero past the end. */
  lemma {:induction false} DigitOfNum(b: nat, ds: seq<nat>, i: nat)
    requires b > 0 && Below(b, ds)
    ensures Digit(b, Num(b, ds), i) == if i < |ds| then ds[i] else 0
    decreases |ds|, i
  {
    if ds == [] {
      if i > 0 {
        assert 0 / b == 0;
        DigitOfNum(b, ds, i - 1);
      }
    } else {
      BelowTail(b, ds);
      DivMod(b, Num(b, ds[1..]), ds[0]);
      if i > 0 {
        hide Below, Mul;
        DigitOfNum(b, ds[1..], i - 1);
      }
    }
  }

  lemma DigitsOfNum(b: nat, ds: seq<nat>)
    requires b > 0 && Below(b, ds)
    ensures DigitsOf(b, Num(b, ds), |ds|) == ds
  {
    hide Below, Num, Digit;
    forall i | 0 <= i < |ds| ensures Digit(b, Num(b, ds), i) == ds[i] {
      DigitOfNum(b, ds, i);
    }
  }

  lemma NumStep(b: nat, n: nat)
    requires b > 0
    ensures n == n % b + Mul(b, n / b)
  {
  }

  lemma QuotientBound(b: nat, n: nat, p: nat)
    requires b > 0 && n < Mul(b, p)
    ensures n / b < p
  {
    if n / b >= p {
      MulOrder(b, p, n / b);
    }
  }

  /** A number that fits is rebuilt from its digits. */
  lemma {:induction false} NumOfDigits(b: nat, n: nat, len: nat)
    requires b > 0 && n < Pow(b, len)
    ensures Below(b, DigitsOf(b, n, len)) && Num(b, DigitsOf(b, n, len)) == n
    decreases len
  {
    forall i | 0 <= i < len ensures DigitsOf(b, n, len)[i] < b {
      DigitBound(b, n, i);
    }
    if len == 0 {
    } else {
      QuotientBound(b, n, Pow(b, len - 1));
      NumOfDigits(b, n / b, len - 1);
      assert DigitsOf(b, n, len)[1..] == DigitsOf(b, n / b, len - 1);
      NumStep(b, n);
    }
  }

  lemma {:induction false} NumBound(b: nat, ds: seq<nat>)
    requires b > 0 && Below(b, ds)
    ensures Num(b, ds) < Pow(b, |ds|)
    decreases |ds|
  {
    if ds == [] {
    } else {
      BelowTail(b, ds);
      NumBound(b, ds[1..]);
      var n, p := Num(b, ds[1..]), Pow(b, |ds| - 1);
      MulOrder(b, n + 1, p);
      MulOrder(b, n, n + 1);
      Distribute(b, n, 1);
      hide Num, Pow;
      assert Mul(b, 1) == b;
    }
  }

  lemma Distribute(b: nat, m: nat, n: nat)
    ensures Mul(b, m + n) == Mul(b, m) + Mul(b, n)
  {
  }

  lemma {:induction false} NumConcat(b: nat, x: seq<nat>, y: seq<nat>)
    ensures Num(b, x + y) == Num(b, x) + Mul(Pow(b, |x|), Num(b, y))
    decreases |x|
  {
    if x == [] {
      NumNothing(b);
      assert x + y == y;
      assert Pow(b, 0) == 1;
    } else {
      NumFirst(b, x[0], x[1..] + y);
      NumFirst(b, x[0], x[1..]);
      assert x == [x[0]] + x[1..] && x + y == [x[0]] + (x[1..] + y);
      assert Pow(b, |x|) == Mul(b, Pow(b, |x| - 1));
      hide Num, Pow, Mul;
      NumConcat(b, x[1..], y);
      Distribute(b, Num(b, x[1..]), Mul(Pow(b, |x| - 1), Num(b, y)));
      Associate(b, Pow(b, |x| - 1), Num(b, y));
    }
  }

  lemma NumNothing(b: nat)
    ensures Num(b, []) == 0
  {
  }

  lemma NumFirst(b: nat, d: nat, ds: seq<nat>)
    ensures Num(b, [d] + ds) == d + Mul(b, Num(b, ds))
  {
    assert ([d] + ds)[1..] == ds;
  }

  lemma Associate(a: nat, b: nat, c: nat)
    ensures Mul(a, Mul(b, c)) == Mul(Mul(a, b), c)
  {
  }

  /** One more digit at the top: the packing loops add code << (width * j). */
  lemma NumAppend(b: nat, x: seq<nat>, d: nat)
    ensures Num(b, x + [d]) == Num(b, x) + Mul(d, Pow(b, |x|))
  {
    NumOne(b, d);
    hide Num, Pow;
    NumConcat(b, x, [d]);
  }

  lemma NumOne(b: nat, d: nat)
    ensures Num(b, [d]) == d
  {
    assert Num(b, [d]) == d + Mul(b, Num(b, []));
  }

  /** Masking keeps the low digits and shifting keeps the high ones. */
  lemma NumSplit(b: nat, ds: seq<nat>, k: nat)
    requires b > 0 && Below(b, ds) && k <= |ds|
    ensures Pow(b, k) > 0
    ensures Num(b, ds) % Pow(b, k) == Num(b, ds[..k])
    ensures Num(b, ds) / Pow(b, k) == Num(b, ds[k..])
  {
    hide Num, Pow, Mul;
    assert ds == ds[..k] + ds[k..];
    NumConcat(b, ds[..k], ds[k..]);
    NumBound(b, ds[..k]);
    DivMod(Pow(b, k), Num(b, ds[k..]), Num(b, ds[..k]));
  }

  lemma DivDiv(n: nat, b: nat, p: nat)
    requires b > 0 && p > 0
    ensures b * p > 0 && n / b / p == n / (b * p)
  {
    var q, r := n / b, n % b;
    var s, t := q / p, q % p;
    NumStep(b, n);
    NumStep(p, q);
    MulOrder(b, t + 1, p);
    Distribute(b, Mul(p, s), t);
    Associate(b, p, s);
    Distribute(b, t, 1);
    DivMod(b * p, s, Mul(b, t) + r);
  }

  lemma {:induction false} PowAdd(b: nat, m: nat, n: nat)
    ensures Pow(b, m + n) == Mul(Pow(b, m), Pow(b, n))
  {
    if m == 0 {
    } else {
      PowAdd(b, m - 1, n);
      Associate(b, Pow(b, m - 1), Pow(b, n));
    }
  }

  lemma {:induction false} NumZeros(b: nat, x: seq<nat>, k: nat)
    ensures Num(b, x + seq(k, _ => 0)) == Num(b, x)
  {
    NumConcat(b, x, seq(k, _ => 0));
    ZeroNum(b, k);
  }

  lemma {:induction false} ZeroNum(b: nat, k: nat)
    ensures Num(b, seq(k, _ => 0)) == 0
  {
    if k == 0 {
    } else {
      ZeroNum(b, k - 1);
      assert seq(k, _ => 0 as nat)[1..] == seq(k - 1, _ => 0 as nat);
    }
  }
}
