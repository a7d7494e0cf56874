/** Machine words as bit lists, bit 0 first: the bitwise operations, rotation, and steps that change
    each bit by a function of the bits before it, which are always invertible. */
module Bits {
  import opened Arithmetic
  import opened Digits

  /** Bit i, zero past the top. */
  function Bit(s: seq<bool>, i: int): bool {
    0 <= i < |s| && s[i]
  }

  function Xor(a: seq<bool>, b: seq<bool>): (c: seq<bool>)
    requires |a| == |b|
    ensures |c| == |a| && forall i :: 0 <= i < |c| ==> c[i] == (a[i] != b[i])
  {
    seq(|a|, i requires 0 <= i < |a| => a[i] != b[i])
  }

  function And(a: seq<bool>, b: seq<bool>): (c: seq<bool>)
    requires |a| == |b|
    ensures |c| == |a| && forall i :: 0 <= i < |c| ==> c[i] == (a[i] && b[i])
  {
    seq(|a|, i requires 0 <= i < |a| => a[i] && b[i])
  }

  function Or(a: seq<bool>, b: seq<bool>): (c: seq<bool>)
    requires |a| == |b|
    ensures |c| == |a| && forall i :: 0 <= i < |c| ==> c[i] == (a[i] || b[i])
  {
    seq(|a|, i requires 0 <= i < |a| => a[i] || b[i])
  }

  function Not(a: seq<bool>): (c: seq<bool>)
    ensures |c| == |a| && forall i :: 0 <= i < |c| ==> c[i] == !a[i]
  {
    seq(|a|, i requires 0 <= i < |a| => !a[i])
  }

  /** x << n within the word. */
  function Shl(s: seq<bool>, n: nat): (c: seq<bool>)
    ensures |c| == |s| && forall i :: 0 <= i < |c| ==> c[i] == Bit(s, i - n)
  {
    seq(|s|, i requires 0 <= i < |s| => Bit(s, i - n))
  }

  /** x >> n. */
  function Shr(s: seq<bool>, n: nat): (c: seq<bool>)
    ensures |c| == |s| && forall i :: 0 <= i < |c| ==> c[i] == Bit(s, i + n)
  {
    seq(|s|, i requires 0 <= i < |s| => Bit(s, i + n))
  }

  function Zeroes(n: nat): (z: seq<bool>)
    ensures |z| == n && forall i :: 0 <= i < n ==> !z[i]
  {
    seq(n, _ => false)
  }

  // ---- Rotation ----

  function RotL(s: seq<bool>, n: nat): (c: seq<bool>)
    requires |s| == 64
    ensures |c| == 64 && forall i :: 0 <= i < 64 ==> c[i] == s[(i - n) % 64]
  {
    seq(64, i requires 0 <= i < 64 => s[(i - n) % 64])
  }

  /** Rotation as the code writes it, with n = 0 apart. */
  lemma RotationByShifts(s: seq<bool>, n: nat)
    requires |s| == 64 && n < 64
    ensures RotL(s, n) == if n == 0 then s else Or(Shl(s, n), Shr(s, 64 - n))
  {
    if n > 0 {
      var c := Or(Shl(s, n), Shr(s, 64 - n));
      forall i | 0 <= i < 64 ensures RotL(s, n)[i] == c[i] {
        if i < n {
          assert (i - n) % 64 == i - n + 64;
        } else {
          assert (i - n) % 64 == i - n;
        }
      }
    }
  }

  lemma RotateMore(s: seq<bool>, m: nat, n: nat)
    requires |s| == 64
    ensures RotL(RotL(s, m), n) == RotL(s, (m + n) % 64)
  {
    var once := RotL(s, m);
    forall i | 0 <= i < 64 ensures RotL(once, n)[i] == RotL(s, (m + n) % 64)[i] {
      PlaceTurned(i, m, n);
      assert RotL(once, n)[i] == once[(i - n) % 64] == s[((i - n) % 64 - m) % 64];
    }
  }

  lemma PlaceTurned(i: int, m: int, n: int)
    ensures ((i - n) % 64 - m) % 64 == (i - (m + n) % 64) % 64
  {
    SameTurn(i - n - m, (i - n) % 64 - m, (i - n) / 64);
    SameTurn(i - (m + n) % 64, i - n - m, (m + n) / 64);
  }

  lemma SameTurn(a: int, b: int, k: int)
    requires a == b + 64 * k
    ensures a % 64 == b % 64
  {
    DivModUnique(a, 64, b / 64 + k, b % 64);
  }

  lemma RotateXor(a: seq<bool>, b: seq<bool>, n: nat)
    requires |a| == |b| == 64
    ensures RotL(Xor(a, b), n) == Xor(RotL(a, n), RotL(b, n))
  {
  }

  // ---- Numbers ----

  function BitOf(n: nat, i: nat): bool {
    Digit(2, n, i) == 1
  }

  function ToBits(n: nat, len: nat): (s: seq<bool>)
    ensures |s| == len && forall i :: 0 <= i < len ==> s[i] == BitOf(n, i)
  {
    seq(len, i requires 0 <= i < len => BitOf(n, i))
  }

  function BitDigit(b: bool): nat {
    if b then 1 else 0
  }

  function BitDigits(s: seq<bool>): (ds: seq<nat>)
    ensures |ds| == |s| && forall i :: 0 <= i < |s| ==> ds[i] == BitDigit(s[i])
  {
    seq(|s|, i requires 0 <= i < |s| => BitDigit(s[i]))
  }

  function FromBits(s: seq<bool>): nat {
    Num(2, BitDigits(s))
  }

  lemma FromToBits(n: nat, len: nat)
    requires n < Pow(2, len)
    ensures FromBits(ToBits(n, len)) == n
  {
    hide Num, Digit, Pow;
    NumOfDigits(2, n, len);
    assert BitDigits(ToBits(n, len)) == DigitsOf(2, n, len);
  }

  lemma BitDigitsBelow(s: seq<bool>)
    ensures Below(2, BitDigits(s))
  {
  }

  lemma ToFromBits(s: seq<bool>)
    ensures FromBits(s) < Pow(2, |s|) && ToBits(FromBits(s), |s|) == s
  {
    hide Num, Digit, Pow;
    BitDigitsBelow(s);
    NumBound(2, BitDigits(s));
    forall i: nat | i < |s| ensures BitOf(FromBits(s), i) == s[i] {
      DigitOfNum(2, BitDigits(s), i);
    }
  }

  lemma ToBitsInjective(m: nat, n: nat, len: nat)
    requires m < Pow(2, len) && n < Pow(2, len) && ToBits(m, len) == ToBits(n, len)
    ensures m == n
  {
    hide FromBits, Pow, ToBits;
    FromToBits(m, len);
    FromToBits(n, len);
  }

  lemma Pow2To32()
    ensures Pow(2, 32) == 0x1_0000_0000 && Pow(2, 64) == 0x1_0000_0000_0000_0000
  {
    assert Pow(2, 4) == 16;
    PowAdd(2, 4, 4);
    PowAdd(2, 8, 8);
    PowAdd(2, 16, 16);
    PowAdd(2, 32, 32);
  }

  // ---- Triangular steps ----

  /** Every bit changed by a function of the bits before it. */
  function Triangular(g: seq<bool> -> bool, x: seq<bool>): (y: seq<bool>)
    ensures |y| == |x| && forall i :: 0 <= i < |y| ==> y[i] == (x[i] != g(x[..i]))
  {
    seq(|x|, i requires 0 <= i < |x| => x[i] != g(x[..i]))
  }

  /** Its inverse: the bits found one after another. */
  function Solve(g: seq<bool> -> bool, y: seq<bool>): (x: seq<bool>)
    ensures |x| == |y|
    decreases |y|
  {
    if y == [] then [] else
      var front := Solve(g, y[..|y| - 1]);
      front + [y[|y| - 1] != g(front)]
  }

  lemma {:induction false} SolveTriangular(g: seq<bool> -> bool, x: seq<bool>)
    ensures Solve(g, Triangular(g, x)) == x
    decreases |x|
  {
    if x == [] {
    } else {
      var n := |x| - 1;
      SolveTriangular(g, x[..n]);
      TriangularFront(g, x, n);
      assert Triangular(g, x)[n] == (x[n] != g(x[..n]));
      hide Triangular;
      assert x[..n] + [x[n]] == x;
    }
  }

  lemma TriangularFront(g: seq<bool> -> bool, x: seq<bool>, n: nat)
    requires n <= |x|
    ensures Triangular(g, x)[..n] == Triangular(g, x[..n])
  {
    forall i | 0 <= i < n ensures x[..n][..i] == x[..i] {}
  }

  lemma {:induction false} TriangularSolve(g: seq<bool> -> bool, y: seq<bool>)
    ensures Triangular(g, Solve(g, y)) == y
    decreases |y|
  {
    if y == [] {
    } else {
      var n := |y| - 1;
      var x, front := Solve(g, y), Solve(g, y[..n]);
      TriangularSolve(g, y[..n]);
      assert x[..n] == front;
      TriangularFront(g, x, n);
      assert Triangular(g, x)[n] == (x[n] != g(x[..n]));
      hide Triangular;
      assert y[..n] + [y[n]] == y;
      assert Triangular(g, x) == Triangular(g, x)[..n] + [Triangular(g, x)[n]];
    }
  }

  function Reverse(s: seq<bool>): (r: seq<bool>)
    ensures |r| == |s| && forall i :: 0 <= i < |r| ==> r[i] == s[|s| - 1 - i]
  {
    seq(|s|, i requires 0 <= i < |s| => s[|s| - 1 - i])
  }

  lemma ReverseTwice(s: seq<bool>)
    ensures Reverse(Reverse(s)) == s
  {
  }
}
