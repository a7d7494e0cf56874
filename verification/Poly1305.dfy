/** The one-time authenticator of RFC 8439, section 2.5: the accumulator loop and the polynomial it
    evaluates. */
module Poly1305 {
  import opened Arithmetic
  import opened Digits
  import opened Bits

  const CLAMP := 0x0FFF_FFFC_0FFF_FFFC_0FFF_FFFC_0FFF_FFFF

  function Clamped(n: nat): nat {
    FromBits(And(ToBits(n, 128), ToBits(CLAMP, 128)))
  }

  /** A message block with a one byte after it, as a number. */
  function BlockNumber(block: seq<nat>): nat {
    Num(256, block + [1])
  }

  /** The blocks of a message, sixteen bytes each, the last shorter. */
  function Blocks(message: seq<nat>): seq<seq<nat>>
    decreases |message|
  {
    if message == [] then [] else
      var n := if |message| < 16 then |message| else 16;
      [message[..n]] + Blocks(message[n..])
  }

  /** The polynomial with the blocks' numbers as coefficients, the first of the highest power, and
      no constant term. */
  function Polynomial(blocks: seq<seq<nat>>, r: nat): nat {
    if blocks == [] then 0 else Mul(BlockNumber(blocks[0]), Pow(r, |blocks|)) + Polynomial(blocks[1..], r)
  }

  /** The remainder modulo 2^130 - 5. */
  function Residue(n: nat): (m: nat)
    ensures m < 0x3_FFFF_FFFF_FFFF_FFFF_FFFF_FFFF_FFFF_FFFB
  {
    n % 0x3_FFFF_FFFF_FFFF_FFFF_FFFF_FFFF_FFFF_FFFB
  }

  /** The accumulator: (acc + block) * r mod p, block after block. */
  method Accumulate(message: seq<nat>, r: nat) returns (acc: nat)
    ensures acc == Residue(Polynomial(Blocks(message), r))
  {
    hide Num, Pow, Mul, Residue, Polynomial, BlockNumber;
    acc := 0;
    var i := 0;
    NoBlocks(message, r);
    while i < |message|
      invariant i <= |message|
      invariant Residue(Carried(acc, Blocks(message[i..]), r)) == Residue(Polynomial(Blocks(message), r))
      invariant acc == Residue(acc)
    {
      var n := if |message| - i < 16 then |message| - i else 16;
      var block := message[i..i + n];
      assert message[i..][..n] == block && message[i..][n..] == message[i + n..];
      CarryBlock(acc, message[i..], block, message[i + n..], r);
      ResidueTwice(Mul(acc + BlockNumber(block), r));
      acc := Residue(Mul(acc + BlockNumber(block), r));
      i := i + n;
    }
    CarriedAll(acc, message[i..], r);
  }

  /** What an accumulator and the blocks after it come to. */
  function Carried(acc: nat, blocks: seq<seq<nat>>, r: nat): nat {
    Mul(acc, Pow(r, |blocks|)) + Polynomial(blocks, r)
  }

  lemma NoBlocks(message: seq<nat>, r: nat)
    ensures message[0..] == message
    ensures Carried(0, Blocks(message), r) == Polynomial(Blocks(message), r)
    ensures Residue(0) == 0
  {
    hide Polynomial, Pow;
  }

  lemma ResidueTwice(n: nat)
    ensures Residue(Residue(n)) == Residue(n)
  {
  }

  lemma CarriedAll(acc: nat, message: seq<nat>, r: nat)
    requires message == []
    ensures Carried(acc, Blocks(message), r) == acc
  {
  }

  /** Taking one block into the accumulator, reduced, leaves what is carried unchanged. */
  lemma CarryBlock(acc: nat, message: seq<nat>, block: seq<nat>, rest: seq<nat>, r: nat)
    requires message != [] && |block| == if |message| < 16 then |message| else 16
    requires block == message[..|block|] && rest == message[|block|..]
    ensures Residue(Carried(Residue(Mul(acc + BlockNumber(block), r)), Blocks(rest), r))
      == Residue(Carried(acc, Blocks(message), r))
  {
    hide Mul, Residue, BlockNumber, Pow, Polynomial, Blocks;
    var blocks := Blocks(rest);
    BlocksStep(message, block, rest);
    var c, k := BlockNumber(block), Pow(r, |blocks|);
    PolynomialStep(block, blocks, r);
    var tail := Polynomial(blocks, r);
    assert Carried(acc, [block] + blocks, r) == Mul(Mul(acc + c, r), k) + tail by {
      Horner(acc, c, r, k);
    }
    ReducedFactor(Mul(acc + c, r), k, tail);
  }

  lemma BlocksStep(message: seq<nat>, block: seq<nat>, rest: seq<nat>)
    requires message != [] && |block| == if |message| < 16 then |message| else 16
    requires block == message[..|block|] && rest == message[|block|..]
    ensures Blocks(message) == [block] + Blocks(rest)
  {
  }

  lemma PolynomialStep(block: seq<nat>, blocks: seq<seq<nat>>, r: nat)
    ensures Polynomial([block] + blocks, r) == Mul(BlockNumber(block), Pow(r, |blocks| + 1)) + Polynomial(blocks, r)
    ensures Pow(r, |blocks| + 1) == Mul(r, Pow(r, |blocks|)) && |[block] + blocks| == |blocks| + 1
  {
    hide BlockNumber;
    assert ([block] + blocks)[1..] == blocks;
  }

  /** (acc + c) r k = acc (r k) + c (r k). */
  lemma Horner(acc: nat, c: nat, r: nat, k: nat)
    ensures Mul(Mul(acc + c, r), k) == Mul(acc, Mul(r, k)) + Mul(c, Mul(r, k))
  {
    Associate(acc + c, r, k);
    var m := Mul(r, k);
    assert (acc + c) * m == acc * m + c * m;
  }

  /** A factor may be reduced before it is multiplied. */
  lemma ReducedFactor(a: nat, k: nat, b: nat)
    ensures Residue(Mul(Residue(a), k) + b) == Residue(Mul(a, k) + b)
  {
    var q := a / 0x3_FFFF_FFFF_FFFF_FFFF_FFFF_FFFF_FFFF_FFFB;
    var m := Residue(a);
    assert a == m + 0x3_FFFF_FFFF_FFFF_FFFF_FFFF_FFFF_FFFF_FFFB * q;
    hide Residue;
    assert a * k == m * k + 0x3_FFFF_FFFF_FFFF_FFFF_FFFF_FFFF_FFFF_FFFB * (q * k);
    ShiftResidue(Mul(m, k) + b, q * k);
  }

  lemma ShiftResidue(n: nat, q: nat)
    ensures Residue(n + 0x3_FFFF_FFFF_FFFF_FFFF_FFFF_FFFF_FFFF_FFFB * q) == Residue(n)
  {
  }

  // ---- The tag ----

  function TagOf(key: seq<nat>, message: seq<nat>): (tag: seq<nat>)
    requires |key| == 32
    ensures |tag| == 16
  {
    var r := Clamped(Num(256, key[..16]));
    DigitsOf(
      256,
      (Residue(Polynomial(Blocks(message), r)) + Num(256, key[16..])) % 0x1_0000_0000_0000_0000_0000_0000_0000_0000,
      16)
  }

  method Tag(key: seq<nat>, message: seq<nat>) returns (tag: seq<nat>)
    requires |key| == 32
    ensures tag == TagOf(key, message)
  {
    hide Num, Clamped, Residue, Polynomial;
    var r := Clamped(Num(256, key[..16]));
    var s := Num(256, key[16..]);
    var acc := Accumulate(message, r);
    tag := DigitsOf(256, (acc + s) % 0x1_0000_0000_0000_0000_0000_0000_0000_0000, 16);
  }

  // ---- Distinct messages have distinct polynomials ----

  /** The byte after a block marks its length: two blocks with one number are one block. */
  lemma {:induction false} BlockNumberInjective(x: seq<nat>, y: seq<nat>)
    requires Below(256, x) && Below(256, y) && BlockNumber(x) == BlockNumber(y)
    ensures x == y
    decreases |x|
  {
    Marked(x);
    Marked(y);
    if x != [] && y != [] {
      assert (x + [1])[1..] == x[1..] + [1] && (y + [1])[1..] == y[1..] + [1];
      DivMod(256, Num(256, x[1..] + [1]), x[0]);
      DivMod(256, Num(256, y[1..] + [1]), y[0]);
      BlockNumberInjective(x[1..], y[1..]);
      assert [x[0]] + x[1..] == x && [y[0]] + y[1..] == y;
    }
  }

  lemma {:induction false} Marked(x: seq<nat>)
    ensures x == [] ==> BlockNumber(x) == 1
    ensures x != [] ==> BlockNumber(x) >= 256
    decreases |x|
  {
    if x == [] {
      assert x + [1] == [1];
      assert Num(256, [1]) == 1;
    } else {
      assert (x + [1])[1..] == x[1..] + [1];
      Marked(x[1..]);
      MulOrder(256, 1, Num(256, x[1..] + [1]));
    }
  }

  ghost predicate SameNumbers(a: seq<seq<nat>>, b: seq<seq<nat>>) {
    |a| == |b| && forall i :: 0 <= i < |a| ==> BlockNumber(a[i]) == BlockNumber(b[i])
  }

  /** Two messages with the same coefficients are the same message, whatever their lengths. */
  lemma {:induction false} CoefficientsDetermine(m: seq<nat>, n: seq<nat>)
    requires Below(256, m) && Below(256, n) && SameNumbers(Blocks(m), Blocks(n))
    ensures m == n
    decreases |m|
  {
    hide BlockNumber;
    if m != [] && n != [] {
      var i := if |m| < 16 then |m| else 16;
      var j := if |n| < 16 then |n| else 16;
      BlocksStep(m, m[..i], m[i..]);
      BlocksStep(n, n[..j], n[j..]);
      assert Blocks(m)[0] == m[..i] && Blocks(n)[0] == n[..j];
      assert Blocks(m)[1..] == Blocks(m[i..]) && Blocks(n)[1..] == Blocks(n[j..]);
      BlockNumberInjective(m[..i], n[..j]);
      TailNumbers(Blocks(m), Blocks(n));
      CoefficientsDetermine(m[i..], n[j..]);
      assert m == m[..i] + m[i..] && n == n[..j] + n[j..];
    }
  }

  lemma TailNumbers(a: seq<seq<nat>>, b: seq<seq<nat>>)
    requires a != [] && SameNumbers(a, b)
    ensures SameNumbers(a[1..], b[1..])
  {
    hide BlockNumber;
    forall i | 0 <= i < |a| - 1 ensures BlockNumber(a[1..][i]) == BlockNumber(b[1..][i]) {
      assert a[1..][i] == a[i + 1] && b[1..][i] == b[i + 1];
    }
  }

  // ---- The key, the blocks and the modulus ----

  /** The bits RFC 8439 clears: the top four of bytes 3, 7, 11 and 15 and the low two of bytes 4, 8
      and 12. */
  predicate Cleared(i: nat) {
    i % 32 >= 28 || (i >= 32 && i % 32 < 2)
  }

  lemma {:induction false} OnesBits(k: nat, i: nat)
    ensures Pow(2, k) > 0 && (BitOf(Pow(2, k) - 1, i) <==> i < k)
    decreases k
  {
    if k == 0 {
      ZeroBits(i);
    } else {
      OnesBits(k - 1, if i > 0 then i - 1 else 0);
      var n := Pow(2, k) - 1;
      assert n / 2 == Pow(2, k - 1) - 1 && n % 2 == 1;
    }
  }

  lemma {:induction false} ZeroBits(i: nat)
    ensures !BitOf(0, i)
  {
    if i == 0 {
    } else {
      ZeroBits(i - 1);
    }
  }

  /** The bits of a word with another above it. */
  lemma {:induction false} JoinedBits(k: nat, low: nat, high: nat, i: nat)
    requires low < Pow(2, k)
    ensures BitOf(low + Mul(Pow(2, k), high), i) == if i < k then BitOf(low, i) else BitOf(high, i - k)
    decreases k
  {
    if k == 0 {
      assert Pow(2, 0) == 1;
    } else {
      Associate(2, Pow(2, k - 1), high);
      var n := low + Mul(Pow(2, k), high);
      var rest := Mul(Pow(2, k - 1), high);
      assert n == low + 2 * rest;
      assert n % 2 == low % 2 && n / 2 == low / 2 + rest;
      hide Mul, Pow;
      if i > 0 {
        assert low / 2 < Pow(2, k - 1) by { HalfPow(k); }
        JoinedBits(k - 1, low / 2, high, i - 1);
      }
    }
  }

  lemma HalfPow(k: nat)
    requires k > 0
    ensures Pow(2, k) == 2 * Pow(2, k - 1)
  {
  }

  lemma MaskWord(i: nat)
    requires i < 32
    ensures BitOf(0x0FFF_FFFC, i) <==> 2 <= i < 28
    ensures BitOf(0x0FFF_FFFF, i) <==> i < 28
  {
    assert Pow(2, 2) == 4 && Pow(2, 13) == 0x2000;
    PowAdd(2, 13, 13);
    PowAdd(2, 26, 2);
    hide Pow, BitOf;
    JoinedBits(2, 0, 0x3FF_FFFF, i);
    assert 0x0FFF_FFFC == 0 + Mul(4, 0x3FF_FFFF);
    ZeroBits(i);
    OnesBits(28, i);
    if i >= 2 {
      OnesBits(26, i - 2);
    }
  }

  lemma WordAbove(low: nat, high: nat, i: nat)
    requires low < 0x1_0000_0000
    ensures BitOf(low + 0x1_0000_0000 * high, i) == if i < 32 then BitOf(low, i) else BitOf(high, i - 32)
  {
    Pow2To32();
    hide Pow, BitOf;
    JoinedBits(32, low, high, i);
  }

  /** The mask is one word of 28 ones and three of 26 ones above two zeros. */
  lemma MaskBits(i: nat)
    requires i < 128
    ensures BitOf(CLAMP, i) <==> !Cleared(i)
  {
    hide BitOf;
    MaskWord(i % 32);
    WordAbove(0x0FFF_FFFF, 0x0FFF_FFFC_0FFF_FFFC_0FFF_FFFC, i);
    if i >= 32 {
      WordAbove(0x0FFF_FFFC, 0x0FFF_FFFC_0FFF_FFFC, i - 32);
    }
    if i >= 64 {
      WordAbove(0x0FFF_FFFC, 0x0FFF_FFFC, i - 64);
    }
    WhichWord(i);
  }

  lemma WhichWord(i: nat)
    requires i < 128
    ensures i % 32 == if i < 32 then i else if i < 64 then i - 32 else if i < 96 then i - 64 else i - 96
  {
  }

  /** Clamping clears exactly those bits of the key's first half. */
  lemma ClampedBits(n: nat, i: nat)
    requires i < 128
    ensures BitOf(Clamped(n), i) <==> BitOf(n, i) && !Cleared(i)
  {
    var s := And(ToBits(n, 128), ToBits(CLAMP, 128));
    MaskBits(i);
    hide BitOf, FromBits, Pow;
    ToFromBits(s);
    assert ToBits(FromBits(s), 128)[i] == s[i];
  }

  /** A block's number: its bytes, little-endian, and a one above them. */
  lemma BlockNumberIs(block: seq<nat>)
    ensures BlockNumber(block) == Num(256, block) + Pow(256, |block|)
  {
    hide Num, Pow;
    NumAppend(256, block, 1);
    assert Mul(1, Pow(256, |block|)) == Pow(256, |block|);
  }

  /** The residue is that modulo 2^130 - 5. */
  lemma ResidueIs(n: nat)
    ensures Pow(2, 130) > 5 && Residue(n) == n % (Pow(2, 130) - 5)
  {
    assert Pow(2, 2) == 4;
    Pow2To32();
    PowAdd(2, 64, 64);
    PowAdd(2, 128, 2);
    hide Pow;
  }
}
