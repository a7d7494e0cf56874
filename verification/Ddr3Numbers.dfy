/** The mixers, keys and data of the DDR3 tests as the integer expressions the code computes: every
    bit-list word is the number of its 64-bit expression. */
module Ddr3Numbers {
  import opened Arithmetic
  import opened Digits
  import opened Bitwise
  import opened Bits
  import opened WordNumbers
  import opened Ddr3Pattern
  import opened Ddr3Read

  // ---- The expressions on integers ----

  /** x << n within 64 bits. */
  function Left(x: nat, n: nat): nat {
    Mul(x, Pow(2, n)) % 0x1_0000_0000_0000_0000
  }

  /** x >> n. */
  function Right(x: nat, n: nat): nat {
    x / Pow(2, n)
  }

  /** lin: nine xorshift steps. */
  function LinOf(x: nat): nat {
    var a := BitXor(x, Left(x, 13));
    var b := BitXor(a, Right(a, 7));
    var c := BitXor(b, Left(b, 17));
    var d := BitXor(c, Left(c, 21));
    var e := BitXor(d, Right(d, 35));
    var f := BitXor(e, Left(e, 4));
    var g := BitXor(f, Left(f, 9));
    var h := BitXor(g, Right(g, 29));
    BitXor(h, Left(h, 25))
  }

  /** lin, add 6364136223846793005, lin. */
  function ScrambleOf(x: nat): nat {
    LinOf((LinOf(x) + 6364136223846793005) % 0x1_0000_0000_0000_0000)
  }

  function MixOf(b: nat): nat {
    BitXor(b, BitAnd(Left(b, 3), Left(b, 7)))
  }

  function PostOf(y: nat): nat {
    BitXor(y, BitAnd(Right(y, 1), Right(y, 2)))
  }

  // ---- The steps ----

  lemma StepLeftNumber(x: seq<bool>, n: nat)
    requires |x| == 64 && n <= 64
    ensures FromBits(StepLeft(x, n)) == BitXor(FromBits(x), Left(FromBits(x), n))
  {
    hide FromBits, BitXor, Xor, Shl;
    Pow2To32();
    hide Pow;
    ShlNumber(x, n);
    XorNumber(x, Shl(x, n));
  }

  lemma StepRightNumber(x: seq<bool>, n: nat)
    requires |x| == 64 && n <= 64
    ensures FromBits(StepRight(x, n)) == BitXor(FromBits(x), Right(FromBits(x), n))
  {
    hide FromBits, BitXor, Xor, Shr, Pow;
    ShrNumber(x, n);
    XorNumber(x, Shr(x, n));
  }

  lemma TripleNumber(x: seq<bool>, t: (nat, nat, nat))
    requires |x| == 64 && t.0 <= 64 && t.1 <= 64 && t.2 <= 64
    ensures var a := BitXor(FromBits(x), Left(FromBits(x), t.0));
      var b := BitXor(a, Right(a, t.1));
      FromBits(Triple(x, t)) == BitXor(b, Left(b, t.2))
  {
    hide FromBits, BitXor, StepLeft, StepRight, Left, Right;
    StepLeftNumber(x, t.0);
    StepRightNumber(StepLeft(x, t.0), t.1);
    StepLeftNumber(StepRight(StepLeft(x, t.0), t.1), t.2);
  }

  /** The mixer is the nine steps x ^= x << 13, x ^= x >> 7 and so on, on 64-bit integers. */
  lemma LinNumber(x: seq<bool>)
    requires |x| == 64
    ensures FromBits(Lin(x)) == LinOf(FromBits(x))
  {
    hide FromBits, BitXor, Left, Right, Triple;
    var a := Triple(x, (13, 7, 17));
    var b := Triple(a, (21, 35, 4));
    TripleNumber(x, (13, 7, 17));
    TripleNumber(a, (21, 35, 4));
    TripleNumber(b, (9, 29, 25));
    LinIsTriples(x);
  }

  lemma LinIsTriples(x: seq<bool>)
    ensures Lin(x) == Triple(Triple(Triple(x, (13, 7, 17)), (21, 35, 4)), (9, 29, 25))
  {
    hide Triple;
    assert TRIPLES[1..] == [(21, 35, 4), (9, 29, 25)] && TRIPLES[1..][1..] == [(9, 29, 25)];
    assert TRIPLES[1..][1..][1..] == [];
  }

  lemma MixNumber(x: seq<bool>)
    requires |x| == 64
    ensures FromBits(Mix(x)) == MixOf(FromBits(x))
  {
    hide FromBits, BitXor, BitAnd, Xor, And, Shl;
    Pow2To32();
    hide Pow;
    ShlNumber(x, 3);
    ShlNumber(x, 7);
    AndNumber(Shl(x, 3), Shl(x, 7));
    XorNumber(x, And(Shl(x, 3), Shl(x, 7)));
  }

  lemma PostNumber(x: seq<bool>)
    requires |x| == 64
    ensures FromBits(Post(x)) == PostOf(FromBits(x))
  {
    hide FromBits, BitXor, BitAnd, Xor, And, Shr, Pow;
    ShrNumber(x, 1);
    ShrNumber(x, 2);
    AndNumber(Shr(x, 1), Shr(x, 2));
    XorNumber(x, And(Shr(x, 1), Shr(x, 2)));
  }

  // ---- Keys and data ----

  lemma WrappedNumber(n: nat)
    ensures FromBits(ToBits(Wrapped(n), 64)) == n % 0x1_0000_0000_0000_0000
  {
    hide FromBits, ToBits;
    Pow2To32();
    hide Pow;
    FromToBits(Wrapped(n), 64);
  }

  lemma ScrambleNumber(x: seq<bool>)
    requires |x| == 64
    ensures FromBits(Scramble(x)) == ScrambleOf(FromBits(x))
  {
    hide FromBits, ToBits, Lin, LinOf, Wrapped;
    LinNumber(x);
    WrappedNumber(FromBits(Lin(x)) + KADD);
    LinNumber(AddMod(Lin(x), KADD));
  }

  /** round_key: base plus the round in both halves, modulo 2^64, scrambled. */
  lemma RoundKeyNumber(base: nat, round: nat)
    ensures var r := round % 0x1_0000_0000;
      FromBits(RoundKey(base, round)) == ScrambleOf((base + (r * 0x1_0000_0000 + r)) % 0x1_0000_0000_0000_0000)
  {
    hide FromBits, ToBits, Scramble, ScrambleOf, Wrapped;
    WrappedNumber(base + Repeated(round));
    ScrambleNumber(ToBits(Wrapped(base + Repeated(round)), 64));
  }

  /** (high << 32) | low. */
  lemma CellNumber(low: nat, high: nat)
    ensures FromBits(Cell(low, high)) == high % 0x1_0000_0000 * 0x1_0000_0000 + low % 0x1_0000_0000
  {
    hide FromBits, ToBits;
    Pow2To32();
    hide Pow;
    FromToBits(low % 0x1_0000_0000, 32);
    FromToBits(high % 0x1_0000_0000, 32);
    ConcatNumber(ToBits(low % 0x1_0000_0000, 32), ToBits(high % 0x1_0000_0000, 32));
  }

  /** pair_key: the seed above the pair number, scrambled. */
  lemma PairKeyNumber(seed: nat, pair: nat)
    ensures FromBits(PairKey(seed, pair))
      == ScrambleOf(seed % 0x1_0000_0000 * 0x1_0000_0000 + pair % 0x1_0000_0000)
  {
    hide FromBits, Cell, Scramble, ScrambleOf;
    CellNumber(pair, seed);
    ScrambleNumber(Cell(pair, seed));
  }

  /** word: the key, or its complement, xored with the mixed word number above the address. */
  lemma DataNumber(key: seq<bool>, addr: nat, w: nat, complement: bool)
    requires |key| == 64
    ensures var k := if complement then 0xFFFF_FFFF_FFFF_FFFF - FromBits(key) else FromBits(key);
      && k >= 0
      && FromBits(Data(key, addr, w, complement))
         == BitXor(k, LinOf(w % 0x1_0000_0000 * 0x1_0000_0000 + addr % 0x1_0000_0000))
  {
    hide FromBits, Cell, Lin, LinOf, BitXor, Xor, Not;
    Pow2To32();
    hide Pow;
    NotNumber(key);
    CellNumber(addr, w);
    LinNumber(Cell(addr, w));
    XorNumber(if complement then Not(key) else key, Lin(Cell(addr, w)));
  }

  // ---- The generated blocks ----

  /** Every other bit of the low 2k. */
  function Fives(k: nat): nat {
    if k == 0 then 0 else 4 * Fives(k - 1) + 1
  }

  lemma {:induction false} FivesNumber(s: seq<bool>, k: nat)
    requires |s| >= 2 * k && forall i :: 0 <= i < |s| ==> s[i] == (i < 2 * k && i % 2 == 0)
    ensures FromBits(s) == Fives(k)
    decreases k
  {
    hide FromBits;
    if k == 0 {
      assert s == Zeroes(|s|);
      ZeroesNumber(|s|);
    } else {
      FirstBit(s);
      FirstBit(s[1..]);
      assert s[1..][1..] == s[2..];
      forall i | 0 <= i < |s[2..]| ensures s[2..][i] == (i < 2 * (k - 1) && i % 2 == 0) {
        assert s[2..][i] == s[i + 2] && (i + 2) % 2 == i % 2;
      }
      FivesNumber(s[2..], k - 1);
    }
  }

  lemma PairMaskNumber()
    ensures FromBits(PairMask()) == 0x5555_5555
  {
    hide FromBits;
    FivesNumber(PairMask(), 16);
    assert Fives(4) == 0x55;
    assert Fives(8) == 0x5555;
    assert Fives(12) == 0x55_5555;
  }

  /** clean32 on integers. */
  function CleanOf(x: nat): nat {
    var both := BitAnd(BitAnd(x, Right(x, 1)), 0x5555_5555);
    BitXor(x, BitOr(both, Left(both, 1)))
  }

  lemma CleanNumber(x: seq<bool>)
    requires |x| == 64
    ensures FromBits(Clean(x)) == CleanOf(FromBits(x))
  {
    hide FromBits, BitXor, BitAnd, BitOr, Xor, And, Or, Shr, Shl, PairMask;
    Pow2To32();
    hide Pow;
    var both := And(And(x, Shr(x, 1)), PairMask());
    ShrNumber(x, 1);
    AndNumber(x, Shr(x, 1));
    PairMaskNumber();
    AndNumber(And(x, Shr(x, 1)), PairMask());
    ShlNumber(both, 1);
    OrNumber(both, Shl(both, 1));
    XorNumber(x, Or(both, Shl(both, 1)));
  }

  lemma Low32Number(x: seq<bool>)
    requires |x| == 64
    ensures FromBits(Low32(x)) == FromBits(x) % 0x1_0000_0000
  {
    hide FromBits;
    Pow2To32();
    hide Pow;
    PartsNumber(x, 32);
    ConcatNumber(x[..32], Zeroes(32));
    ZeroesNumber(32);
    MulZero(Pow(2, 32));
  }

  /** block_raw: the low half of the key xored with the mixed block index, cleaned. */
  lemma BlockRawNumber(key: seq<bool>, b: nat)
    requires |key| == 64
    ensures FromBits(BlockRaw(key, b))
      == CleanOf(BitXor(FromBits(key), PostOf(LinOf(MixOf(b % 0x1_0000_0000_0000_0000)))) % 0x1_0000_0000)
  {
    hide FromBits, ToBits, Mix, Post, Lin, MixOf, PostOf, LinOf, CleanOf, Clean, Low32, BitXor, Xor, Wrapped;
    var index := ToBits(Wrapped(b), 64);
    WrappedNumber(b);
    MixNumber(index);
    LinNumber(Mix(index));
    PostNumber(Lin(Mix(index)));
    XorNumber(key, BlockWord(b));
    Low32Number(Xor(key, BlockWord(b)));
    CleanNumber(Low32(Xor(key, BlockWord(b))));
  }
}
