/** The DDR3 read path: the generated trit stream, and the report of a read run computed word by
    word and computed over whole arrays. */
module Ddr3Read {
  import opened Digits
  import opened Bits
  import opened TritCodec
  import opened Ddr3Pattern

  // ---- The nonlinear steps ----

  function Mix(b: seq<bool>): (y: seq<bool>)
    ensures |y| == |b|
  {
    Xor(b, And(Shl(b, 3), Shl(b, 7)))
  }

  function Post(y: seq<bool>): (z: seq<bool>)
    ensures |z| == |y|
  {
    Xor(y, And(Shr(y, 1), Shr(y, 2)))
  }

  /** Both bits, m and n places back. */
  function BackBoth(m: nat, n: nat): seq<bool> -> bool
    requires 0 < m <= n
  {
    (p: seq<bool>) => |p| >= n >= m > 0 && p[|p| - m] && p[|p| - n]
  }

  lemma BackBothAt(x: seq<bool>, m: nat, n: nat, i: nat)
    requires 0 < m <= n && i < |x|
    ensures BackBoth(m, n)(x[..i]) == (Bit(x, i - m) && Bit(x, i - n))
  {
  }

  lemma LeftBoth(x: seq<bool>, m: nat, n: nat)
    requires 0 < m <= n
    ensures Xor(x, And(Shl(x, m), Shl(x, n))) == Triangular(BackBoth(m, n), x)
  {
    hide BackBoth;
    var y := Xor(x, And(Shl(x, m), Shl(x, n)));
    forall i: nat | i < |x| ensures y[i] == Triangular(BackBoth(m, n), x)[i] {
      BackBothAt(x, m, n, i);
    }
  }

  lemma RightBoth(x: seq<bool>, m: nat, n: nat)
    ensures Xor(x, And(Shr(x, m), Shr(x, n))) == Reverse(Xor(Reverse(x), And(Shl(Reverse(x), m), Shl(Reverse(x), n))))
  {
    hide Reverse, Xor, And, Shl, Shr;
    ShiftReversed(x, m);
    ShiftReversed(x, n);
    var a, b := Shl(Reverse(x), m), Shl(Reverse(x), n);
    BitwiseReversed(a, b);
    BitwiseReversed(Reverse(x), And(a, b));
    ReverseTwice(x);
  }

  lemma ShiftReversed(x: seq<bool>, n: nat)
    ensures Shr(x, n) == Reverse(Shl(Reverse(x), n))
  {
  }

  lemma BitwiseReversed(a: seq<bool>, b: seq<bool>)
    requires |a| == |b|
    ensures Reverse(And(a, b)) == And(Reverse(a), Reverse(b)) && Reverse(Xor(a, b)) == Xor(Reverse(a), Reverse(b))
  {
  }

  function UnMix(y: seq<bool>): (b: seq<bool>)
    ensures |b| == |y|
  {
    Solve(BackBoth(3, 7), y)
  }

  function UnPost(z: seq<bool>): (y: seq<bool>)
    ensures |y| == |z|
  {
    Reverse(Solve(BackBoth(1, 2), Reverse(z)))
  }

  /** A word with one bit set. */
  function OneBit(k: nat): (x: seq<bool>)
    ensures |x| == 64 && forall i :: 0 <= i < 64 ==> x[i] == (i == k)
  {
    seq(64, i => i == k)
  }

  /** Neither step is linear over GF(2): two bits together set a third. */
  lemma StepsNotLinear()
    ensures Mix(Xor(OneBit(0), OneBit(4))) != Xor(Mix(OneBit(0)), Mix(OneBit(4)))
    ensures Post(Xor(OneBit(1), OneBit(2))) != Xor(Post(OneBit(1)), Post(OneBit(2)))
  {
    assert Mix(Xor(OneBit(0), OneBit(4)))[7] != Xor(Mix(OneBit(0)), Mix(OneBit(4)))[7];
    assert Post(Xor(OneBit(1), OneBit(2)))[0] != Xor(Post(OneBit(1)), Post(OneBit(2)))[0];
  }

  /** Mix is a bijection on words though it is not linear. */
  lemma MixBijective(x: seq<bool>)
    ensures UnMix(Mix(x)) == x && Mix(UnMix(x)) == x
  {
    hide Solve, Triangular, BackBoth;
    LeftBoth(x, 3, 7);
    SolveTriangular(BackBoth(3, 7), x);
    LeftBoth(UnMix(x), 3, 7);
    TriangularSolve(BackBoth(3, 7), x);
  }

  /** Post is a bijection on words though it is not linear. */
  lemma PostBijective(x: seq<bool>)
    ensures UnPost(Post(x)) == x && Post(UnPost(x)) == x
  {
    var g := BackBoth(1, 2);
    hide Solve, Triangular, BackBoth, Reverse;
    var r := Reverse(x);
    PostReversed(x);
    SolveTriangular(g, r);
    PostReversed(UnPost(x));
    TriangularSolve(g, r);
    ReverseTwice(x);
    ReverseTwice(Triangular(g, r));
    ReverseTwice(Solve(g, r));
  }

  lemma PostReversed(x: seq<bool>)
    ensures Post(x) == Reverse(Triangular(BackBoth(1, 2), Reverse(x)))
  {
    hide Triangular, BackBoth, Reverse;
    RightBoth(x, 1, 2);
    LeftBoth(Reverse(x), 1, 2);
  }

  /** The word a block index is mixed to. */
  function BlockWord(b: nat): (x: seq<bool>)
    ensures |x| == 64
  {
    Post(Lin(Mix(ToBits(Wrapped(b), 64))))
  }

  /** Distinct block indices, below 2^64, have distinct words. */
  lemma BlockWordsDistinct(b: nat, c: nat)
    ensures BlockWord(b) == BlockWord(c) <==> Wrapped(b) == Wrapped(c)
  {
    hide Post, Lin, Mix, ToBits, UnMix, UnPost, Pow;
    if BlockWord(b) == BlockWord(c) {
      var x, y := ToBits(Wrapped(b), 64), ToBits(Wrapped(c), 64);
      PostBijective(Lin(Mix(x)));
      PostBijective(Lin(Mix(y)));
      LinInjective(Mix(x), Mix(y));
      MixBijective(x);
      MixBijective(y);
      Pow2To32();
      ToBitsInjective(Wrapped(b), Wrapped(c), 64);
    }
  }

  // ---- Lane codes of a block ----

  /** The low 32 bits. */
  function Low32(x: seq<bool>): (y: seq<bool>)
    requires |x| == 64
    ensures |y| == 64
  {
    x[..32] + Zeroes(32)
  }

  /** 0x55555555: the low bit of each of 16 pairs. */
  function PairMask(): (m: seq<bool>)
    ensures |m| == 64 && forall i :: 0 <= i < 64 ==> m[i] == (i < 32 && i % 2 == 0)
  {
    seq(64, i => i < 32 && i % 2 == 0)
  }

  /** clean32: both bits of every pair 11 flipped to zero. */
  function Clean(x: seq<bool>): (y: seq<bool>)
    requires |x| == 64
    ensures |y| == 64
  {
    var both := And(And(x, Shr(x, 1)), PairMask());
    Xor(x, Or(both, Shl(both, 1)))
  }

  /** Two bits of a word as a lane code. */
  function CodeAt(x: seq<bool>, j: nat): (c: nat)
    ensures c < 4
  {
    BitDigit(Bit(x, 2 * j)) + 2 * BitDigit(Bit(x, 2 * j + 1))
  }

  /** Cleaning reads every lane 11 as 00 and leaves the others; nothing appears above. */
  lemma CleanLane(x: seq<bool>, j: nat)
    requires |x| == 64 && j < 32
    ensures CodeAt(Clean(x), j) == if j < 16 then Cleared(CodeAt(x, j)) else CodeAt(x, j)
  {
    var both := And(And(x, Shr(x, 1)), PairMask());
    assert both[2 * j] == (x[2 * j] && x[2 * j + 1] && j < 16);
    assert !both[2 * j + 1];
    assert Shl(both, 1)[2 * j + 1] == both[2 * j];
    assert j > 0 ==> !both[2 * j - 1];
    assert !Shl(both, 1)[2 * j];
  }

  /** block_raw as a word whose upper half is zero. */
  function BlockRaw(key: seq<bool>, b: nat): (x: seq<bool>)
    requires |key| == 64
    ensures |x| == 64
  {
    Clean(Low32(Xor(key, BlockWord(b))))
  }

  function BlockCode(key: seq<bool>, b: nat, j: nat): (c: nat)
    requires |key| == 64 && j < 16
    ensures c < 3
  {
    CleanLane(Low32(Xor(key, BlockWord(b))), j);
    CodeAt(BlockRaw(key, b), j)
  }

  /** The lane code of trit i. */
  function StreamCode(key: seq<bool>, i: nat): (c: nat)
    requires |key| == 64
    ensures c < 3
  {
    BlockCode(key, i / 16, i % 16)
  }

  /** The lane code at a place of a region of `trits` trits: zero past the end. */
  function RegionCode(key: seq<bool>, trits: nat, i: nat): (c: nat)
    requires |key| == 64
    ensures c < 3
  {
    if i < trits then StreamCode(key, i) else 0
  }

  function RegionCodes(key: seq<bool>, trits: nat, from: nat, count: nat): (cs: seq<nat>)
    requires |key| == 64
    ensures |cs| == count && forall i :: 0 <= i < count ==> cs[i] == RegionCode(key, trits, from + i)
  {
    seq<nat>(count, i requires 0 <= i < count => RegionCode(key, trits, from + i))
  }

  lemma RegionBelow(key: seq<bool>, trits: nat, from: nat, count: nat)
    requires |key| == 64
    ensures Below(3, RegionCodes(key, trits, from, count))
  {
    hide RegionCode;
  }
}
