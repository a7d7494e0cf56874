/** The data of the DDR3 pattern test: nine xorshift steps of an (address, word) pair, xored with a
    key or its complement, and the keys of the rounds. */
module Ddr3Pattern {
  import opened Digits
  import opened Bits

  // ---- The steps ----

  function StepLeft(x: seq<bool>, n: nat): (y: seq<bool>)
    ensures |y| == |x|
  {
    Xor(x, Shl(x, n))
  }

  function StepRight(x: seq<bool>, n: nat): (y: seq<bool>)
    ensures |y| == |x|
  {
    Xor(x, Shr(x, n))
  }

  /** The shifts, three triples of left, right, left. */
  const TRIPLES: seq<(nat, nat, nat)> := [(13, 7, 17), (21, 35, 4), (9, 29, 25)]

  function Triple(x: seq<bool>, t: (nat, nat, nat)): (y: seq<bool>)
    ensures |y| == |x|
  {
    StepLeft(StepRight(StepLeft(x, t.0), t.1), t.2)
  }

  function Mixed(x: seq<bool>, triples: seq<(nat, nat, nat)>): (y: seq<bool>)
    ensures |y| == |x|
    decreases |triples|
  {
    if triples == [] then x else Mixed(Triple(x, triples[0]), triples[1..])
  }

  function Lin(x: seq<bool>): (y: seq<bool>)
    ensures |y| == |x|
  {
    Mixed(x, TRIPLES)
  }

  /** The loop over the triples. */
  method LinLoop(start: seq<bool>) returns (x: seq<bool>)
    ensures x == Lin(start)
  {
    hide StepLeft, StepRight;
    x := start;
    for k := 0 to 3
      invariant |x| == |start|
      invariant Mixed(x, TRIPLES[k..]) == Mixed(start, TRIPLES)
    {
      assert TRIPLES[k..][1..] == TRIPLES[k + 1..];
      x := StepLeft(x, TRIPLES[k].0);
      x := StepRight(x, TRIPLES[k].1);
      x := StepLeft(x, TRIPLES[k].2);
    }
    assert TRIPLES[3..] == [];
  }

  // ---- Linear over GF(2) ----

  lemma StepsLinear(x: seq<bool>, y: seq<bool>, n: nat)
    requires |x| == |y|
    ensures StepLeft(Xor(x, y), n) == Xor(StepLeft(x, n), StepLeft(y, n))
    ensures StepRight(Xor(x, y), n) == Xor(StepRight(x, n), StepRight(y, n))
  {
  }

  lemma {:induction false} MixedLinear(x: seq<bool>, y: seq<bool>, triples: seq<(nat, nat, nat)>)
    requires |x| == |y|
    ensures Mixed(Xor(x, y), triples) == Xor(Mixed(x, triples), Mixed(y, triples))
    decreases |triples|
  {
    hide StepLeft, StepRight, Xor;
    if triples == [] {
    } else {
      var t := triples[0];
      StepsLinear(x, y, t.0);
      StepsLinear(StepLeft(x, t.0), StepLeft(y, t.0), t.1);
      StepsLinear(StepRight(StepLeft(x, t.0), t.1), StepRight(StepLeft(y, t.0), t.1), t.2);
      MixedLinear(Triple(x, t), Triple(y, t), triples[1..]);
    }
  }

  /** Lin is linear over GF(2). */
  lemma LinLinear(x: seq<bool>, y: seq<bool>)
    requires |x| == |y|
    ensures Lin(Xor(x, y)) == Xor(Lin(x), Lin(y))
  {
    MixedLinear(x, y, TRIPLES);
  }

  // ---- Bijective ----

  /** The bit n places back. */
  function Back(n: nat): seq<bool> -> bool {
    (p: seq<bool>) => |p| >= n > 0 && p[|p| - n]
  }

  lemma StepIsTriangular(x: seq<bool>, n: nat)
    requires n > 0
    ensures StepLeft(x, n) == Triangular(Back(n), x)
    ensures StepRight(x, n) == Reverse(Triangular(Back(n), Reverse(x)))
  {
    hide BitOf;
    LeftTriangular(x, n);
    LeftTriangular(Reverse(x), n);
    RightReversed(x, n);
  }

  lemma LeftTriangular(x: seq<bool>, n: nat)
    requires n > 0
    ensures StepLeft(x, n) == Triangular(Back(n), x)
  {
    hide Back;
    forall i: nat | i < |x| ensures StepLeft(x, n)[i] == Triangular(Back(n), x)[i] {
      BackAt(x, n, i);
    }
  }

  lemma BackAt(x: seq<bool>, n: nat, i: nat)
    requires n > 0 && i < |x|
    ensures Back(n)(x[..i]) == Bit(x, i - n)
  {
  }

  lemma RightReversed(x: seq<bool>, n: nat)
    ensures StepRight(x, n) == Reverse(StepLeft(Reverse(x), n))
  {
  }

  function UnLeft(y: seq<bool>, n: nat): (x: seq<bool>)
    ensures |x| == |y|
  {
    Solve(Back(n), y)
  }

  function UnRight(y: seq<bool>, n: nat): (x: seq<bool>)
    ensures |x| == |y|
  {
    Reverse(Solve(Back(n), Reverse(y)))
  }

  lemma StepsInvert(x: seq<bool>, n: nat)
    requires n > 0
    ensures UnLeft(StepLeft(x, n), n) == x && StepLeft(UnLeft(x, n), n) == x
    ensures UnRight(StepRight(x, n), n) == x && StepRight(UnRight(x, n), n) == x
  {
    hide StepLeft, StepRight, Triangular, Solve, Back, Reverse;
    var g := Back(n);
    StepIsTriangular(x, n);
    SolveTriangular(g, x);
    SolveTriangular(g, Reverse(x));
    StepIsTriangular(UnLeft(x, n), n);
    TriangularSolve(g, x);
    StepIsTriangular(UnRight(x, n), n);
    TriangularSolve(g, Reverse(x));
    ReverseTwice(x);
    ReverseTwice(Triangular(g, Reverse(x)));
    ReverseTwice(Solve(g, Reverse(x)));
  }

  function UnTriple(y: seq<bool>, t: (nat, nat, nat)): (x: seq<bool>)
    ensures |x| == |y|
  {
    UnLeft(UnRight(UnLeft(y, t.2), t.1), t.0)
  }

  function UnMixed(y: seq<bool>, triples: seq<(nat, nat, nat)>): (x: seq<bool>)
    ensures |x| == |y|
    decreases |triples|
  {
    if triples == [] then y else UnTriple(UnMixed(y, triples[1..]), triples[0])
  }

  function UnLin(y: seq<bool>): (x: seq<bool>)
    ensures |x| == |y|
  {
    UnMixed(y, TRIPLES)
  }

  ghost predicate Shifts(triples: seq<(nat, nat, nat)>) {
    forall k :: 0 <= k < |triples| ==> triples[k].0 > 0 && triples[k].1 > 0 && triples[k].2 > 0
  }

  lemma TripleInverts(x: seq<bool>, t: (nat, nat, nat))
    requires t.0 > 0 && t.1 > 0 && t.2 > 0
    ensures UnTriple(Triple(x, t), t) == x && Triple(UnTriple(x, t), t) == x
  {
    hide StepLeft, StepRight, UnLeft, UnRight;
    StepsInvert(x, t.0);
    StepsInvert(StepLeft(x, t.0), t.1);
    StepsInvert(StepRight(StepLeft(x, t.0), t.1), t.2);
    StepsInvert(x, t.2);
    StepsInvert(UnLeft(x, t.2), t.1);
    StepsInvert(UnRight(UnLeft(x, t.2), t.1), t.0);
  }

  lemma {:induction false} MixedInverts(x: seq<bool>, triples: seq<(nat, nat, nat)>)
    requires Shifts(triples)
    ensures UnMixed(Mixed(x, triples), triples) == x && Mixed(UnMixed(x, triples), triples) == x
    decreases |triples|
  {
    hide Triple, UnTriple;
    if triples == [] {
    } else {
      assert Shifts(triples[1..]);
      MixedInverts(Triple(x, triples[0]), triples[1..]);
      TripleInverts(x, triples[0]);
      MixedInverts(x, triples[1..]);
      TripleInverts(UnMixed(x, triples[1..]), triples[0]);
    }
  }

  /** Lin is a bijection on words: UnLin undoes it from both sides. */
  lemma LinBijective(x: seq<bool>)
    ensures UnLin(Lin(x)) == x && Lin(UnLin(x)) == x
  {
    MixedInverts(x, TRIPLES);
  }

  lemma LinInjective(x: seq<bool>, y: seq<bool>)
    requires Lin(x) == Lin(y)
    ensures x == y
  {
    hide Lin, UnLin;
    LinBijective(x);
    LinBijective(y);
  }

  // ---- The data ----

  const M32 := 0x1_0000_0000
  const M64 := 0x1_0000_0000_0000_0000
  const KADD: nat := 6364136223846793005

  /** (w << 32) | a, each kept to 32 bits. */
  function Cell(addr: nat, w: nat): (x: seq<bool>)
    ensures |x| == 64
  {
    ToBits(addr % M32, 32) + ToBits(w % M32, 32)
  }

  /** The data of word w of the burst at an address. */
  function Data(key: seq<bool>, addr: nat, w: nat, complement: bool): (d: seq<bool>)
    requires |key| == 64
    ensures |d| == 64
  {
    Xor(if complement then Not(key) else key, Lin(Cell(addr, w)))
  }

  lemma CellInjective(a: nat, w: nat, b: nat, v: nat)
    requires Cell(a, w) == Cell(b, v)
    ensures a % M32 == b % M32 && w % M32 == v % M32
  {
    hide ToBits, Pow;
    Pow2To32();
    assert Cell(a, w)[..32] == ToBits(a % M32, 32) && Cell(b, v)[..32] == ToBits(b % M32, 32);
    assert Cell(a, w)[32..] == ToBits(w % M32, 32) && Cell(b, v)[32..] == ToBits(v % M32, 32);
    ToBitsInjective(a % M32, b % M32, 32);
    ToBitsInjective(w % M32, v % M32, 32);
  }

  /** Under one key two different (address, word) pairs never hold the same data, in either
      pass. */
  lemma DataDistinct(key: seq<bool>, a: nat, w: nat, b: nat, v: nat, complement: bool)
    requires |key| == 64
    ensures Data(key, a, w, complement) == Data(key, b, v, complement)
      <==> a % M32 == b % M32 && w % M32 == v % M32
  {
    hide Lin, Cell;
    var k := if complement then Not(key) else key;
    var x, y := Lin(Cell(a, w)), Lin(Cell(b, v));
    if Xor(k, x) == Xor(k, y) {
      XorCancels(k, x, y);
      LinInjective(Cell(a, w), Cell(b, v));
      CellInjective(a, w, b, v);
    } else if a % M32 == b % M32 && w % M32 == v % M32 {
      SameCell(a, w, b, v);
    }
  }

  lemma SameCell(a: nat, w: nat, b: nat, v: nat)
    requires a % M32 == b % M32 && w % M32 == v % M32
    ensures Cell(a, w) == Cell(b, v)
  {
  }

  lemma XorCancels(k: seq<bool>, x: seq<bool>, y: seq<bool>)
    requires |k| == |x| == |y| && Xor(k, x) == Xor(k, y)
    ensures x == y
  {
    forall i | 0 <= i < |x| ensures x[i] == y[i] {
      assert Xor(k, x)[i] == Xor(k, y)[i];
    }
  }

  /** A whole burst, word 0 lowest. */
  function Burst(key: seq<bool>, addr: nat, lanes: nat, complement: bool): (d: seq<bool>)
    requires |key| == 64
    ensures |d| == 64 * lanes
  {
    if lanes == 0 then [] else Burst(key, addr, lanes - 1, complement) + Data(key, addr, lanes - 1, complement)
  }

  lemma {:induction false} BurstWord(key: seq<bool>, addr: nat, lanes: nat, complement: bool, w: nat)
    requires |key| == 64 && w < lanes
    ensures Burst(key, addr, lanes, complement)[64 * w..64 * w + 64] == Data(key, addr, w, complement)
  {
    hide Data;
    if w == lanes - 1 {
    } else {
      BurstWord(key, addr, lanes - 1, complement, w);
    }
  }

  /** The complement pass stores the opposite of every bit: over the two passes each stored bit
      is written as 0 and as 1. */
  lemma {:induction false} ComplementFlips(key: seq<bool>, addr: nat, lanes: nat)
    requires |key| == 64
    ensures Burst(key, addr, lanes, true) == Not(Burst(key, addr, lanes, false))
  {
    hide Data, Not;
    if lanes == 0 {
      NotEmpty();
    } else {
      ComplementFlips(key, addr, lanes - 1);
      DataFlips(key, addr, lanes - 1);
      NotConcat(Burst(key, addr, lanes - 1, false), Data(key, addr, lanes - 1, false));
    }
  }

  lemma NotEmpty()
    ensures Not([]) == []
  {
  }

  lemma NotConcat(a: seq<bool>, b: seq<bool>)
    ensures Not(a + b) == Not(a) + Not(b)
  {
    forall i | 0 <= i < |a + b| ensures Not(a + b)[i] == (Not(a) + Not(b))[i] {
    }
  }

  lemma DataFlips(key: seq<bool>, addr: nat, w: nat)
    requires |key| == 64
    ensures Data(key, addr, w, true) == Not(Data(key, addr, w, false))
  {
    hide Lin, Cell;
  }

  /** Two addresses that share storage read back data wrong in every word of the burst. */
  lemma AliasShows(key: seq<bool>, a: nat, b: nat, lanes: nat, complement: bool, w: nat)
    requires |key| == 64 && a % M32 != b % M32 && w < lanes
    ensures Burst(key, a, lanes, complement)[64 * w..64 * w + 64]
      != Burst(key, b, lanes, complement)[64 * w..64 * w + 64]
  {
    hide Data, Burst;
    BurstWord(key, a, lanes, complement, w);
    BurstWord(key, b, lanes, complement, w);
    DataDistinct(key, a, w, b, w, complement);
  }

  // ---- Keys ----

  function Wrapped(n: nat): (r: nat)
    ensures r < 0x1_0000_0000_0000_0000
  {
    n % 0x1_0000_0000_0000_0000
  }

  /** Addition modulo 2^64. */
  function AddMod(x: seq<bool>, n: nat): (y: seq<bool>)
    ensures |y| == 64
  {
    ToBits(Wrapped(FromBits(x) + n), 64)
  }

  lemma AddModInjective(x: seq<bool>, y: seq<bool>, n: nat)
    requires |x| == |y| == 64 && AddMod(x, n) == AddMod(y, n)
    ensures x == y
  {
    hide ToBits, FromBits, Pow;
    Pow2To32();
    ToFromBits(x);
    ToFromBits(y);
    ToBitsInjective(Wrapped(FromBits(x) + n), Wrapped(FromBits(y) + n), 64);
    SameResidue(FromBits(x) + n, FromBits(y) + n);
  }

  lemma SameResidue(a: nat, b: nat)
    requires Wrapped(a) == Wrapped(b) && -M64 < a - b < M64
    ensures a == b
  {
  }

  function Scramble(x: seq<bool>): (k: seq<bool>)
    requires |x| == 64
    ensures |k| == 64
  {
    Lin(AddMod(Lin(x), KADD))
  }

  lemma ScrambleInjective(x: seq<bool>, y: seq<bool>)
    requires |x| == |y| == 64 && Scramble(x) == Scramble(y)
    ensures x == y
  {
    hide Lin, AddMod;
    LinInjective(AddMod(Lin(x), KADD), AddMod(Lin(y), KADD));
    AddModInjective(Lin(x), Lin(y), KADD);
    LinInjective(x, y);
  }

  /** (r << 32) | r of the round's low 32 bits. */
  function Repeated(round: nat): nat {
    var r := round % 0x1_0000_0000;
    r * 0x1_0000_0000 + r
  }

  /** The key of a round: base + (round << 32 | round), modulo 2^64, scrambled. */
  function RoundKey(base: nat, round: nat): (k: seq<bool>)
    ensures |k| == 64
  {
    Scramble(ToBits(Wrapped(base + Repeated(round)), 64))
  }

  /** Within one load every round, counted modulo 2^32, has its own key. */
  lemma RoundKeysDistinct(base: nat, r: nat, s: nat)
    ensures RoundKey(base, r) == RoundKey(base, s) <==> r % M32 == s % M32
  {
    hide Scramble, ToBits, Pow;
    var p, q := base + Repeated(r), base + Repeated(s);
    if RoundKey(base, r) == RoundKey(base, s) {
      ScrambleInjective(ToBits(Wrapped(p), 64), ToBits(Wrapped(q), 64));
      Pow2To32();
      ToBitsInjective(Wrapped(p), Wrapped(q), 64);
      SameResidue(p, q);
    }
  }

  /** The key of a run pair. */
  function PairKey(seed: nat, pair: nat): (k: seq<bool>)
    ensures |k| == 64
  {
    Scramble(Cell(pair, seed))
  }

  lemma PairKeysDistinct(seed: nat, pair: nat, seed': nat, pair': nat)
    ensures PairKey(seed, pair) == PairKey(seed', pair') <==> seed % M32 == seed' % M32 && pair % M32 == pair' % M32
  {
    hide Scramble, Cell;
    if PairKey(seed, pair) == PairKey(seed', pair') {
      ScrambleInjective(Cell(pair, seed), Cell(pair', seed'));
      CellInjective(pair, seed, pair', seed');
    } else if seed % M32 == seed' % M32 && pair % M32 == pair' % M32 {
      SameCell(pair, seed, pair', seed');
    }
  }
}
