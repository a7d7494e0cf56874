/** The wide RMS normalisation gf16-wide-norm-v1: the squared-ReLU product in binary32, the
    block-scaled integer root mean square and the two GF16 roundings of every lane. */
module Gf16WideNorm {
  import opened Arithmetic
  import opened Gf16
  import opened Binary32
  import opened Results

  const MAX_LENGTH: nat := 6912
  const EPS_MANTISSA: nat := 10995116

  const TWO_41: nat := 0x200_0000_0000
  const TWO_64: nat := 0x1_0000_0000_0000_0000
  const TWO_79: nat := 0x8000_0000_0000_0000_0000
  const TWO_93: nat := 0x2000_0000_0000_0000_0000_0000
  const TWO_95: nat := 0x8000_0000_0000_0000_0000_0000

  datatype Error =
    | NonfiniteWord
    | RowLength
    | NonfiniteWeight
    | ProductDomain
    | GateUpLength
    | PackOverflow
    | BoundAssertion

  datatype Row = Row(block: int, magnitudes: seq<nat>, sumSquares: nat, mean: nat, epsilon: nat,
                     root: nat, unit: seq<nat>, output: seq<nat>, overflow: nat)

  /** The square of the positive part of the gate, times the magnitude of up, over 2^-117. */
  function ProductMagnitude(gate: int, up: int): nat
    requires Finite(gate) && Finite(up)
  {
    var relu: nat := Max(Fixed(gate), 0);
    Mul(Mul(relu, relu), Abs(Fixed(up)))
  }

  /** max(g, 0)^2 * u, exact, then packed to binary32 once. The sign is up's, also of zero. */
  function Product(gate: int, up: int): Result<nat, Error> {
    if !Finite(gate) || !Finite(up) then Err(NonfiniteWord) else
      match Pack32(ProductMagnitude(gate, up), 117)
      case None => Err(PackOverflow)
      case Some(bits) => Ok((if up >= SIGN then SIGN32 else 0) + bits)
  }

  /** The GF16 product of two words: their exact product packed to binary32, then encoded. */
  function Multiply(a: int, b: int): Result<nat, Error> {
    if !Finite(a) || !Finite(b) then Err(NonfiniteWord) else
      match Pack32(Mul(Abs(Fixed(a)), Abs(Fixed(b))), 78)
      case None => Err(PackOverflow)
      case Some(bits) => Ok(EncodeWord((if (a >= SIGN) != (b >= SIGN) then SIGN32 else 0) + bits))
  }

  function ScaleInteger(n: nat, shift: int): nat {
    if shift >= 0 then n * Pow2(shift) else
      DivRneBetween(n, Pow2(-shift), 0, n);
      DivRne(n, Pow2(-shift))
  }

  function Biased(p: nat): nat {
    p / HIDDEN % 256
  }

  function Significand(p: nat): nat {
    p % HIDDEN + if p % SIGN32 != 0 then HIDDEN else 0
  }

  predicate InProductDomain(p: int) {
    && 0 <= p <= 0xffff_ffff
    && (p % SIGN32 == 0 || 10 <= Biased(p) <= 222)
  }

  function PeakExponent(products: seq<nat>): (peak: nat)
    requires products != []
    ensures forall p <- products :: Biased(p) <= peak
    ensures exists i :: 0 <= i < |products| && Biased(products[i]) == peak
  {
    var last := |products| - 1;
    if last == 0 then Biased(products[0]) else
      var rest := PeakExponent(products[..last]);
      assert products == products[..last] + [products[last]];
      Max(rest, Biased(products[last]))
  }

  function SumSquares(v: seq<nat>): nat {
    if v == [] then 0 else SumSquares(v[..|v| - 1]) + v[|v| - 1] * v[|v| - 1]
  }

  function CountNonfinite(words: seq<nat>): nat {
    if words == [] then 0 else
      CountNonfinite(words[..|words| - 1]) + if Finite(words[|words| - 1]) then 0 else 1
  }

  /** [multiply(v, w) for v, w in zip(unit, weights)], ended by the first error. */
  function MultiplyAll(unit: seq<nat>, weights: seq<int>): Result<seq<nat>, Error>
    requires |unit| == |weights|
  {
    if unit == [] then Ok([]) else
      var last := |unit| - 1;
      var rest :- MultiplyAll(unit[..last], weights[..last]);
      var word :- Multiply(unit[last], weights[last]);
      Ok(rest + [word])
  }

  predicate ValidRow(products: seq<int>, weights: seq<int>) {
    && 1 <= |products| <= MAX_LENGTH && |weights| == |products|
    && (forall w <- weights :: Finite(w))
    && (forall p <- products :: InProductDomain(p))
  }

  function Block(products: seq<nat>): int
    requires products != []
  {
    Max(PeakExponent(products) - 167, -54)
  }

  function Magnitudes(products: seq<nat>, block: int): seq<nat> {
    seq(|products|, i requires 0 <= i < |products| =>
      ScaleInteger(Significand(products[i]), Biased(products[i]) - 150 - block))
  }

  function Units(magnitudes: seq<nat>, products: seq<nat>, root: nat): seq<nat>
    requires root > 0 && |magnitudes| == |products|
    requires forall p <- products :: p <= 0xffff_ffff
  {
    seq(|products|, i requires 0 <= i < |products| =>
      EncodeRatio(magnitudes[i] * 0x1_0000_0000, root, if products[i] >= SIGN32 then SIGN else 0))
  }

  function MaxOf(v: seq<nat>): nat {
    if v == [] then 0 else Max(MaxOf(v[..|v| - 1]), v[|v| - 1])
  }

  function MeanOf(magnitudes: seq<nat>): nat
    requires magnitudes != []
  {
    var total := SumSquares(magnitudes);
    DivRneMonotone(0, 1, total, |magnitudes|);
    DivRne(total, |magnitudes|)
  }

  /** The guards in the order the code checks them. */
  function Normalize(products: seq<int>, weights: seq<int>): Result<Row, Error> {
    if !(1 <= |products| <= MAX_LENGTH && |weights| == |products|) then Err(RowLength)
    else if exists w <- weights :: !Finite(w) then Err(NonfiniteWeight)
    else if exists p <- products :: !InProductDomain(p) then Err(ProductDomain)
    else
      NormalizeLanes(Words(products), weights)
  }

  function Words(products: seq<int>): (words: seq<nat>)
    requires forall p <- products :: InProductDomain(p)
    ensures |words| == |products|
    ensures forall i :: 0 <= i < |words| ==> words[i] == products[i] && InProductDomain(products[i])
  {
    assert forall i :: 0 <= i < |products| ==> InProductDomain(products[i]);
    seq(|products|, i requires 0 <= i < |products| && InProductDomain(products[i]) => products[i] as nat)
  }

  /** The scale of the row: epsilon and root mean square in units of 2^block. */
  function Epsilon(block: int): nat {
    ScaleInteger(EPS_MANTISSA, -40 - 2 * block)
  }

  function Root(radicand: nat): nat {
    Isqrt(radicand * TWO_64)
  }

  /** The bounds the code asserts. */
  predicate WithinBounds(magnitudes: seq<nat>, total: nat, meanPlusEpsilon: nat, root: nat) {
    && MaxOf(magnitudes) < TWO_41 && total < TWO_95
    && meanPlusEpsilon < TWO_93 && 0 < root < TWO_79
  }

  /** The arithmetic of a row that passed the guards, with the code's two assertions. */
  function NormalizeLanes(words: seq<nat>, weights: seq<int>): Result<Row, Error>
    requires words != [] && |weights| == |words|
    requires forall p <- words :: p <= 0xffff_ffff
  {
    var block := Block(words);
    var magnitudes := Magnitudes(words, block);
    var total := SumSquares(magnitudes);
    var mean := MeanOf(magnitudes);
    var epsilon := Epsilon(block);
    var root := Root(mean + epsilon);
    if !WithinBounds(magnitudes, total, mean + epsilon, root) then Err(BoundAssertion)
    else
      var unit := Units(magnitudes, words, root);
      var output :- MultiplyAll(unit, weights);
      Ok(Row(block, magnitudes, total, mean, epsilon, root, unit, output, CountNonfinite(output)))
  }

  function Products(gate: seq<int>, up: seq<int>): Result<seq<nat>, Error>
    requires |gate| == |up|
  {
    if gate == [] then Ok([]) else
      var last := |gate| - 1;
      var rest :- Products(gate[..last], up[..last]);
      var word :- Product(gate[last], up[last]);
      Ok(rest + [word])
  }

  /** The whole row: products, then their normalisation. */
  function NormRow(gate: seq<int>, up: seq<int>, weights: seq<int>): Result<(seq<nat>, Row), Error> {
    if |gate| != |up| then Err(GateUpLength) else
      var products :- Products(gate, up);
      var row :- Normalize(products, weights);
      Ok((products, row))
  }

  // ---- Sums and constants by their laws ----

  /** The sum of squares: additive over lists, and the square on one value. */
  lemma {:induction false} SumSquaresConcat(a: seq<nat>, b: seq<nat>)
    ensures SumSquares(a + b) == SumSquares(a) + SumSquares(b)
  {
    if b == [] {
      assert a + b == a;
    } else {
      SumSquaresConcat(a, b[..|b| - 1]);
      assert (a + b)[..|a + b| - 1] == a + b[..|b| - 1];
    }
  }

  lemma SumSquaresOne(x: nat)
    ensures SumSquares([x]) == x * x
  {
    assert [x][..0] == [];
  }

  /** The overflow count: additive over lists, and one for a word that is not finite. */
  lemma {:induction false} CountConcat(a: seq<nat>, b: seq<nat>)
    ensures CountNonfinite(a + b) == CountNonfinite(a) + CountNonfinite(b)
  {
    hide Finite;
    if b == [] {
      assert a + b == a;
    } else {
      CountConcat(a, b[..|b| - 1]);
      assert (a + b)[..|a + b| - 1] == a + b[..|b| - 1];
    }
  }

  lemma CountOne(w: nat)
    ensures CountNonfinite([w]) == if Finite(w) then 0 else 1
  {
    assert [w][..0] == [];
  }

  /** Epsilon is 1e-5 in Q40, rounded to nearest. */
  lemma EpsilonRounded()
    ensures IsNearestEven(0x100_0000_0000, 100000, EPS_MANTISSA)
  {
  }

  /** The limits of the assertions. */
  lemma LimitsArePowers()
    ensures TWO_41 == Pow2(41) && TWO_64 == Pow2(64) && TWO_79 == Pow2(79) && TWO_93 == Pow2(93) && TWO_95 == Pow2(95)
  {
    Pow2Literals();
    Pow2Small();
    assert Pow2(13) == 8 * Pow2(10) && Pow2(15) == 32 * Pow2(10);
    Pow2Add(32, 9);
    Pow2Add(64, 15);
    Pow2Add(64, 24);
    Pow2Add(88, 5);
    Pow2Add(88, 7);
  }
}
