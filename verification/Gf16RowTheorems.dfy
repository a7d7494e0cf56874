/** Whole rows of the wide normalisation: no guard inside it can fire, every unit word is
    finite and of magnitude at most 128, and the lanes mean what the contract says. */
module Gf16RowTheorems {
  import opened Arithmetic
  import opened Gf16
  import opened Binary32
  import opened Results
  import opened Gf16WideNorm
  import opened Gf16WideNormTheorems

  const TOP_LANE: nat := 0x1ff_ffff_ffff  // 2^41 - 1
  const TWO_40: nat := 0x100_0000_0000
  const UNIT_LIMIT: nat := 0x4c00         // the code of 128

  // ---- Magnitudes ----

  lemma ScaleIntegerBound(n: nat, shift: int, limit: nat)
    requires n <= 0xff_ffff && shift <= limit
    ensures ScaleInteger(n, shift) <= 0xff_ffff * Pow2(limit)
  {
    hide Pow2, DivRne;
    if shift >= 0 {
      Pow2Monotone(shift, limit);
      MulOrder(n, Pow2(shift), Pow2(limit));
      MulOrder(Pow2(limit), n, 0xff_ffff);
    } else {
      ScaleDown(n, Pow2(-shift));
      Pow2Monotone(0, limit);
      Pow2Zero();
      MulOrder(0xff_ffff, 1, Pow2(limit));
    }
  }

  lemma Pow2Zero()
    ensures Pow2(0) == 1
  {
  }

  lemma ScaleDown(n: nat, d: nat)
    requires d > 0
    ensures 0 <= DivRne(n, d) <= n
  {
    hide DivRne;
    MulOrder(n, 1, d);
    DivRneBetween(n, d, 0, n);
  }

  lemma SignificandBound(p: nat)
    ensures Significand(p) <= 0xff_ffff
    ensures p % SIGN32 != 0 ==> Significand(p) >= HIDDEN
  {
  }

  lemma MagnitudeBound(products: seq<nat>, i: nat)
    requires i < |products|
    ensures Magnitudes(products, Block(products))[i] <= TOP_LANE
  {
    var block := Block(products);
    assert Biased(products[i]) <= PeakExponent(products);
    SignificandBound(products[i]);
    hide Pow2, ScaleInteger, Significand;
    ScaleIntegerBound(Significand(products[i]), Biased(products[i]) - 150 - block, 17);
    Pow2At17();
  }

  lemma Pow2At17()
    ensures Pow2(17) == 0x2_0000
  {
    Pow2Literals();
  }

  ghost predicate AllAtMost(v: seq<nat>, limit: nat) {
    forall i :: 0 <= i < |v| ==> v[i] <= limit
  }

  lemma {:induction false} SumSquaresBound(v: seq<nat>)
    requires AllAtMost(v, TOP_LANE)
    ensures SumSquares(v) <= |v| * (TOP_LANE * TOP_LANE)
  {
    if v == [] {
    } else {
      var last := |v| - 1;
      SumSquaresBound(v[..last]);
      SquareMonotone(v[last], TOP_LANE);
    }
  }

  lemma {:induction false} SquareInSum(v: seq<nat>, i: nat)
    requires i < |v|
    ensures v[i] * v[i] <= SumSquares(v)
  {
    if i >= |v| - 1 {
    } else {
      SquareInSum(v[..|v| - 1], i);
    }
  }

  lemma {:induction false} MaxOfBound(v: seq<nat>, limit: nat)
    requires AllAtMost(v, limit)
    ensures MaxOf(v) <= limit
  {
    if v == [] {
    } else {
      MaxOfBound(v[..|v| - 1], limit);
    }
  }

  // ---- Mean, epsilon, root ----

  lemma MeanBounds(magnitudes: seq<nat>)
    requires 1 <= |magnitudes| <= MAX_LENGTH && AllAtMost(magnitudes, TOP_LANE)
    ensures MeanOf(magnitudes) <= TOP_LANE * TOP_LANE
    ensures SumSquares(magnitudes) >= |magnitudes| ==> MeanOf(magnitudes) >= 1
    ensures 2 * SumSquares(magnitudes) <= (2 * MeanOf(magnitudes) + 1) * |magnitudes|
  {
    var n, total := |magnitudes|, SumSquares(magnitudes);
    SumSquaresBound(magnitudes);
    DivRneBetween(total, n, 0, TOP_LANE * TOP_LANE);
    if total >= n {
      DivRneBetween(total, n, 1, TOP_LANE * TOP_LANE);
    }
    NearestEvenBounds(total, n, DivRne(total, n));
  }

  lemma EpsilonBounds(block: int)
    requires block >= -54
    ensures Epsilon(block) < 0x1000_0000_0000_0000_0000_0000 // 2^92
    ensures block == -54 ==> Epsilon(block) > 0
  {
    hide Pow2, ScaleInteger;
    ScaleIntegerBound(EPS_MANTISSA, -40 - 2 * block, 68);
    Pow2At68();
    if block == -54 {
      EpsilonAtFloor();
    }
  }

  lemma Pow2At68()
    ensures Pow2(68) == 0x10_0000_0000_0000_0000
  {
    Pow2Literals();
    Pow2Add(64, 4);
  }

  lemma EpsilonAtFloor()
    ensures ScaleInteger(EPS_MANTISSA, 68) > 0
  {
    Pow2At68();
    hide Pow2;
  }

  lemma RootBounds(radicand: nat)
    requires 0 < radicand < TWO_93
    ensures 0 < Root(radicand) < TWO_79
    ensures radicand * TWO_64 < (Root(radicand) + 1) * (Root(radicand) + 1)
    ensures Root(radicand) * Root(radicand) <= radicand * TWO_64
  {
    var r := Root(radicand);
    hide Isqrt;
    if r >= TWO_79 {
      SquareMonotone(TWO_79, r);
    }
  }

  /** A row whose peak exponent sets the block has a lane of at least 2^40; any other row
      keeps an epsilon of at least one unit. */
  lemma RadicandPositive(words: seq<nat>)
    requires 1 <= |words| <= MAX_LENGTH
    ensures MeanOf(Magnitudes(words, Block(words))) + Epsilon(Block(words)) > 0
  {
    var block := Block(words);
    var magnitudes := Magnitudes(words, block);
    AllMagnitudes(words);
    hide SumSquares, MeanOf;
    if block == -54 {
      EpsilonBounds(block);
    } else {
      var i :| 0 <= i < |words| && Biased(words[i]) == PeakExponent(words);
      PeakLane(words[i]);
      assert magnitudes[i] == ScaleInteger(Significand(words[i]), 17);
      SquareInSum(magnitudes, i);
      SquareMonotone(MAX_LENGTH, magnitudes[i]);
      MeanBounds(magnitudes);
    }
  }

  lemma PeakLane(p: nat)
    requires Biased(p) >= 1
    ensures ScaleInteger(Significand(p), 17) >= TWO_40
  {
    Pow2At17();
    SignificandBound(p);
    NonzeroExponent(p);
    hide Pow2, Significand;
  }

  /** The block exponent leaves no room: unless it is at its floor, some lane has its leading bit at
      2^40, so one less would push that lane past the bound of 2^41. */
  lemma BlockTight(words: seq<nat>)
    requires words != []
    ensures Block(words) == -54
      || exists i :: 0 <= i < |words| && Magnitudes(words, Block(words))[i] >= TWO_40
  {
    var block := Block(words);
    if block != -54 {
      var i :| 0 <= i < |words| && Biased(words[i]) == PeakExponent(words);
      PeakLane(words[i]);
      assert Magnitudes(words, block)[i] == ScaleInteger(Significand(words[i]), 17);
    }
  }

  lemma NonzeroExponent(p: nat)
    requires Biased(p) >= 1
    ensures p % SIGN32 != 0
  {
    if p % SIGN32 == 0 {
      assert p == (p / SIGN32) * 256 * HIDDEN;
      DivModUnique(p, HIDDEN, (p / SIGN32) * 256, 0);
    }
  }

  lemma AllMagnitudes(words: seq<nat>)
    requires words != []
    ensures |Magnitudes(words, Block(words))| == |words|
    ensures AllAtMost(Magnitudes(words, Block(words)), TOP_LANE)
  {
    hide Block, Magnitudes;
    var m := Magnitudes(words, Block(words));
    assert |m| == |words| by { MagnitudesLength(words); }
    forall i | 0 <= i < |m| ensures m[i] <= TOP_LANE {
      MagnitudeBound(words, i);
    }
  }

  lemma MagnitudesLength(words: seq<nat>)
    requires words != []
    ensures |Magnitudes(words, Block(words))| == |words|
  {
  }

  /** Whatever the words, the two assertions of `normalize` hold. */
  lemma AssertionsHold(words: seq<nat>)
    requires 1 <= |words| <= MAX_LENGTH
    ensures var block := Block(words);
      var magnitudes := Magnitudes(words, block);
      var radicand := MeanOf(magnitudes) + Epsilon(block);
      WithinBounds(magnitudes, SumSquares(magnitudes), radicand, Root(radicand))
  {
    var block := Block(words);
    var magnitudes := Magnitudes(words, block);
    AllMagnitudes(words);
    hide Magnitudes, Epsilon, Root, SumSquares, MeanOf;
    MaxOfBound(magnitudes, TOP_LANE);
    SumSquaresBound(magnitudes);
    MeanBounds(magnitudes);
    EpsilonBounds(block);
    RadicandPositive(words);
    RootBounds(MeanOf(magnitudes) + Epsilon(block));
  }

  // ---- Units ----

  /** No lane exceeds sqrt(2n) times the root mean square, so none exceeds 2^-25 of the root. */
  lemma LaneBelowRoot(v: nat, total: nat, n: nat, mean: nat, radicand: nat, root: nat)
    requires 1 <= n <= MAX_LENGTH && v * v <= total && 2 * total <= (2 * mean + 1) * n
    requires mean <= radicand && 0 < radicand && radicand * TWO_64 < (root + 1) * (root + 1)
    ensures v * 0x200_0000 <= root
  {
    MulOrder(n, 2 * mean + 1, 4 * radicand);
    MulOrder(4 * radicand, n, MAX_LENGTH);
    assert v * v <= 16384 * radicand;
    assert (v * 0x200_0000) * (v * 0x200_0000) == (v * v) * 0x4_0000_0000_0000;
    if v * 0x200_0000 > root {
      SquareMonotone(root + 1, v * 0x200_0000);
    }
  }

  lemma UnitCode(v: nat, root: nat)
    requires root > 0 && v * 0x200_0000 <= root
    ensures Encode(v * 0x1_0000_0000, root) <= UNIT_LIMIT
  {
    LimitLattice();
    hide Encode, Lattice;
    EncodeAtMost(v * 0x1_0000_0000, root, UNIT_LIMIT);
  }

  lemma LimitLattice()
    ensures Lattice(UNIT_LIMIT) == 128 * Q39
  {
    Pow2Literals();
    assert Pow2(37) * 4 == Pow2(39);
  }

  /** Every unit word of a row is finite, and at most 128 in magnitude. */
  lemma UnitsFinite(words: seq<nat>, block: int, magnitudes: seq<nat>, radicand: nat, root: nat)
    requires 1 <= |words| <= MAX_LENGTH && forall p <- words :: p <= 0xffff_ffff
    requires block == Block(words) && magnitudes == Magnitudes(words, block) && magnitudes != []
    requires radicand == MeanOf(magnitudes) + Epsilon(block) && root == Root(radicand) && root > 0
    ensures forall i :: 0 <= i < |words| ==>
      var u := Units(magnitudes, words, root)[i];
      Finite(u) && Code(u) <= UNIT_LIMIT
  {
    hide Block, Magnitudes, MeanOf, Epsilon, Root, SumSquares, EncodeRatio;
    AssertionsHold(words);
    AllMagnitudes(words);
    RadicandPositive(words);
    MeanBounds(magnitudes);
    RootBounds(radicand);
    forall i | 0 <= i < |words|
      ensures var u := Units(magnitudes, words, root)[i]; Finite(u) && Code(u) <= UNIT_LIMIT
    {
      SquareInSum(magnitudes, i);
      LaneUnit(magnitudes[i], SumSquares(magnitudes), |words|, MeanOf(magnitudes), radicand, root);
    }
  }

  lemma LaneUnit(v: nat, total: nat, n: nat, mean: nat, radicand: nat, root: nat)
    requires 1 <= n <= MAX_LENGTH && v * v <= total && 2 * total <= (2 * mean + 1) * n && root > 0
    requires mean <= radicand && 0 < radicand && radicand * TWO_64 < (root + 1) * (root + 1)
    ensures forall sign <- {0, SIGN} ::
      var u := EncodeRatio(v * 0x1_0000_0000, root, sign); Finite(u) && Code(u) <= UNIT_LIMIT
  {
    LaneBelowRoot(v, total, n, mean, radicand, root);
    UnitCode(v, root);
    hide Encode;
    SignedCode(Encode(v * 0x1_0000_0000, root));
  }

  lemma SignedCode(code: nat)
    requires code <= UNIT_LIMIT
    ensures Finite(code) && Finite(SIGN + code) && Code(code) == Code(SIGN + code) == code
  {
    assert Code(code) == code && Code(SIGN + code) == code;
    hide Finite, Code;
    FiniteCode(code);
    FiniteCode(SIGN + code);
  }

  // ---- Totality ----

  lemma {:induction false} MultiplyAllLanes(unit: seq<nat>, weights: seq<int>)
    requires |unit| == |weights|
    requires forall i :: 0 <= i < |unit| ==> Finite(unit[i]) && Finite(weights[i])
    ensures MultiplyAll(unit, weights).Ok?
    ensures var output := MultiplyAll(unit, weights).value;
      |output| == |unit| && forall i :: 0 <= i < |unit| ==> Ok(output[i]) == Multiply(unit[i], weights[i])
  {
    hide Multiply, Finite, Encode, Fixed, Mul, Pow2;
    if unit == [] {
    } else {
      var last := |unit| - 1;
      MultiplyAllLanes(unit[..last], weights[..last]);
      MultiplyRoundsOnce(unit[last], weights[last]);
    }
  }

  /** normalize succeeds exactly on the rows its three guards admit: neither its assertions
      nor the errors of the operations inside can end it. */
  lemma NormalizeTotal(products: seq<int>, weights: seq<int>)
    ensures Normalize(products, weights).Ok? <==> ValidRow(products, weights)
    ensures Normalize(products, weights).Err? ==>
      Normalize(products, weights).error in {RowLength, NonfiniteWeight, ProductDomain}
  {
    if ValidRow(products, weights) {
      var words := Words(products);
      forall p <- words ensures p <= 0xffff_ffff {}
      LanesOk(words, weights);
    }
  }

  lemma LanesOk(words: seq<nat>, weights: seq<int>)
    requires 1 <= |words| <= MAX_LENGTH && |weights| == |words|
    requires forall p <- words :: p <= 0xffff_ffff
    requires forall w <- weights :: Finite(w)
    ensures NormalizeLanes(words, weights).Ok?
    ensures IsRow(words, weights, NormalizeLanes(words, weights).value)
  {
    hide Block, Magnitudes, MeanOf, Epsilon, Root, SumSquares, Units, Finite, CountNonfinite, MultiplyAll;
    AssertionsHold(words);
    AllMagnitudes(words);
    var block := Block(words);
    var magnitudes := Magnitudes(words, block);
    var radicand := MeanOf(magnitudes) + Epsilon(block);
    UnitsFinite(words, block, magnitudes, radicand, Root(radicand));
    var unit := Units(magnitudes, words, Root(radicand));
    UnitsLength(magnitudes, words, Root(radicand));
    forall i | 0 <= i < |unit| ensures Finite(unit[i]) && Finite(weights[i]) {
      assert weights[i] in weights;
    }
    MultiplyAllLanes(unit, weights);
  }

  lemma UnitsLength(magnitudes: seq<nat>, words: seq<nat>, root: nat)
    requires root > 0 && |magnitudes| == |words| && forall p <- words :: p <= 0xffff_ffff
    ensures |Units(magnitudes, words, root)| == |words|
  {
  }

  /** The equations between the fields of a row's result. */
  ghost predicate IsRow(words: seq<nat>, weights: seq<int>, r: Row)
    requires words != [] && |weights| == |words| && forall p <- words :: p <= 0xffff_ffff
  {
    && r.block == Block(words)
    && r.magnitudes == Magnitudes(words, r.block) && |r.magnitudes| == |words|
    && r.sumSquares == SumSquares(r.magnitudes)
    && r.mean == MeanOf(r.magnitudes)
    && r.epsilon == Epsilon(r.block)
    && r.root == Root(r.mean + r.epsilon) && r.root > 0
    && r.unit == Units(r.magnitudes, words, r.root) && |r.unit| == |words|
    && MultiplyAll(r.unit, weights) == Ok(r.output)
    && r.overflow == CountNonfinite(r.output)
  }

  lemma {:induction false} ProductsLanes(gate: seq<int>, up: seq<int>)
    requires |gate| == |up|
    ensures Products(gate, up).Ok? <==> forall i :: 0 <= i < |gate| ==> Finite(gate[i]) && Finite(up[i])
    ensures Products(gate, up).Err? ==> Products(gate, up).error == NonfiniteWord
    ensures Products(gate, up).Ok? ==> |Products(gate, up).value| == |gate|
    ensures Products(gate, up).Ok? ==> forall i :: 0 <= i < |gate| ==>
      InProductDomain(Products(gate, up).value[i]) && Product(gate[i], up[i]) == Ok(Products(gate, up).value[i])
  {
    hide Product, Finite, InProductDomain;
    if gate == [] {
    } else {
      var last := |gate| - 1;
      ProductsLanes(gate[..last], up[..last]);
      LaneProduct(gate[last], up[last]);
    }
  }

  lemma LaneProduct(gate: int, up: int)
    ensures Product(gate, up).Ok? <==> Finite(gate) && Finite(up)
    ensures Product(gate, up).Err? ==> Product(gate, up).error == NonfiniteWord
    ensures Product(gate, up).Ok? ==> InProductDomain(Product(gate, up).value)
  {
    if Finite(gate) && Finite(up) {
      ProductInDomain(gate, up);
    }
  }

  /** The wide norm is total: a row succeeds exactly when its three inputs have one length in
      1..6912 and every word is finite, so no internal guard is ever the reason it fails. */
  lemma RowTotal(gate: seq<int>, up: seq<int>, weights: seq<int>)
    ensures NormRow(gate, up, weights).Ok? <==>
      && |gate| == |up| == |weights| && 1 <= |gate| <= 6912
      && AllFinite(gate) && AllFinite(up) && AllFinite(weights)
    ensures NormRow(gate, up, weights).Err? ==>
      NormRow(gate, up, weights).error in {GateUpLength, NonfiniteWord, RowLength, NonfiniteWeight}
  {
    if |gate| == |up| {
      ProductsLanes(gate, up);
      if Products(gate, up).Ok? {
        var products := Products(gate, up).value;
        NormalizeTotal(products, weights);
        forall p <- products ensures InProductDomain(p) {}
        assert AllFinite(weights) <==> forall w <- weights :: Finite(w);
        hide Normalize;
      }
    }
  }

  // ---- What the lanes mean ----

  lemma NearestScale(num: int, den: int, k: int, q: int, num': int, den': int)
    requires k > 0 && num' == num * k && den' == den * k && IsNearestEven(num, den, q)
    ensures IsNearestEven(num', den', q)
  {
    var e := num - q * den;
    ScaledError(num, den, k, q);
    ScaleAbs(e, k);
    hide Abs;
    MulOrder(k, 2 * Abs(e), den);
    EqualProducts(k, 2 * Abs(e), den);
  }

  lemma ScaledError(num: int, den: int, k: int, q: int)
    ensures num * k - q * (den * k) == k * (num - q * den)
  {
    assert q * (den * k) == k * (q * den);
  }

  lemma ScaleAbs(x: int, k: int)
    requires k > 0
    ensures Abs(k * x) == k * Abs(x)
  {
  }

  /** scale_integer is the value times a power of two rounded once, whatever the sign of the
      shift: n * 2^(shift + up) over 2^up is its nearest-even integer. */
  lemma ScaleIntegerNearest(n: nat, shift: int, up: nat)
    requires shift + up >= 0
    ensures IsNearestEven(n * Pow2(shift + up), Pow2(up), ScaleInteger(n, shift))
  {
    hide Pow2, DivRne, IsNearestEven;
    if shift >= 0 {
      Pow2Add(shift, up);
      MulAssociative(n, Pow2(shift), Pow2(up));
      ExactNearest(n * Pow2(shift), Pow2(up));
    } else {
      Pow2Add(-shift, shift + up);
      NearestScale(n, Pow2(-shift), Pow2(shift + up), DivRne(n, Pow2(-shift)), n * Pow2(shift + up), Pow2(up));
    }
  }

  lemma ExactNearest(q: int, den: int)
    requires den > 0
    ensures IsNearestEven(q * den, den, q)
  {
  }

  lemma WordMagnitude(p: nat)
    requires InProductDomain(p)
    ensures Biased(p) == 0 ==> Magnitude32(p % SIGN32) == 0 == Significand(p)
    ensures Biased(p) > 0 ==> Magnitude32(p % SIGN32) == Significand(p) * Pow2(Biased(p) - 1)
  {
    hide Pow2;
    var bits := p % SIGN32;
    assert p == (p / SIGN32) * SIGN32 + bits;
    assert bits == (bits / HIDDEN) * HIDDEN + bits % HIDDEN;
    DivModUnique(p, HIDDEN, (p / SIGN32) * 256 + bits / HIDDEN, bits % HIDDEN);
    DivModUnique(p / HIDDEN, 256, p / SIGN32, bits / HIDDEN);
  }

  /** Each magnitude is the product's value rounded once to a multiple of 2^block. */
  lemma MagnitudeMeaning(words: seq<nat>, i: nat)
    requires i < |words| && InProductDomain(words[i])
    ensures -54 <= Block(words)
    ensures IsNearestEven(Magnitude32(words[i] % SIGN32), Pow2(149 + Block(words)),
                          Magnitudes(words, Block(words))[i])
  {
    var p, block := words[i], Block(words);
    WordMagnitude(p);
    hide Pow2, Significand, Magnitude32, IsNearestEven;
    if Biased(p) == 0 {
      ScaleZero(Biased(p) - 150 - block);
      ExactNearest(0, Pow2(149 + block));
    } else {
      ScaleIntegerNearest(Significand(p), Biased(p) - 150 - block, 149 + block);
    }
  }

  lemma ScaleZero(shift: int)
    ensures ScaleInteger(0, shift) == 0
  {
    hide Pow2;
    if shift < 0 {
      DivRneExact(0, Pow2(-shift));
    }
  }

  /** A magnitude is the packed product over 2^block, rounded once. */
  ghost predicate MagnitudeMeans(p: nat, block: int, magnitude: nat) {
    && 149 + block >= 95
    && IsNearestEven(Magnitude32(p % SIGN32), Pow2(149 + block), magnitude)
  }

  /** The block is the least exponent from -54 up that keeps every magnitude below 2^41. */
  ghost predicate BlockMeans(r: Row) {
    && r.block >= -54 && (forall i :: 0 <= i < |r.magnitudes| ==> r.magnitudes[i] < TWO_41)
    && (r.block == -54 || exists i :: 0 <= i < |r.magnitudes| && r.magnitudes[i] >= TWO_40)
  }

  /** Mean and epsilon are rounded once, in units of 4^block, and the root is the integer
      square root of their sum with 64 more bits. */
  ghost predicate ScaleMeans(n: nat, r: Row) {
    && IsNearestEven(SumSquares(r.magnitudes), n, r.mean)
    && 108 + 2 * r.block >= 0
    && IsNearestEven(EPS_MANTISSA * Pow2(68), Pow2(108 + 2 * r.block), r.epsilon)
    && IsRoot((r.mean + r.epsilon) * TWO_64, r.root) && r.root > 0
  }

  /** A unit word is finite, at most 128, the correctly rounded magnitude over root (scaled by
      2^32), with the product's sign. */
  ghost predicate UnitMeans(p: nat, magnitude: nat, root: nat, unit: nat) {
    && Finite(unit) && Code(unit) <= UNIT_LIMIT
    && IsNearestCode(magnitude * 0x1_0000_0000 * Q39, root, Code(unit))
    && (unit >= SIGN <==> p >= SIGN32)
  }

  /** An output word is the correctly rounded product of unit and weight. */
  ghost predicate OutputMeans(unit: int, weight: int, output: nat) {
    && Finite(unit) && Finite(weight)
    && output == EncodeRatio(Mul(Abs(Fixed(unit)), Abs(Fixed(weight))), Pow2(78),
                             if (unit >= SIGN) != (weight >= SIGN) then SIGN else 0)
  }

  /** The contract of a row: every stage of every lane is its exact value rounded once. */
  lemma RowMeaning(gate: seq<int>, up: seq<int>, weights: seq<int>, i: nat)
    requires NormRow(gate, up, weights).Ok? && i < |gate|
    ensures var (products, r) := NormRow(gate, up, weights).value;
      && |products| == |r.magnitudes| == |r.unit| == |r.output| == |weights| == |gate| == |up|
      && Product(gate[i], up[i]) == Ok(products[i])
      && BlockMeans(r) && MagnitudeMeans(products[i], r.block, r.magnitudes[i])
      && ScaleMeans(|gate|, r)
      && UnitMeans(products[i], r.magnitudes[i], r.root, r.unit[i])
      && OutputMeans(r.unit[i], weights[i], r.output[i])
  {
    hide BlockMeans, MagnitudeMeans, ScaleMeans, UnitMeans, OutputMeans, Products, Product, Finite, NormalizeLanes,
         Words;
    RowTotal(gate, up, weights);
    ProductsLanes(gate, up);
    var products := Products(gate, up).value;
    forall p <- products ensures InProductDomain(p) && p <= 0xffff_ffff {}
    hide InProductDomain;
    forall w <- weights ensures Finite(w) {}
    assert Words(products) == products;
    LanesMeaning(products, weights, i);
  }

  lemma LanesMeaning(words: seq<nat>, weights: seq<int>, i: nat)
    requires 1 <= |words| <= MAX_LENGTH && |weights| == |words| && i < |words|
    requires forall p <- words :: InProductDomain(p) && p <= 0xffff_ffff
    requires forall w <- weights :: Finite(w)
    ensures NormalizeLanes(words, weights).Ok?
    ensures var r := NormalizeLanes(words, weights).value;
      && |r.magnitudes| == |r.unit| == |r.output| == |words|
      && BlockMeans(r) && MagnitudeMeans(words[i], r.block, r.magnitudes[i])
      && ScaleMeans(|words|, r)
      && UnitMeans(words[i], r.magnitudes[i], r.root, r.unit[i])
      && OutputMeans(r.unit[i], weights[i], r.output[i])
  {
    hide NormalizeLanes, BlockMeans, MagnitudeMeans, ScaleMeans, UnitMeans, OutputMeans, InProductDomain, Finite;
    assert words[i] in words && weights[i] in weights;
    LanesOk(words, weights);
    var r := NormalizeLanes(words, weights).value;
    BlockStage(words, weights, r);
    MagnitudeStage(words, i);
    ScaleStage(words, weights, r);
    UnitStage(words, weights, r, i);
    OutputStage(words, weights, r, i);
    hide Block, Magnitudes, MeanOf, Epsilon, Root, SumSquares, Units, MultiplyAll, CountNonfinite;
  }

  lemma BlockStage(words: seq<nat>, weights: seq<int>, r: Row)
    requires words != [] && |weights| == |words| && forall p <- words :: p <= 0xffff_ffff
    requires IsRow(words, weights, r)
    ensures BlockMeans(r)
  {
    BlockAtFloor(words);
    hide Block, Magnitudes, MeanOf, Epsilon, Root, SumSquares, Units, MultiplyAll, CountNonfinite;
    AllMagnitudes(words);
    BlockTight(words);
  }

  lemma BlockAtFloor(words: seq<nat>)
    requires words != []
    ensures Block(words) >= -54
  {
  }

  lemma MagnitudeStage(words: seq<nat>, i: nat)
    requires i < |words| && InProductDomain(words[i])
    ensures MagnitudeMeans(words[i], Block(words), Magnitudes(words, Block(words))[i])
  {
    hide Pow2, IsNearestEven, Magnitude32, Magnitudes;
    MagnitudeMeaning(words, i);
  }

  lemma ScaleStage(words: seq<nat>, weights: seq<int>, r: Row)
    requires words != [] && |weights| == |words| && forall p <- words :: p <= 0xffff_ffff
    requires IsRow(words, weights, r)
    ensures ScaleMeans(|words|, r)
  {
    hide Pow2, IsNearestEven, IsRoot, Isqrt, ScaleInteger, SumSquares, MeanOf, DivRne, Magnitudes, Units, MultiplyAll;
    ScaleIntegerNearest(EPS_MANTISSA, -40 - 2 * r.block, 108 + 2 * r.block);
    MeanNearest(r.magnitudes);
  }

  lemma UnitStage(words: seq<nat>, weights: seq<int>, r: Row, i: nat)
    requires 1 <= |words| <= MAX_LENGTH && |weights| == |words| && forall p <- words :: p <= 0xffff_ffff
    requires IsRow(words, weights, r) && i < |words|
    ensures UnitMeans(words[i], r.magnitudes[i], r.root, r.unit[i])
  {
    hide Block, Magnitudes, MeanOf, Epsilon, Root, SumSquares, IsNearestCode, Encode, MultiplyAll, CountNonfinite,
         Finite;
    UnitsFinite(words, r.block, r.magnitudes, r.mean + r.epsilon, r.root);
    EncodeNearest(r.magnitudes[i] * 0x1_0000_0000, r.root);
    SignedCodeOf(Encode(r.magnitudes[i] * 0x1_0000_0000, r.root), r.unit[i]);
  }

  lemma OutputStage(words: seq<nat>, weights: seq<int>, r: Row, i: nat)
    requires 1 <= |words| <= MAX_LENGTH && |weights| == |words| && forall p <- words :: p <= 0xffff_ffff
    requires forall w <- weights :: Finite(w)
    requires IsRow(words, weights, r) && i < |words|
    ensures |r.output| == |words| && OutputMeans(r.unit[i], weights[i], r.output[i])
  {
    hide Block, Magnitudes, MeanOf, Epsilon, Root, SumSquares, Encode, Finite, Multiply, MultiplyAll;
    hide Units, Mul, Fixed, Pow2, CountNonfinite;
    UnitsFinite(words, r.block, r.magnitudes, r.mean + r.epsilon, r.root);
    forall k | 0 <= k < |r.unit| ensures Finite(r.unit[k]) && Finite(weights[k]) {
      assert weights[k] in weights;
    }
    MultiplyAllLanes(r.unit, weights);
    MultiplyRoundsOnce(r.unit[i], weights[i]);
  }

  /** The overflow count is that of the output words that are not finite. */
  lemma RowOverflow(gate: seq<int>, up: seq<int>, weights: seq<int>)
    requires NormRow(gate, up, weights).Ok?
    ensures var r := NormRow(gate, up, weights).value.1;
      && r.overflow == CountNonfinite(r.output)
      && (r.overflow == 0 <==> AllFinite(r.output))
  {
    hide Products, MultiplyAll, Units, Finite;
    CountZero(NormRow(gate, up, weights).value.1.output);
  }

  lemma {:induction false} CountZero(words: seq<nat>)
    ensures CountNonfinite(words) == 0 <==> AllFinite(words)
  {
    hide Finite;
    if words == [] {
    } else {
      CountZero(words[..|words| - 1]);
    }
  }

  lemma MeanNearest(magnitudes: seq<nat>)
    requires magnitudes != []
    ensures IsNearestEven(SumSquares(magnitudes), |magnitudes|, MeanOf(magnitudes))
  {
  }

  lemma SignedCodeOf(code: nat, word: nat)
    requires code <= INFINITY && (word == code || word == SIGN + code)
    ensures Code(word) == code && (word >= SIGN <==> word == SIGN + code)
  {
  }
}
