/** What the feed-forward contract guarantees: ActQuant is total and returns peak lanes
    unchanged, ternary totals stay below 2^84, and the block fails only on overflow to a
    nonfinite word that its own definition names. */
module Gf16FfnTheorems {
  import opened Arithmetic
  import opened Gf16
  import opened Results
  import opened Gf16Ffn
  import B = Binary32
  import W = Gf16WideNorm
  import N = Gf16WideNormTheorems
  import R = Gf16RowTheorems

  // ---- ActQuant ----

  /** A code is the lane over the peak in 127ths, rounded once, with the lane's sign; it never
      leaves [-127, 127] and reaches an end exactly where the lane is the peak, or rounds to it. */
  lemma QuantCodeMeaning(word: int, peak: nat)
    requires Finite(word) && peak > 0 && 2 * Abs(Fixed(word)) <= peak
    ensures -127 <= QuantCode(word, peak) <= 127
    ensures IsNearestEven(2 * Abs(Fixed(word)) * 127, peak, Abs(QuantCode(word, peak)))
    ensures Fixed(word) < 0 ==> QuantCode(word, peak) <= 0
    ensures Fixed(word) >= 0 ==> QuantCode(word, peak) >= 0
    ensures 2 * Abs(Fixed(word)) == peak ==> QuantCode(word, peak) == if Fixed(word) < 0 then -127 else 127
  {
    hide Fixed, IsNearestEven, DivRne;
    var m := 2 * Abs(Fixed(word)) * 127;
    DivRneBetween(m, peak, 0, 127);
    if 2 * Abs(Fixed(word)) == peak {
      DivRneExact(127, peak);
    }
  }

  /** A lane whose magnitude is the peak comes back as its own word. */
  lemma PeakLaneReturns(word: int, peak: nat)
    requires Finite(word) && peak > 0 && 2 * Abs(Fixed(word)) == peak
    ensures Dequantize(QuantCode(word, peak), peak) == word
  {
    QuantCodeMeaning(word, peak);
    FixedMagnitude(word);
    hide Fixed, QuantCode, Encode, Lattice;
    EncodeExact(Mul(127, peak), 127 * TWO_40, Code(word));
  }

  /** A dequantized word is finite: it is no larger than the lane that set the peak, or than
      epsilon. */
  lemma DequantizeFinite(code: int, peak: nat, top: nat)
    requires -127 <= code <= 127 && top <= MAX_FINITE && peak <= 2 * Lattice(top)
    ensures Finite(Dequantize(code, peak))
  {
    hide Encode, Lattice;
    MulOrder(peak, Abs(code), 127);
    EncodeAtMost(Mul(Abs(code), peak), 127 * TWO_40, top);
    FiniteCode(Dequantize(code, peak));
  }

  lemma EpsilonBelowTop()
    ensures EPS_Q40 <= 2 * Lattice(MAX_FINITE)
  {
    B.LatticeMax();
    hide Lattice;
  }

  /** The magnitude that bounds every lane of a vector is a finite one. */
  lemma PeakIsFinite(words: seq<int>) returns (top: nat)
    requires AllFinite(words)
    ensures top <= MAX_FINITE && Peak(words) <= 2 * Lattice(top)
  {
    hide Lattice, Fixed, Peak;
    if Peak(words) == EPS_Q40 {
      top := MAX_FINITE;
      EpsilonBelowTop();
    } else {
      var i :| 0 <= i < |words| && 2 * Abs(Fixed(words[i])) == Peak(words);
      FixedMagnitude(words[i]);
      top := Code(words[i]);
    }
  }

  /** ActQuant succeeds exactly on finite vectors of length 1..6912: its own bound on the codes
      is unreachable. Lanes at the peak return unchanged, the rest are their value over the
      peak in nearest 127ths, and every returned word is finite. */
  lemma ActQuantTotal(words: seq<int>)
    ensures ActQuant(words).Ok? <==> 1 <= |words| <= W.MAX_LENGTH && AllFinite(words)
    ensures ActQuant(words).Err? ==> ActQuant(words).error in {ActQuantLength, NonfiniteWord}
    ensures ActQuant(words).Ok? ==> QuantizedMeans(words, ActQuant(words).value)
  {
    if 1 <= |words| <= W.MAX_LENGTH {
      assert AllFinite(words) <==> forall w <- words :: Finite(w) by {
        forall i | 0 <= i < |words| ensures words[i] in words {}
      }
      if AllFinite(words) {
        CodesInRange(words);
        QuantizedLanes(words);
      }
    }
  }

  lemma CodesInRange(words: seq<int>)
    requires 1 <= |words| <= W.MAX_LENGTH && AllFinite(words)
    ensures ActQuant(words).Ok?
  {
    hide Peak, Fixed, Dequantize, Finite;
    var peak := Peak(words);
    var codes := seq(|words|, i requires 0 <= i < |words| && Finite(words[i]) => QuantCode(words[i], peak));
    forall k <- codes ensures -127 <= k <= 127 {
      var i :| 0 <= i < |codes| && codes[i] == k;
      QuantCodeMeaning(words[i], peak);
    }
  }

  ghost predicate QuantizedMeans(words: seq<int>, q: Quantized) {
    && AllFinite(words) && q.maximum == Peak(words)
    && |q.codes| == |q.words| == |words|
    && forall i :: 0 <= i < |words| ==> LaneMeans(words[i], q.maximum, q.codes[i], q.words[i])
  }

  ghost predicate LaneMeans(word: int, peak: nat, code: int, quantized: nat)
    requires Finite(word)
  {
    && -127 <= code <= 127
    && IsNearestEven(2 * Abs(Fixed(word)) * 127, peak, Abs(code))
    && (Fixed(word) < 0 ==> code <= 0) && (Fixed(word) >= 0 ==> code >= 0)
    && (2 * Abs(Fixed(word)) == peak ==> Abs(code) == 127 && quantized == word)
    && Finite(quantized)
    && IsNearestCode(Mul(Abs(code), peak) * Q39, 127 * TWO_40, Code(quantized))
    && (quantized >= SIGN <==> code < 0)
  }

  lemma QuantizedLanes(words: seq<int>)
    requires ActQuant(words).Ok? && AllFinite(words)
    ensures QuantizedMeans(words, ActQuant(words).value)
  {
    hide Peak, LaneMeans, Fixed, Finite, QuantCode, Dequantize, Lattice;
    var q := ActQuant(words).value;
    var top := PeakIsFinite(words);
    forall i | 0 <= i < |words| ensures LaneMeans(words[i], q.maximum, q.codes[i], q.words[i]) {
      LaneMeaning(words[i], q.maximum, top);
    }
  }

  lemma LaneMeaning(word: int, peak: nat, top: nat)
    requires Finite(word) && peak > 0 && 2 * Abs(Fixed(word)) <= peak
    requires top <= MAX_FINITE && peak <= 2 * Lattice(top)
    ensures LaneMeans(word, peak, QuantCode(word, peak), Dequantize(QuantCode(word, peak), peak))
  {
    hide Fixed, IsNearestEven, IsNearestCode, QuantCode, Encode, Lattice, Finite;
    var code := QuantCode(word, peak);
    QuantCodeMeaning(word, peak);
    DequantizeFinite(code, peak, top);
    EncodeNearest(Mul(Abs(code), peak), 127 * TWO_40);
    R.SignedCodeOf(Encode(Mul(Abs(code), peak), 127 * TWO_40), Dequantize(code, peak));
    if 2 * Abs(Fixed(word)) == peak {
      PeakLaneReturns(word, peak);
    }
  }

  // ---- Ternary sums ----

  lemma {:induction false} DotBound(row: seq<int>, values: seq<int>, limit: nat)
    requires |row| <= |values|
    requires forall w <- row :: Ternary(w)
    requires forall i :: 0 <= i < |values| ==> Abs(values[i]) <= limit
    ensures Abs(Dot(row, values)) <= |row| * limit
  {
    if row == [] {
    } else {
      var last := |row| - 1;
      assert forall w <- row[..last] :: w in row;
      DotBound(row[..last], values, limit);
      assert row[last] in row;
      TernaryProduct(row[last], values[last]);
      assert (last + 1) * limit == last * limit + limit;
    }
  }

  lemma TernaryProduct(w: int, v: int)
    requires Ternary(w)
    ensures Abs(w * v) <= Abs(v)
  {
  }

  ghost predicate AllTernary(weights: seq<int>, from: nat, to: nat)
    requires to <= |weights|
  {
    forall i :: from <= i < to ==> Ternary(weights[i])
  }

  /** `total` is the dot product of row k of the matrix and the values. */
  ghost predicate IsRowDot(weights: seq<int>, k: nat, cols: nat, values: seq<int>, total: int)
    requires |values| == cols
  {
    && (k + 1) * cols <= |weights|
    && total == Dot(RowOf(weights, k, cols), values)
    && Abs(total) < TWO_84
  }

  /** A ternary sum over at most 6912 finite words stays below 2^84, so the accumulator guard
      of `linear` never fires: the sums succeed exactly on ternary matrices, with the exact dot
      product of every row. */
  lemma {:induction false} TotalsBounded(weights: seq<int>, rows: nat, cols: nat, vector: seq<int>)
    requires rows * cols <= |weights| && |vector| == cols <= W.MAX_LENGTH && AllFinite(vector)
    ensures var r := Totals(weights, rows, cols, FixedAll(vector));
      && (r.Ok? <==> AllTernary(weights, 0, rows * cols))
      && (r.Err? ==> r.error == InvalidWeight)
      && (r.Ok? ==> |r.value| == rows)
      && (r.Ok? ==> forall k :: 0 <= k < rows ==> IsRowDot(weights, k, cols, FixedAll(vector), r.value[k]))
  {
    hide FixedAll, Dot, RowOf, Abs, Ternary, IsRowDot;
    if rows == 0 {
    } else {
      MulOrder(cols, rows - 1, rows);
      TotalsBounded(weights, rows - 1, cols, vector);
      LastRow(weights, rows - 1, cols, vector);
      TernarySplit(weights, (rows - 1) * cols, rows * cols);
    }
  }

  lemma TernarySplit(weights: seq<int>, a: nat, b: nat)
    requires a <= b <= |weights|
    ensures AllTernary(weights, 0, b) <==> AllTernary(weights, 0, a) && AllTernary(weights, a, b)
  {
    hide Ternary;
  }

  lemma LastRow(weights: seq<int>, k: nat, cols: nat, vector: seq<int>)
    requires (k + 1) * cols <= |weights| && |vector| == cols <= W.MAX_LENGTH && AllFinite(vector)
    ensures k * cols <= (k + 1) * cols
    ensures TernaryRow(RowOf(weights, k, cols)) <==> AllTernary(weights, k * cols, (k + 1) * cols)
    ensures (forall w <- RowOf(weights, k, cols) :: Ternary(w)) ==>
      && Abs(Dot(RowOf(weights, k, cols), FixedAll(vector))) < TWO_84
      && IsRowDot(weights, k, cols, FixedAll(vector), Dot(RowOf(weights, k, cols), FixedAll(vector)))
  {
    hide Dot, Ternary;
    MulOrder(cols, k, k + 1);
    var row := RowOf(weights, k, cols);
    RowIsSlice(weights, row, k * cols, (k + 1) * cols);
    if forall w <- row :: Ternary(w) {
      assert |row| == cols;
      RowDotBound(row, vector);
    }
  }

  lemma RowIsSlice(weights: seq<int>, row: seq<int>, a: nat, b: nat)
    requires a <= b <= |weights| && row == weights[a..b]
    ensures TernaryRow(row) <==> AllTernary(weights, a, b)
  {
    hide Ternary;
    forall i | a <= i < b ensures weights[i] in row {
      assert weights[i] == row[i - a];
    }
  }

  lemma RowDotBound(row: seq<int>, vector: seq<int>)
    requires |row| == |vector| <= W.MAX_LENGTH && AllFinite(vector)
    requires forall w <- row :: Ternary(w)
    ensures Abs(Dot(row, FixedAll(vector))) < TWO_84
  {
    hide Fixed, Dot;
    var values := FixedAll(vector);
    var limit: nat := 0x7f_ffff_ffff_ffff_ffff; // 2^71 - 1
    forall i | 0 <= i < |values| ensures Abs(values[i]) <= limit {
      FixedBelow(vector[i]);
    }
    DotBound(row, values, limit);
    MulOrder(limit, |row|, W.MAX_LENGTH);
  }

  lemma FixedBelow(word: int)
    requires Finite(word)
    ensures Abs(Fixed(word)) < TWO_71
  {
    FixedMagnitude(word);
    hide Lattice, Fixed;
    LatticeIncreasing(Code(word), INFINITY);
    LatticeInfinity();
  }

  // ---- Projections ----

  lemma {:induction false} ScaleAllLanes(dots: seq<nat>, scale: int)
    requires Finite(scale) && forall i :: 0 <= i < |dots| ==> Finite(dots[i])
    ensures ScaleAll(dots, scale).Ok? && |ScaleAll(dots, scale).value| == |dots|
    ensures forall i :: 0 <= i < |dots| ==>
      R.OutputMeans(dots[i], scale, ScaleAll(dots, scale).value[i])
  {
    hide Finite, Fixed, Encode, Mul, Pow2, R.OutputMeans, W.Multiply;
    if dots == [] {
    } else {
      var last := |dots| - 1;
      ScaleAllLanes(dots[..last], scale);
      OneOutput(dots[last], scale);
    }
  }

  lemma OneOutput(dot: int, scale: int)
    requires Finite(dot) && Finite(scale)
    ensures W.Multiply(dot, scale).Ok? && R.OutputMeans(dot, scale, W.Multiply(dot, scale).value)
  {
    hide Finite, Fixed, Encode, Mul, Pow2, W.Multiply;
    N.MultiplyRoundsOnce(dot, scale);
  }

  /** A dot word is the correctly rounded exact dot product over 2^39, with its sign. */
  ghost predicate DotMeans(total: int, dot: nat) {
    && IsNearestCode(Abs(total) * Q39, Q39, Code(dot))
    && (dot >= SIGN <==> total < 0)
  }

  lemma DotWordMeans(total: int)
    ensures DotMeans(total, DotWord(total))
  {
    hide Encode, IsNearestCode;
    EncodeNearest(Abs(total), Q39);
    R.SignedCodeOf(Encode(Abs(total), Q39), DotWord(total));
  }

  ghost predicate ShapesAgree(weights: seq<int>, rows: int, cols: nat, vector: seq<int>) {
    rows > 0 && |weights| == rows * cols && |vector| == cols <= W.MAX_LENGTH
  }

  /** A projection of a finite vector of at most 6912 words by a ternary matrix fails only
      where a dot or a scaled dot overflows; otherwise every output is the scale times the
      correctly rounded exact dot product, itself correctly rounded. */
  lemma LinearMeaning(weights: seq<int>, rows: int, cols: nat, vector: seq<int>, scale: int)
    requires ShapesAgree(weights, rows, cols, vector) && AllFinite(vector) && Finite(scale)
    requires AllTernary(weights, 0, |weights|)
    ensures var r := Linear(weights, rows, cols, vector, scale);
      && (r.Err? ==> r.error in {NonfiniteDot, NonfiniteScaled})
      && (r.Ok? ==> |r.value.output| == |r.value.dots| == rows && AllFinite(r.value.output))
      && (r.Ok? ==> forall k :: 0 <= k < rows ==> RowMeans(weights, k, cols, FixedAll(vector), scale, r.value))
  {
    hide Ternary, Finite, Totals, FixedAll, Scaled, RowMeans, AllTernary, IsRowDot;
    TotalsBounded(weights, rows, cols, vector);
    forall w <- vector ensures Finite(w) {}
    var totals := Totals(weights, rows, cols, FixedAll(vector)).value;
    ScaledMeaning(totals, scale);
    var r := Scaled(totals, scale);
    if r.Ok? {
      RowsMean(weights, rows, cols, FixedAll(vector), scale, r.value, totals);
    }
  }

  /** The dot words are the totals' words, and every output is finite and means its dot times the
      scale. */
  lemma ScaledMeaning(totals: seq<int>, scale: int)
    requires Finite(scale)
    ensures var r := Scaled(totals, scale);
      && (r.Err? ==> r.error in {NonfiniteDot, NonfiniteScaled})
      && (r.Ok? ==> |r.value.output| == |r.value.dots| == |totals| && AllFinite(r.value.output))
      && (r.Ok? ==> forall k :: 0 <= k < |totals| ==>
            r.value.dots[k] == DotWord(totals[k]) && R.OutputMeans(r.value.dots[k], scale, r.value.output[k]))
  {
    hide Finite, ScaleAll, DotWord, R.OutputMeans;
    var dots := seq(|totals|, i requires 0 <= i < |totals| => DotWord(totals[i]));
    if forall d <- dots :: Finite(d) {
      FiniteMembers(dots);
      ScaleAllLanes(dots, scale);
      var output := ScaleAll(dots, scale).value;
      if forall d <- output :: Finite(d) {
        FiniteMembers(output);
      }
    }
  }

  lemma RowsMean(weights: seq<int>, rows: nat, cols: nat, values: seq<int>, scale: int, p: Projection, totals: seq<int>)
    requires |values| == cols && |totals| == |p.dots| == |p.output| == rows
    requires forall k :: 0 <= k < rows ==> IsRowDot(weights, k, cols, values, totals[k])
    requires forall k ::
        0 <= k < rows ==> p.dots[k] == DotWord(totals[k]) && R.OutputMeans(p.dots[k], scale, p.output[k])
    ensures forall k :: 0 <= k < rows ==> RowMeans(weights, k, cols, values, scale, p)
  {
    hide IsRowDot, DotMeans, R.OutputMeans, DotWord;
    forall k | 0 <= k < rows ensures RowMeans(weights, k, cols, values, scale, p) {
      DotWordMeans(totals[k]);
    }
  }

  lemma FiniteMembers(words: seq<nat>)
    requires forall w <- words :: Finite(w)
    ensures AllFinite(words)
  {
    hide Finite;
    forall i | 0 <= i < |words| ensures Finite(words[i]) { assert words[i] in words; }
  }

  /** Output k of a projection: its dot rounds the exact dot product of row k, its output the
      dot times the scale. */
  ghost predicate RowMeans(weights: seq<int>, k: nat, cols: nat, values: seq<int>, scale: int, p: Projection)
    requires |values| == cols
  {
    && k < |p.dots| && k < |p.output|
    && (exists total :: IsRowDot(weights, k, cols, values, total) && DotMeans(total, p.dots[k]))
    && R.OutputMeans(p.dots[k], scale, p.output[k])
  }

  // ---- The block ----

  ghost predicate WellFormed(model: Model, x: seq<int>) {
    var (inner, hidden) := model.gateShape;
    var (output, downCols) := model.downShape;
    && 1 <= hidden <= 2560 && 1 <= inner <= 6912 && 1 <= output <= 2560
    && model.upShape == (inner, hidden) && downCols == inner
    && |x| == hidden && |model.wPost| == hidden && |model.wSub| == inner
    && |model.gate| == inner * hidden && |model.up| == inner * hidden && |model.down| == output * inner
    && AllTernary(model.gate, 0, |model.gate|) && AllTernary(model.up, 0, |model.up|)
    && AllTernary(model.down, 0, |model.down|)
    && AllFinite(x) && AllFinite(model.wPost) && AllFinite(model.wSub)
    && Finite(model.scaleGate) && Finite(model.scaleUp) && Finite(model.scaleDown)
  }

  /** A norm of finite rows of one length in 1..6912 fails only on an overflowed output; a
      result without one is finite throughout. */
  lemma NormOutcome(gate: seq<int>, up: seq<int>, weights: seq<int>, nonfinite: Error)
    requires |gate| == |up| == |weights| && 1 <= |gate| <= W.MAX_LENGTH
    requires AllFinite(gate) && AllFinite(up) && AllFinite(weights)
    ensures var r := Norm(gate, up, weights, nonfinite);
      && (r.Err? ==> r.error == nonfinite)
      && (r.Ok? ==> |r.value.1.output| == |gate| && AllFinite(r.value.1.output))
  {
    hide Finite, W.NormRow;
    R.RowTotal(gate, up, weights);
    var r := W.NormRow(gate, up, weights).value;
    RowOutputs(gate, up, weights);
  }

  lemma RowOutputs(gate: seq<int>, up: seq<int>, weights: seq<int>)
    requires W.NormRow(gate, up, weights).Ok? && 1 <= |gate|
    ensures var r := W.NormRow(gate, up, weights).value;
      |r.1.output| == |gate| && (r.1.overflow == 0 <==> AllFinite(r.1.output))
  {
    hide W.NormRow;
    R.RowMeaning(gate, up, weights, 0);
    R.RowOverflow(gate, up, weights);
  }

  /** On a well-formed model the block fails only by overflow to a nonfinite word at a place
      its contract names: a norm output, a dot or a scaled dot. No bound, domain, length or
      finiteness guard of any inner operation is ever the reason. */
  lemma EvaluateOutcomes(model: Model, x: seq<int>)
    requires WellFormed(model, x)
    ensures Evaluate(model, x).Err? ==>
      Evaluate(model, x).error in {NonfinitePostNorm, NonfiniteSubNorm, NonfiniteDot, NonfiniteScaled}
  {
    hide Finite, Ternary, Norm, ActQuant, Linear;
    var (inner, hidden) := model.gateShape;
    var (output, downCols) := model.downShape;
    var ones := seq(hidden, _ => ONE);
    OneIsFinite();
    NormOutcome(ones, x, model.wPost, NonfinitePostNorm);
    var post := Norm(ones, x, model.wPost, NonfinitePostNorm);
    if post.Ok? {
      var h := post.value.1.output;
      ActQuantTotal(h);
      QuantizedFinite(h, ActQuant(h).value);
      var qh := ActQuant(h).value.words;
      LinearMeaning(model.gate, inner, hidden, qh, model.scaleGate);
      LinearMeaning(model.up, inner, hidden, qh, model.scaleUp);
      var g := Linear(model.gate, inner, hidden, qh, model.scaleGate);
      var u := Linear(model.up, inner, hidden, qh, model.scaleUp);
      if g.Ok? && u.Ok? {
        NormOutcome(g.value.output, u.value.output, model.wSub, NonfiniteSubNorm);
        var sub := Norm(g.value.output, u.value.output, model.wSub, NonfiniteSubNorm);
        if sub.Ok? {
          var s := sub.value.1.output;
          ActQuantTotal(s);
          QuantizedFinite(s, ActQuant(s).value);
          LinearMeaning(model.down, output, inner, ActQuant(s).value.words, model.scaleDown);
        }
      }
    }
  }

  /** A norm without overflow: every stage of every lane is its exact value rounded once, and every
      output is finite. */
  ghost predicate NormMeans(gate: seq<int>, up: seq<int>, weights: seq<int>, norm: NormOut) {
    && |norm.0| == |norm.1.magnitudes| == |norm.1.unit| == |norm.1.output| == |gate| == |up| == |weights|
    && AllFinite(norm.1.output)
    && forall i :: 0 <= i < |gate| ==> LaneOfNorm(gate[i], up[i], weights[i], |gate|, norm, i)
  }

  ghost predicate LaneOfNorm(gate: int, up: int, weight: int, n: nat, norm: NormOut, i: nat)
    requires i < |norm.0| == |norm.1.magnitudes| == |norm.1.unit| == |norm.1.output|
  {
    && W.Product(gate, up) == Ok(norm.0[i])
    && R.BlockMeans(norm.1) && R.MagnitudeMeans(norm.0[i], norm.1.block, norm.1.magnitudes[i])
    && R.ScaleMeans(n, norm.1)
    && R.UnitMeans(norm.0[i], norm.1.magnitudes[i], norm.1.root, norm.1.unit[i])
    && R.OutputMeans(norm.1.unit[i], weight, norm.1.output[i])
  }

  lemma NormLanes(gate: seq<int>, up: seq<int>, weights: seq<int>, nonfinite: Error)
    requires |gate| >= 1 && Norm(gate, up, weights, nonfinite).Ok?
    ensures NormMeans(gate, up, weights, Norm(gate, up, weights, nonfinite).value)
  {
    hide W.NormRow, R.BlockMeans, R.MagnitudeMeans, R.ScaleMeans, R.UnitMeans, R.OutputMeans, W.Product, Finite;
    var norm := Norm(gate, up, weights, nonfinite).value;
    RowOutputs(gate, up, weights);
    R.RowMeaning(gate, up, weights, 0);
    forall i | 0 <= i < |gate| ensures LaneOfNorm(gate[i], up[i], weights[i], |gate|, norm, i) {
      R.RowMeaning(gate, up, weights, i);
    }
  }

  /** A projection whose every output rounds the exact dot product of its row, and then its scaled
      value. */
  ghost predicate ProjectionMeans(weights: seq<int>, rows: int, cols: nat, vector: seq<int>, scale: int,
                                  p: Projection) {
    && AllFinite(vector) && |vector| == cols
    && |p.output| == |p.dots| == rows && AllFinite(p.output)
    && forall k :: 0 <= k < rows ==> RowMeans(weights, k, cols, FixedAll(vector), scale, p)
  }

  /** What the stages of a block mean, from its input to its output. */
  ghost predicate StagesMean(model: Model, x: seq<int>, st: Stages) {
    var (inner, hidden) := model.gateShape;
    var output := model.downShape.0;
    && hidden >= 0 && inner >= 0
    && NormMeans(seq(hidden, _ => ONE), x, model.wPost, st.postNorm)
    && QuantizedMeans(st.postNorm.1.output, st.quantH)
    && ProjectionMeans(model.gate, inner, hidden, st.quantH.words, model.scaleGate, st.gate)
    && ProjectionMeans(model.up, inner, hidden, st.quantH.words, model.scaleUp, st.up)
    && NormMeans(st.gate.output, st.up.output, model.wSub, st.subNorm)
    && QuantizedMeans(st.subNorm.1.output, st.quantS)
    && ProjectionMeans(model.down, output, inner, st.quantS.words, model.scaleDown, st.down)
  }

  lemma ProjectionLanes(weights: seq<int>, rows: int, cols: nat, vector: seq<int>, scale: int)
    requires ShapesAgree(weights, rows, cols, vector) && AllFinite(vector) && Finite(scale)
    requires AllTernary(weights, 0, |weights|) && Linear(weights, rows, cols, vector, scale).Ok?
    ensures ProjectionMeans(weights, rows, cols, vector, scale, Linear(weights, rows, cols, vector, scale).value)
  {
    hide Finite, Linear, RowMeans, AllTernary;
    LinearMeaning(weights, rows, cols, vector, scale);
  }

  /** Whenever the block succeeds, every number it returns, at every stage, is its exact value from
      the stage before rounded once. */
  lemma EvaluateMeaning(model: Model, x: seq<int>)
    requires WellFormed(model, x) && Evaluate(model, x).Ok?
    ensures StagesMean(model, x, Evaluate(model, x).value)
  {
    hide Finite, Ternary, Norm, ActQuant, Linear, NormMeans, QuantizedMeans, ProjectionMeans, AllTernary;
    var (inner, hidden) := model.gateShape;
    var output := model.downShape.0;
    var st := Evaluate(model, x).value;
    var ones := seq(hidden, _ => ONE);
    OneIsFinite();
    NormOutcome(ones, x, model.wPost, NonfinitePostNorm);
    NormLanes(ones, x, model.wPost, NonfinitePostNorm);
    ActQuantTotal(st.postNorm.1.output);
    QuantizedFinite(st.postNorm.1.output, st.quantH);
    LinearMeaning(model.gate, inner, hidden, st.quantH.words, model.scaleGate);
    LinearMeaning(model.up, inner, hidden, st.quantH.words, model.scaleUp);
    ProjectionLanes(model.gate, inner, hidden, st.quantH.words, model.scaleGate);
    ProjectionLanes(model.up, inner, hidden, st.quantH.words, model.scaleUp);
    NormOutcome(st.gate.output, st.up.output, model.wSub, NonfiniteSubNorm);
    NormLanes(st.gate.output, st.up.output, model.wSub, NonfiniteSubNorm);
    ActQuantTotal(st.subNorm.1.output);
    QuantizedFinite(st.subNorm.1.output, st.quantS);
    ProjectionLanes(model.down, output, inner, st.quantS.words, model.scaleDown);
  }

  lemma OneIsFinite()
    ensures Finite(ONE)
  {
  }

  lemma QuantizedFinite(words: seq<int>, q: Quantized)
    requires QuantizedMeans(words, q)
    ensures AllFinite(q.words) && |q.words| == |words|
  {
    hide Finite, Fixed, IsNearestEven, IsNearestCode;
  }

  // ---- Exactly when each part fails ----

  /** A word overflows in the product with the scale. */
  ghost predicate ScaledOverflows(dot: nat, scale: int) {
    Finite(dot) && exists out: nat :: R.OutputMeans(dot, scale, out) && !Finite(out)
  }

  /** The words of some totals fail exactly where a dot is not finite, or else where a scaled dot is
      not. */
  lemma ScaledFails(totals: seq<int>, scale: int)
    requires Finite(scale)
    ensures var r := Scaled(totals, scale);
      && (r == Err(NonfiniteDot) <==> exists k :: 0 <= k < |totals| && !Finite(DotWord(totals[k])))
      && (r == Err(NonfiniteScaled) <==>
            && (forall k :: 0 <= k < |totals| ==> Finite(DotWord(totals[k])))
            && exists k :: 0 <= k < |totals| && ScaledOverflows(DotWord(totals[k]), scale))
  {
    hide Finite, ScaleAll, DotWord, R.OutputMeans, ScaledOverflows;
    var dots := seq(|totals|, i requires 0 <= i < |totals| => DotWord(totals[i]));
    DotsFinite(totals, dots);
    if forall d <- dots :: Finite(d) {
      ScaleAllLanes(dots, scale);
      var output := ScaleAll(dots, scale).value;
      forall k | 0 <= k < |totals|
        ensures ScaledOverflows(DotWord(totals[k]), scale) <==> !Finite(output[k]) {
        OneOverflow(dots[k], scale, output[k]);
      }
      OutputsFinite(output);
    }
  }

  lemma DotsFinite(totals: seq<int>, dots: seq<nat>)
    requires |dots| == |totals| && forall i :: 0 <= i < |totals| ==> dots[i] == DotWord(totals[i])
    ensures (exists d <- dots :: !Finite(d)) <==> exists k :: 0 <= k < |totals| && !Finite(DotWord(totals[k]))
  {
    hide Finite, DotWord;
    forall k | 0 <= k < |totals| ensures DotWord(totals[k]) in dots {
      assert dots[k] in dots;
    }
  }

  lemma OutputsFinite(output: seq<nat>)
    ensures (exists w <- output :: !Finite(w)) <==> exists k :: 0 <= k < |output| && !Finite(output[k])
  {
    hide Finite;
    forall k | 0 <= k < |output| ensures output[k] in output {
    }
  }

  lemma OneOverflow(dot: nat, scale: int, out: nat)
    requires Finite(dot) && R.OutputMeans(dot, scale, out)
    ensures ScaledOverflows(dot, scale) <==> !Finite(out)
  {
    hide Finite, Encode, Mul, Fixed, Pow2;
  }

  /** Row k's dot product, exact, as its word. */
  ghost predicate DotOverflows(weights: seq<int>, k: nat, cols: nat, values: seq<int>)
    requires |values| == cols
  {
    exists total :: IsRowDot(weights, k, cols, values, total) && !Finite(DotWord(total))
  }

  ghost predicate RowOverflows(weights: seq<int>, k: nat, cols: nat, values: seq<int>, scale: int)
    requires |values| == cols
  {
    exists total :: IsRowDot(weights, k, cols, values, total) && ScaledOverflows(DotWord(total), scale)
  }

  /** A projection fails exactly where a row's dot product overflows, or else where a scaled one
      does. */
  lemma LinearFails(weights: seq<int>, rows: int, cols: nat, vector: seq<int>, scale: int)
    requires ShapesAgree(weights, rows, cols, vector) && AllFinite(vector) && Finite(scale)
    requires AllTernary(weights, 0, |weights|)
    ensures var r, values := Linear(weights, rows, cols, vector, scale), FixedAll(vector);
      && (r == Err(NonfiniteDot) <==> exists k: nat :: k < rows && DotOverflows(weights, k, cols, values))
      && (r == Err(NonfiniteScaled) <==>
            && (forall k: nat :: k < rows ==> !DotOverflows(weights, k, cols, values))
            && exists k: nat :: k < rows && RowOverflows(weights, k, cols, values, scale))
  {
    hide Ternary, Finite, Totals, FixedAll, Scaled, AllTernary, IsRowDot, DotOverflows, RowOverflows, ScaledOverflows,
         DotWord;
    TotalsBounded(weights, rows, cols, vector);
    forall w <- vector ensures Finite(w) {}
    var totals := Totals(weights, rows, cols, FixedAll(vector)).value;
    ScaledFails(totals, scale);
    forall k: nat | k < rows
      ensures DotOverflows(weights, k, cols, FixedAll(vector)) <==> !Finite(DotWord(totals[k]))
      ensures RowOverflows(weights, k, cols, FixedAll(vector), scale) <==> ScaledOverflows(DotWord(totals[k]), scale)
    {
      OneRowDot(weights, k, cols, FixedAll(vector), totals[k], scale);
    }
  }

  lemma OneRowDot(weights: seq<int>, k: nat, cols: nat, values: seq<int>, total: int, scale: int)
    requires |values| == cols && IsRowDot(weights, k, cols, values, total)
    ensures DotOverflows(weights, k, cols, values) <==> !Finite(DotWord(total))
    ensures RowOverflows(weights, k, cols, values, scale) <==> ScaledOverflows(DotWord(total), scale)
  {
    hide Finite, DotWord, ScaledOverflows, Dot, RowOf;
  }

  /** A norm of finite rows fails exactly when one of its outputs overflows. */
  lemma NormFails(gate: seq<int>, up: seq<int>, weights: seq<int>, nonfinite: Error)
    requires |gate| == |up| == |weights| && 1 <= |gate| <= W.MAX_LENGTH
    requires AllFinite(gate) && AllFinite(up) && AllFinite(weights)
    ensures W.NormRow(gate, up, weights).Ok?
    ensures var row := W.NormRow(gate, up, weights).value;
      Norm(gate, up, weights, nonfinite) == if AllFinite(row.1.output) then Ok(row) else Err(nonfinite)
  {
    hide Finite, W.NormRow;
    R.RowTotal(gate, up, weights);
    RowOutputs(gate, up, weights);
  }

  /** On a well-formed model the block succeeds exactly when none of its stages overflows, and fails
      with the error of the first that does. */
  lemma EvaluateFails(model: Model, x: seq<int>)
    requires WellFormed(model, x)
    ensures var (inner, hidden) := model.gateShape;
      var output := model.downShape.0;
      var post := Norm(seq(hidden, _ => ONE), x, model.wPost, NonfinitePostNorm);
      if post.Err? then Evaluate(model, x) == Err(post.error) else
      ActQuant(post.value.1.output).Ok? &&
      var qh := ActQuant(post.value.1.output).value.words;
      var g := Linear(model.gate, inner, hidden, qh, model.scaleGate);
      if g.Err? then Evaluate(model, x) == Err(g.error) else
      var u := Linear(model.up, inner, hidden, qh, model.scaleUp);
      if u.Err? then Evaluate(model, x) == Err(u.error) else
      var sub := Norm(g.value.output, u.value.output, model.wSub, NonfiniteSubNorm);
      if sub.Err? then Evaluate(model, x) == Err(sub.error) else
      ActQuant(sub.value.1.output).Ok? &&
      var y := Linear(model.down, output, inner, ActQuant(sub.value.1.output).value.words, model.scaleDown);
      if y.Err? then Evaluate(model, x) == Err(y.error) else Evaluate(model, x).Ok?
  {
    hide Finite, Ternary, Norm, ActQuant, Linear;
    var (inner, hidden) := model.gateShape;
    var ones := seq(hidden, _ => ONE);
    OneIsFinite();
    NormOutcome(ones, x, model.wPost, NonfinitePostNorm);
    var post := Norm(ones, x, model.wPost, NonfinitePostNorm);
    if post.Ok? {
      var h := post.value.1.output;
      ActQuantTotal(h);
      QuantizedFinite(h, ActQuant(h).value);
      var qh := ActQuant(h).value.words;
      LinearMeaning(model.gate, inner, hidden, qh, model.scaleGate);
      LinearMeaning(model.up, inner, hidden, qh, model.scaleUp);
      var g := Linear(model.gate, inner, hidden, qh, model.scaleGate);
      var u := Linear(model.up, inner, hidden, qh, model.scaleUp);
      if g.Ok? && u.Ok? {
        NormOutcome(g.value.output, u.value.output, model.wSub, NonfiniteSubNorm);
        var sub := Norm(g.value.output, u.value.output, model.wSub, NonfiniteSubNorm);
        if sub.Ok? {
          ActQuantTotal(sub.value.1.output);
        }
      }
    }
  }

  /** The gate of the first norm is one, and epsilon is 1e-5 in Q40, rounded to nearest. */
  lemma ConstantsMean()
    ensures Fixed(ONE) == Pow2(39) && IsNearestEven(0x100_0000_0000, 100000, EPS_Q40)
  {
    Pow2Small();
    Pow2Add(9, 30);
    hide Pow2;
    assert ONE % SIGN == 31 * 512;
    assert Lattice(31 * 512) == 512 * Pow2(30);
  }
}
