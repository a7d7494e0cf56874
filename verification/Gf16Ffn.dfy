/** The integer feed-forward contract gf16-ffn-v1: rational ActQuant, exact ternary sums and
    the pipeline of norms and projections around them. */
module Gf16Ffn {
  import opened Arithmetic
  import opened Gf16
  import opened Results
  import W = Gf16WideNorm

  const ONE: nat := 0x3e00
  const EPS_Q40: nat := 10995116
  const TWO_84: nat := 0x10_0000_0000_0000_0000_0000
  const TWO_40: nat := 0x100_0000_0000

  datatype Error =
    | ActQuantLength
    | NonfiniteWord
    | CodeBound
    | ShapeMismatch
    | NonfiniteScale
    | InvalidWeight
    | AccumulatorBound
    | NonfiniteDot
    | NonfiniteScaled
    | UnsupportedDimensions
    | InconsistentDimensions
    | NonfinitePostNorm
    | NonfiniteSubNorm
    | NormError(cause: W.Error)

  // ---- ActQuant ----

  datatype Quantized = Quantized(words: seq<nat>, codes: seq<int>, maximum: nat)

  /** The largest magnitude in Q40, not below epsilon. */
  function Peak(words: seq<int>): (peak: nat)
    requires AllFinite(words)
    ensures peak >= EPS_Q40
    ensures forall i :: 0 <= i < |words| ==> 2 * Abs(Fixed(words[i])) <= peak
    ensures peak == EPS_Q40 || exists i :: 0 <= i < |words| && 2 * Abs(Fixed(words[i])) == peak
  {
    if words == [] then EPS_Q40 else
      var last := |words| - 1;
      var rest := Peak(words[..last]);
      assert forall i :: 0 <= i < last ==> words[..last][i] == words[i];
      Max(rest, 2 * Abs(Fixed(words[last])))
  }

  function QuantCode(word: int, peak: nat): int
    requires Finite(word) && peak > 0
  {
    var magnitude := DivRne(2 * Abs(Fixed(word)) * 127, peak);
    if Fixed(word) < 0 then -magnitude else magnitude
  }

  function Dequantize(code: int, peak: nat): nat {
    EncodeRatio(Mul(Abs(code), peak), 127 * TWO_40, if code < 0 then SIGN else 0)
  }

  function ActQuant(words: seq<int>): Result<Quantized, Error> {
    if !(1 <= |words| <= W.MAX_LENGTH) then Err(ActQuantLength)
    else if exists w <- words :: !Finite(w) then Err(NonfiniteWord)
    else
      assert AllFinite(words) by { forall i | 0 <= i < |words| ensures Finite(words[i]) { assert words[i] in words; } }
      var peak := Peak(words);
      var codes := seq(|words|, i requires 0 <= i < |words| && Finite(words[i]) => QuantCode(words[i], peak));
      if exists k <- codes :: !(-127 <= k <= 127) then Err(CodeBound)
      else Ok(Quantized(seq(|codes|, i requires 0 <= i < |codes| => Dequantize(codes[i], peak)), codes, peak))
  }

  // ---- Ternary projection ----

  predicate Ternary(w: int) {
    w == -1 || w == 0 || w == 1
  }

  predicate TernaryRow(line: seq<int>) {
    forall w <- line :: Ternary(w)
  }

  /** The exact dot product of a weight row and the first |row| values. */
  function Dot(row: seq<int>, values: seq<int>): int
    requires |row| <= |values|
  {
    if row == [] then 0 else
      var last := |row| - 1;
      Dot(row[..last], values) + row[last] * values[last]
  }

  function FixedAll(words: seq<int>): (values: seq<int>)
    requires AllFinite(words)
    ensures |values| == |words| && forall i :: 0 <= i < |words| ==> values[i] == Fixed(words[i])
  {
    seq(|words|, i requires 0 <= i < |words| && Finite(words[i]) => Fixed(words[i]))
  }

  function RowOf(weights: seq<int>, row: nat, cols: nat): (line: seq<int>)
    requires (row + 1) * cols <= |weights|
    ensures |line| == cols
  {
    assert row * cols <= (row + 1) * cols;
    weights[row * cols..(row + 1) * cols]
  }

  /** The sum of every row, in order, ended by the first row with a weight outside {-1, 0, 1}
      or a total of 2^84 or more. */
  function Totals(weights: seq<int>, rows: nat, cols: nat, values: seq<int>): Result<seq<int>, Error>
    requires rows * cols <= |weights| && |values| == cols
  {
    if rows == 0 then Ok([]) else
      assert (rows - 1) * cols <= rows * cols by { MulOrder(cols, rows - 1, rows); }
      var rest :- Totals(weights, rows - 1, cols, values);
      var row := RowOf(weights, rows - 1, cols);
      if !TernaryRow(row) then Err(InvalidWeight)
      else if Abs(Dot(row, values)) >= TWO_84 then Err(AccumulatorBound)
      else Ok(rest + [Dot(row, values)])
  }

  /** The accumulation loops of `linear`. */
  method Accumulate(weights: seq<int>, rows: nat, cols: nat, values: seq<int>)
    returns (r: Result<seq<int>, Error>)
    requires |weights| == rows * cols && |values| == cols
    ensures r == Totals(weights, rows, cols, values)
  {
    hide Dot, TernaryRow, RowOf;
    var totals: seq<int> := [];
    assert Totals(weights, 0, cols, values) == Ok([]);
    var row := 0;
    while row < rows
      invariant row <= rows && row * cols <= rows * cols
      invariant Totals(weights, row, cols, values) == Ok(totals)
    {
      MulOrder(cols, row + 1, rows);
      NextTotal(weights, row, cols, values);
      var line := RowOf(weights, row, cols);
      var total := RowTotal(line, values);
      if total.None? {
        FailedRow(weights, row + 1, rows, cols, values);
        return Err(InvalidWeight);
      }
      if Abs(total.value) >= TWO_84 {
        FailedRow(weights, row + 1, rows, cols, values);
        return Err(AccumulatorBound);
      }
      totals := totals + [total.value];
      row := row + 1;
    }
    return Ok(totals);
  }

  /** The inner loop of `linear`: None at the first weight that is not ternary. */
  method RowTotal(line: seq<int>, values: seq<int>) returns (total: Option<int>)
    requires |line| <= |values|
    ensures total.None? <==> !TernaryRow(line)
    ensures total.Some? ==> total.value == Dot(line, values)
  {
    hide Ternary;
    var sum := 0;
    for c := 0 to |line|
      invariant sum == Dot(line[..c], values)
      invariant forall i :: 0 <= i < c ==> Ternary(line[i])
    {
      var weight := line[c];
      if !Ternary(weight) {
        assert weight in line;
        return None;
      }
      assert line[..c + 1][..c] == line[..c];
      sum := sum + weight * values[c];
    }
    assert line[..|line|] == line;
    total := Some(sum);
  }

  /** One more row of the totals. */
  lemma NextTotal(weights: seq<int>, row: nat, cols: nat, values: seq<int>)
    requires |values| == cols && row * cols <= (row + 1) * cols <= |weights|
    ensures var line := RowOf(weights, row, cols);
      Totals(weights, row + 1, cols, values)
      == match Totals(weights, row, cols, values)
         case Err(e) => Err(e)
         case Ok(rest) =>
           if !TernaryRow(line) then Err(InvalidWeight)
           else if Abs(Dot(line, values)) >= TWO_84 then Err(AccumulatorBound)
           else Ok(rest + [Dot(line, values)])
  {
    hide Dot, TernaryRow, RowOf;
  }

  lemma {:induction false} FailedRow(weights: seq<int>, row: nat, rows: nat, cols: nat, values: seq<int>)
    requires rows * cols <= |weights| && |values| == cols && row <= rows && row * cols <= |weights|
    requires Totals(weights, row, cols, values).Err?
    ensures Totals(weights, rows, cols, values) == Totals(weights, row, cols, values)
    decreases rows - row
  {
    if row >= rows {
    } else {
      MulOrder(cols, row + 1, rows);
      FailedRow(weights, row + 1, rows, cols, values);
    }
  }

  function DotWord(total: int): nat {
    EncodeRatio(Abs(total), Q39, if total < 0 then SIGN else 0)
  }

  datatype Projection = Projection(output: seq<nat>, dots: seq<nat>)

  function ScaleAll(dots: seq<nat>, scale: int): (output: Result<seq<nat>, Error>) {
    if dots == [] then Ok([]) else
      var last := |dots| - 1;
      var rest :- ScaleAll(dots[..last], scale);
      match W.Multiply(dots[last], scale)
      case Err(e) => Err(NormError(e))
      case Ok(word) => Ok(rest + [word])
  }

  function Linear(weights: seq<int>, rows: int, cols: nat, vector: seq<int>, scale: int): Result<Projection, Error> {
    if rows <= 0 || |weights| != rows * cols || |vector| != cols then Err(ShapeMismatch)
    else if !Finite(scale) then Err(NonfiniteScale)
    else if exists w <- vector :: !Finite(w) then Err(NonfiniteWord)
    else
      assert AllFinite(vector) by {
        forall i | 0 <= i < |vector| ensures Finite(vector[i]) {
          assert vector[i] in vector;
        }
      }
      var totals :- Totals(weights, rows, cols, FixedAll(vector));
      Scaled(totals, scale)
  }

  /** The dot words of the totals and their products with the scale. */
  function Scaled(totals: seq<int>, scale: int): Result<Projection, Error> {
    var dots := seq(|totals|, i requires 0 <= i < |totals| => DotWord(totals[i]));
    if exists d <- dots :: !Finite(d) then Err(NonfiniteDot)
    else
      var output :- ScaleAll(dots, scale);
      if exists w <- output :: !Finite(w) then Err(NonfiniteScaled)
      else Ok(Projection(output, dots))
  }

  // ---- The block ----

  /** Flat ternary matrices with their shapes, GF16 norm weights and scales. */
  datatype Model = Model(gate: seq<int>, up: seq<int>, down: seq<int>,
                         gateShape: (int, int), upShape: (int, int), downShape: (int, int),
                         wPost: seq<int>, wSub: seq<int>, scaleGate: int, scaleUp: int, scaleDown: int)

  /** A norm's products and its row. */
  type NormOut = (seq<nat>, W.Row)

  datatype Stages = Stages(postNorm: NormOut, quantH: Quantized, gate: Projection, up: Projection,
                           subNorm: NormOut, quantS: Quantized, down: Projection)

  function Norm(gate: seq<int>, up: seq<int>, weights: seq<int>, nonfinite: Error): Result<NormOut, Error> {
    match W.NormRow(gate, up, weights)
    case Err(e) => Err(NormError(e))
    case Ok(r) => if r.1.overflow > 0 then Err(nonfinite) else Ok(r)
  }

  function Evaluate(model: Model, x: seq<int>): Result<Stages, Error> {
    var (inner, hidden) := model.gateShape;
    var (output, downCols) := model.downShape;
    if !(1 <= hidden <= 2560 && 1 <= inner <= 6912 && 1 <= output <= 2560) then Err(UnsupportedDimensions)
    else if model.upShape != (inner, hidden) || downCols != inner || |x| != hidden
            || |model.wPost| != hidden || |model.wSub| != inner then Err(InconsistentDimensions)
    else
      var post :- Norm(seq(hidden, _ => ONE), x, model.wPost, NonfinitePostNorm);
      var qh :- ActQuant(post.1.output);
      var g :- Linear(model.gate, inner, hidden, qh.words, model.scaleGate);
      var u :- Linear(model.up, inner, hidden, qh.words, model.scaleUp);
      var sub :- Norm(g.output, u.output, model.wSub, NonfiniteSubNorm);
      var qs :- ActQuant(sub.1.output);
      var y :- Linear(model.down, output, inner, qs.words, model.scaleDown);
      Ok(Stages(post, qh, g, u, sub, qs, y))
  }
}
