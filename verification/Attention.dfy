/** The Q16.16 attention datapath: norms, ternary projections, rotary embedding, scores,
    integer softmax, context and residual over a causal prefill, with counted saturation. */
module Attention {
  import opened Arithmetic
  import opened ExpQ16

  const S32_MIN: int := -0x8000_0000
  const S32_MAX: int := 0x7fff_ffff
  const ONE_Q16: nat := 0x1_0000
  const EPS_Q32: nat := 42950

  // ---- Saturation ----

  function Clamp(x: int): int {
    if x < S32_MIN then S32_MIN else if x > S32_MAX then S32_MAX else x
  }

  predicate InS32(x: int) {
    S32_MIN <= x <= S32_MAX
  }

  function ClampAll(raw: seq<int>): (out: seq<int>)
    ensures |out| == |raw| && forall i :: 0 <= i < |raw| ==> out[i] == Clamp(raw[i])
  {
    seq(|raw|, i requires 0 <= i < |raw| => Clamp(raw[i]))
  }

  /** How many values clamp_s32 records as saturated. */
  function Saturated(raw: seq<int>): nat {
    if raw == [] then 0 else Saturated(raw[..|raw| - 1]) + if InS32(raw[|raw| - 1]) then 0 else 1
  }

  // ---- Norm ----

  function SumSquares(v: seq<int>): nat {
    if v == [] then 0 else SumSquares(v[..|v| - 1]) + Square(Abs(v[|v| - 1]))
  }

  function Rms(v: seq<int>): (rms: nat)
    requires v != []
  {
    var mean := DivRne(SumSquares(v), |v|);
    MeanNonNegative(SumSquares(v), |v|);
    Isqrt((mean + EPS_Q32) * TWO_32)
  }

  lemma MeanNonNegative(total: nat, n: nat)
    requires n > 0
    ensures DivRne(total, n) >= 0
  {
    DivRneMonotone(0, 1, total, n);
  }

  /** Epsilon keeps the root mean square away from zero. */
  lemma RmsPositive(v: seq<int>)
    requires v != []
    ensures Rms(v) > 0
  {
    hide Isqrt, DivRne;
    MeanNonNegative(SumSquares(v), |v|);
  }

  /** The norm before clamping: one rounding of the exact numerator over the rms per lane. */
  function NormRaw(v: seq<int>, w: seq<int>): (raw: seq<int>)
    requires v != [] && |w| == |v|
    ensures |raw| == |v|
  {
    RmsPositive(v);
    seq(|v|, i requires 0 <= i < |v| => DivRne(v[i] * w[i] * ONE_Q16, Rms(v)))
  }

  // ---- Ternary projection ----

  function Signed(trit: int, x: int): int {
    if trit > 0 then x else if trit < 0 then -x else 0
  }

  function TritDot(row: seq<int>, vec: seq<int>): int
    requires |row| <= |vec|
  {
    if row == [] then 0 else
      var last := |row| - 1;
      TritDot(row[..last], vec) + Signed(row[last], vec[last])
  }

  function RowOf(trits: seq<int>, row: nat, cols: nat): (line: seq<int>)
    requires (row + 1) * cols <= |trits|
    ensures |line| == cols
  {
    assert row * cols <= (row + 1) * cols;
    trits[row * cols..(row + 1) * cols]
  }

  function ProjectRaw(trits: seq<int>, rows: nat, vec: seq<int>, scale: int): (raw: seq<int>)
    requires rows * |vec| <= |trits|
    ensures |raw| == rows
  {
    if rows == 0 then [] else
      assert (rows - 1) * |vec| <= rows * |vec| by { MulOrder(|vec|, rows - 1, rows); }
      ProjectRaw(trits, rows - 1, vec, scale)
        + [DivRne(TritDot(RowOf(trits, rows - 1, |vec|), vec) * scale, ONE_Q16)]
  }

  // ---- Rotary embedding ----

  /** (cos, sin) per pair. */
  type Table = seq<(int, int)>

  function RopeRaw(vec: seq<int>, table: Table): (raw: seq<int>)
    requires |vec| == 2 * |table|
    ensures |raw| == |vec|
  {
    var pairs := |table|;
    seq(|vec|, i requires 0 <= i < |vec| =>
      if i < pairs then DivRne(vec[i] * table[i].0 - vec[pairs + i] * table[i].1, ONE_Q16)
      else DivRne(vec[i] * table[i - pairs].0 + vec[i - pairs] * table[i - pairs].1, ONE_Q16))
  }

  /** Every head of a flat vector rotated on its own. */
  function RopeHeadsRaw(flat: seq<int>, heads: nat, table: Table): (raw: seq<int>)
    requires |flat| == heads * (2 * |table|)
    ensures |raw| == |flat|
  {
    if heads == 0 then [] else
      var d := 2 * |table|;
      HeadSplit(heads, d);
      var last := |flat| - d;
      RopeHeadsRaw(flat[..last], heads - 1, table) + RopeRaw(flat[last..], table)
  }

  lemma HeadSplit(heads: nat, d: nat)
    requires heads > 0
    ensures heads * d == (heads - 1) * d + d && 0 <= (heads - 1) * d <= heads * d
  {
  }

  // ---- Scores, softmax, context ----

  function Dot(a: seq<int>, b: seq<int>): int
    requires |a| <= |b|
  {
    if a == [] then 0 else
      var last := |a| - 1;
      Dot(a[..last], b) + a[last] * b[last]
  }

  /** The score of one head's query against every cached key, before clamping. */
  function ScoresRaw(query: seq<int>, keys: seq<seq<int>>, scaling: int): (raw: seq<int>)
    requires forall k <- keys :: |k| >= |query|
    ensures |raw| == |keys|
  {
    seq(|keys|, j requires 0 <= j < |keys| && |keys[j]| >= |query| => DivRne(Dot(query, keys[j]) * scaling, TWO_32))
  }

  function MaxOf(s: seq<int>): (peak: int)
    requires s != []
    ensures forall i :: 0 <= i < |s| ==> s[i] <= peak
    ensures exists i :: 0 <= i < |s| && s[i] == peak
  {
    var last := |s| - 1;
    if last == 0 then s[0] else
      var rest := MaxOf(s[..last]);
      assert forall i :: 0 <= i < last ==> s[..last][i] == s[i];
      Max(rest, s[last])
  }

  /** exp_q16 of a score's distance below the peak. */
  function Weight(score: int, peak: int): (e: nat)
    requires score <= peak
    ensures e <= ONE_Q16
  {
    hide Exp;
    ExpRange(score - peak);
    Exp(score - peak)
  }

  function Exps(scores: seq<int>): (exps: seq<nat>)
    requires scores != []
    ensures |exps| == |scores|
    ensures forall j :: 0 <= j < |exps| ==> scores[j] <= MaxOf(scores) && exps[j] == Weight(scores[j], MaxOf(scores))
  {
    hide Weight, MaxOf;
    var peak := MaxOf(scores);
    seq(|scores|, j requires 0 <= j < |scores| && scores[j] <= peak => Weight(scores[j], peak))
  }

  function Total(exps: seq<nat>): nat {
    if exps == [] then 0 else Total(exps[..|exps| - 1]) + exps[|exps| - 1]
  }

  /** Weighted sum of one lane of the cached values. */
  function Weighted(exps: seq<nat>, lane: seq<int>): int
    requires |exps| <= |lane|
  {
    if exps == [] then 0 else
      var last := |exps| - 1;
      Weighted(exps[..last], lane) + exps[last] * lane[last]
  }

  /** Lane d of every cached vector, in position order. */
  function Lane(vs: seq<seq<int>>, d: nat): (lane: seq<int>)
    requires forall v <- vs :: d < |v|
    ensures |lane| == |vs|
    ensures forall j :: 0 <= j < |vs| ==> d < |vs[j]| && lane[j] == vs[j][d]
  {
    seq(|vs|, j requires 0 <= j < |vs| => assert vs[j] in vs; vs[j][d])
  }

  function ContextRaw(exps: seq<nat>, values: seq<seq<int>>, headDim: nat): (raw: seq<int>)
    requires |exps| == |values| && Total(exps) > 0
    requires forall v <- values :: |v| >= headDim
    ensures |raw| == headDim
  {
    seq(headDim, d requires 0 <= d < headDim => DivRne(Weighted(exps, Lane(values, d)), Total(exps)))
  }

  function Probabilities(exps: seq<nat>): (p: seq<int>)
    requires Total(exps) > 0
    ensures |p| == |exps|
  {
    seq(|exps|, j requires 0 <= j < |exps| => DivRne(exps[j] * ONE_Q16, Total(exps)))
  }

  lemma {:induction false} TotalAtLeast(exps: seq<nat>, j: nat)
    requires j < |exps|
    ensures exps[j] <= Total(exps)
  {
    if j >= |exps| - 1 {
    } else {
      TotalAtLeast(exps[..|exps| - 1], j);
    }
  }

  /** The peak score contributes 65536, so the softmax denominator is never below it. */
  lemma DenominatorAtLeastOne(scores: seq<int>)
    requires scores != []
    ensures Total(Exps(scores)) >= ONE_Q16
  {
    hide Exp;
    var j :| 0 <= j < |scores| && scores[j] == MaxOf(scores);
    ExpRange(0);
    TotalAtLeast(Exps(scores), j);
  }

  // ---- The parts of the datapath by their laws ----

  /** Clamping gives the nearest 32-bit value. */
  lemma ClampNearest(x: int, y: int)
    requires -0x8000_0000 <= y < 0x8000_0000
    ensures -0x8000_0000 <= Clamp(x) < 0x8000_0000 && Abs(Clamp(x) - x) <= Abs(y - x)
  {
  }

  /** Exactly the values that clamping changes are counted. */
  lemma SaturatedOne(x: int)
    ensures Saturated([x]) == if Clamp(x) == x then 0 else 1
  {
    assert [x][..0] == [];
  }

  /** The sum of squares: additive over lists, and the square on one value. */
  lemma {:induction false} SumSquaresConcat(a: seq<int>, b: seq<int>)
    ensures SumSquares(a + b) == SumSquares(a) + SumSquares(b)
  {
    if b == [] {
      assert a + b == a;
    } else {
      SumSquaresConcat(a, b[..|b| - 1]);
      assert (a + b)[..|a + b| - 1] == a + b[..|b| - 1];
    }
  }

  lemma SumSquaresOne(x: int)
    ensures SumSquares([x]) == x * x
  {
    assert [x][..0] == [];
  }

  /** Epsilon is 1e-5 in Q32, rounded to nearest. */
  lemma EpsilonRounded()
    ensures IsNearestEven(TWO_32, 100000, EPS_Q32)
  {
  }
}
