/** What every value of a prefill means: at each position and stage it is the exact value of its
    defining expression rounded once to nearest even and clamped to 32 bits. */
module AttentionMeaning {
  import opened Arithmetic
  import opened ExpQ16
  import opened Attention
  import opened AttentionPrefill

  /** out is num/den rounded once and clamped. */
  ghost predicate Rounded(num: int, den: int, out: int) {
    exists raw :: IsNearestEven(num, den, raw) && out == Clamp(raw)
  }

  lemma RoundedOnce(num: int, den: int)
    requires den > 0
    ensures Rounded(num, den, Clamp(DivRne(num, den)))
  {
    hide IsNearestEven, Clamp;
    assert IsNearestEven(num, den, DivRne(num, den));
    hide DivRne;
  }

  // ---- Norms and projections ----

  /** A normalised vector: each lane is the input times its weight over the root mean square. */
  ghost predicate Normed(v: seq<int>, w: seq<int>, out: seq<int>) {
    && v != [] && |w| == |v| == |out| && Rms(v) > 0
    && forall i :: 0 <= i < |v| ==> Rounded(v[i] * w[i] * ONE_Q16, Rms(v), out[i])
  }

  lemma NormIsNormed(v: seq<int>, w: seq<int>)
    requires v != [] && |w| == |v|
    ensures Normed(v, w, ClampAll(NormRaw(v, w)))
  {
    RmsPositive(v);
    hide Rms, DivRne, Clamp, Rounded;
    forall i | 0 <= i < |v| ensures Rounded(v[i] * w[i] * ONE_Q16, Rms(v), ClampAll(NormRaw(v, w))[i]) {
      RoundedOnce(v[i] * w[i] * ONE_Q16, Rms(v));
    }
  }

  /** Row r of a flat matrix. */
  ghost predicate RowLane(trits: seq<int>, r: nat, vec: seq<int>, scale: int, out: int) {
    && (r + 1) * |vec| <= |trits|
    && Rounded(TritDot(RowOf(trits, r, |vec|), vec) * scale, ONE_Q16, out)
  }

  /** A projected vector: each entry is the scale times the exact dot product of its row. */
  ghost predicate Projected(trits: seq<int>, rows: nat, vec: seq<int>, scale: int, out: seq<int>) {
    |out| == rows && forall r :: 0 <= r < rows ==> RowLane(trits, r, vec, scale, out[r])
  }

  lemma {:induction false} ProjectRow(trits: seq<int>, rows: nat, vec: seq<int>, scale: int, r: nat)
    requires rows * |vec| <= |trits| && r < rows
    ensures (r + 1) * |vec| <= |trits|
    ensures ProjectRaw(trits, rows, vec, scale)[r] == DivRne(TritDot(RowOf(trits, r, |vec|), vec) * scale, ONE_Q16)
    decreases rows
  {
    hide DivRne, RowOf, TritDot;
    MulOrder(|vec|, r + 1, rows);
    MulOrder(|vec|, rows - 1, rows);
    if r >= rows - 1 {
    } else {
      ProjectRow(trits, rows - 1, vec, scale, r);
    }
  }

  lemma ProjectIsProjected(trits: seq<int>, rows: nat, vec: seq<int>, scale: int)
    requires rows * |vec| <= |trits|
    ensures Projected(trits, rows, vec, scale, ClampAll(ProjectRaw(trits, rows, vec, scale)))
  {
    hide DivRne, RowOf, TritDot, Clamp, Rounded, ProjectRaw;
    var out := ClampAll(ProjectRaw(trits, rows, vec, scale));
    forall r: nat | r < rows ensures RowLane(trits, r, vec, scale, out[r]) {
      ProjectRow(trits, rows, vec, scale, r);
      RoundedOnce(TritDot(RowOf(trits, r, |vec|), vec) * scale, ONE_Q16);
    }
  }

  // ---- Rotation ----

  /** Where head h begins in a flat vector. */
  function HeadStart(h: nat, d: nat): nat {
    h * d
  }

  lemma HeadFits(h: nat, heads: nat, d: nat)
    requires h < heads
    ensures HeadStart(h, d) + d <= HeadStart(heads, d)
    ensures HeadStart(heads, d) == HeadStart(heads - 1, d) + d
  {
    MulOrder(d, h + 1, heads);
  }

  /** The two numerators of pair i of a head that begins at `at`. */
  function LowNum(flat: seq<int>, at: nat, table: Table, i: nat): int
    requires i < |table| && at + 2 * |table| <= |flat|
  {
    flat[at + i] * table[i].0 - flat[at + |table| + i] * table[i].1
  }

  function HighNum(flat: seq<int>, at: nat, table: Table, i: nat): int
    requires i < |table| && at + 2 * |table| <= |flat|
  {
    flat[at + |table| + i] * table[i].0 + flat[at + i] * table[i].1
  }

  /** The pair rotated by the table's entry. */
  ghost predicate PairRotated(flat: seq<int>, at: nat, table: Table, i: nat, out: seq<int>) {
    && i < |table| && at + 2 * |table| <= |flat| == |out|
    && Rounded(LowNum(flat, at, table, i), ONE_Q16, out[at + i])
    && Rounded(HighNum(flat, at, table, i), ONE_Q16, out[at + |table| + i])
  }

  /** Every pair of every head rotated. */
  ghost predicate RotatedHeads(flat: seq<int>, heads: nat, table: Table, out: seq<int>) {
    forall h, i :: 0 <= h < heads && 0 <= i < |table| ==> PairRotated(flat, HeadStart(h, 2 * |table|), table, i, out)
  }

  /** A pair before clamping, in the flat raw list. */
  ghost predicate PairRaw(flat: seq<int>, at: nat, table: Table, i: nat, raw: seq<int>) {
    && i < |table| && at + 2 * |table| <= |flat| == |raw|
    && raw[at + i] == DivRne(LowNum(flat, at, table, i), ONE_Q16)
    && raw[at + |table| + i] == DivRne(HighNum(flat, at, table, i), ONE_Q16)
  }

  lemma {:induction false} RopeHeadsPair(flat: seq<int>, heads: nat, table: Table, h: nat, i: nat)
    requires |flat| == HeadStart(heads, 2 * |table|) && h < heads && i < |table|
    ensures |flat| == heads * (2 * |table|)
    ensures PairRaw(flat, HeadStart(h, 2 * |table|), table, i, RopeHeadsRaw(flat, heads, table))
    decreases heads
  {
    hide DivRne, RopeHeadsRaw, RopeRaw, LowNum, HighNum, PairRaw, HeadStart;
    var d := 2 * |table|;
    var last := |flat| - d;
    HeadFits(h, heads, d);
    RopeSplit(flat, heads, table);
    var front := RopeHeadsRaw(flat[..last], heads - 1, table);
    if h < heads - 1 {
      HeadFits(h, heads - 1, d);
      RopeHeadsPair(flat[..last], heads - 1, table, h, i);
      PairInFront(flat, last, HeadStart(h, d), table, i, front, RopeRaw(flat[last..], table));
    } else {
      PairInLast(flat, last, table, i, front);
    }
  }

  lemma RopeSplit(flat: seq<int>, heads: nat, table: Table)
    requires |flat| == HeadStart(heads, 2 * |table|) && heads > 0
    ensures |flat| - 2 * |table| == HeadStart(heads - 1, 2 * |table|) == (heads - 1) * (2 * |table|)
    ensures |flat| == heads * (2 * |table|)
    ensures var last := |flat| - 2 * |table|;
      RopeHeadsRaw(flat, heads, table) == RopeHeadsRaw(flat[..last], heads - 1, table) + RopeRaw(flat[last..], table)
  {
    hide RopeRaw;
  }

  lemma PairInFront(flat: seq<int>, last: nat, at: nat, table: Table, i: nat, front: seq<int>, rest: seq<int>)
    requires last <= |flat| && PairRaw(flat[..last], at, table, i, front) && |front| + |rest| == |flat|
    ensures PairRaw(flat, at, table, i, front + rest)
  {
    hide DivRne;
  }

  lemma PairInLast(flat: seq<int>, last: nat, table: Table, i: nat, front: seq<int>)
    requires last + 2 * |table| == |flat| && |front| == last && i < |table|
    ensures PairRaw(flat, last, table, i, front + RopeRaw(flat[last..], table))
  {
    hide DivRne;
  }

  lemma RopeIsRotated(flat: seq<int>, heads: nat, table: Table)
    requires |flat| == HeadStart(heads, 2 * |table|)
    ensures RotatedHeads(flat, heads, table, ClampAll(RopeHeadsRaw(flat, heads, table)))
  {
    assert |flat| == heads * (2 * |table|);
    hide DivRne, RopeHeadsRaw, Clamp, Rounded, HeadStart, LowNum, HighNum;
    var out := ClampAll(RopeHeadsRaw(flat, heads, table));
    forall h: nat, i: nat | h < heads && i < |table|
      ensures PairRotated(flat, HeadStart(h, 2 * |table|), table, i, out) {
      var at := HeadStart(h, 2 * |table|);
      RopeHeadsPair(flat, heads, table, h, i);
      RoundedOnce(LowNum(flat, at, table, i), ONE_Q16);
      RoundedOnce(HighNum(flat, at, table, i), ONE_Q16);
    }
  }

  // ---- Attention ----

  /** One score: the scaled dot product of query and key. */
  ghost predicate ScoreMeans(query: seq<int>, key: seq<int>, scaling: int, out: int) {
    |query| <= |key| && Rounded(Dot(query, key) * scaling, TWO_32, out)
  }

  /** One context value: the weighted mean of one lane of the cached vectors. */
  ghost predicate ContextLaneMeans(exps: seq<nat>, values: seq<seq<int>>, lane: nat, out: int) {
    && |exps| == |values| && (forall v <- values :: lane < |v|)
    && Rounded(Weighted(exps, Lane(values, lane)), Total(exps), out)
  }

  /** One head over the cached keys and values: its scores, its probabilities by the integer
      exponential of their distance below the peak, and its context. */
  ghost predicate HeadMeans(query: seq<int>, keys: seq<seq<int>>, values: seq<seq<int>>, scaling: int, sc: seq<int>,
                            p: seq<int>, a: seq<int>) {
    && |keys| == |values| == |sc| == |p| > 0 && |a| == |query|
    && var exps := Exps(sc);
    && Total(exps) > 0
    && (forall j :: 0 <= j < |keys| ==> sc[j] <= MaxOf(sc) && exps[j] == Exp(sc[j] - MaxOf(sc)))
    && (forall j :: 0 <= j < |keys| ==> ScoreMeans(query, keys[j], scaling, sc[j]))
    && (forall j :: 0 <= j < |keys| ==> IsNearestEven(exps[j] * ONE_Q16, Total(exps), p[j]))
    && forall e :: 0 <= e < |a| ==> ContextLaneMeans(exps, values, e, a[e])
  }

  lemma ScoresMean(query: seq<int>, keys: seq<seq<int>>, scaling: int, j: nat)
    requires j < |keys| && forall k <- keys :: |k| >= |query|
    ensures ScoreMeans(query, keys[j], scaling, ClampAll(ScoresRaw(query, keys, scaling))[j])
  {
    hide DivRne, Dot, Rounded, Clamp;
    assert keys[j] in keys;
    RoundedOnce(Dot(query, keys[j]) * scaling, TWO_32);
  }

  lemma ProbabilityMeans(exps: seq<nat>, j: nat)
    requires Total(exps) > 0 && j < |exps|
    ensures IsNearestEven(exps[j] * ONE_Q16, Total(exps), Probabilities(exps)[j])
  {
    hide IsNearestEven, Total;
  }

  lemma ContextMeans(exps: seq<nat>, values: seq<seq<int>>, headDim: nat, e: nat)
    requires |exps| == |values| && Total(exps) > 0 && e < headDim
    requires forall v <- values :: |v| >= headDim
    ensures ContextLaneMeans(exps, values, e, ClampAll(ContextRaw(exps, values, headDim))[e])
  {
    hide DivRne, Weighted, Total, Rounded, Clamp;
    RoundedOnce(Weighted(exps, Lane(values, e)), Total(exps));
  }

  lemma HeadIs(query: seq<int>, keys: seq<seq<int>>, values: seq<seq<int>>, scaling: int)
    requires |keys| == |values| > 0 && Width(keys, |query|) && Width(values, |query|)
    ensures var out := Head(query, keys, values, scaling);
      HeadMeans(query, keys, values, scaling, ClampAll(out.scRaw), out.p, ClampAll(out.aRaw))
  {
    hide ScoresRaw, Exps, Probabilities, ContextRaw, Total, ScoreMeans, ContextLaneMeans, IsNearestEven, Clamp;
    var sc := ClampAll(ScoresRaw(query, keys, scaling));
    var exps := Exps(sc);
    DenominatorAtLeastOne(sc);
    forall j: nat | j < |keys| ensures ScoreMeans(query, keys[j], scaling, sc[j]) {
      ScoresMean(query, keys, scaling, j);
    }
    forall j: nat | j < |keys| ensures IsNearestEven(exps[j] * ONE_Q16, Total(exps), Probabilities(exps)[j]) {
      ProbabilityMeans(exps, j);
    }
    var a := ClampAll(ContextRaw(exps, values, |query|));
    forall e: nat | e < |a| ensures ContextLaneMeans(exps, values, e, a[e]) {
      ContextMeans(exps, values, |query|, e);
    }
  }

  // ---- Heads in the flat lists ----

  /** Head h of the flat lists of a position: its own query against its group's windows. */
  ghost predicate HeadAt(m: Model, qr: seq<int>, ks: seq<seq<int>>, vs: seq<seq<int>>, h: nat, sc: seq<int>,
                         p: seq<int>, a: seq<int>)
    requires m.WellFormed() && h < m.heads && |qr| == m.Hidden()
    requires Width(ks, m.KvDim()) && Width(vs, m.KvDim())
  {
    var d, t := m.HeadDim(), |ks|;
    var at, base, s := QueryOffset(m, h), KvOffset(m, h), HeadStart(h, t);
    && at + d <= |a| && s + t <= |sc| && s + t <= |p|
    && HeadMeans(qr[at..at + d], Window(ks, base, d), Window(vs, base, d), m.scaling, sc[s..s + t], p[s..s + t],
                 a[at..at + d])
  }

  /** Head h's part of the heads' flat lists. */
  ghost predicate HeadPart(out: HeadsOut, head: HeadsOut, at: nat, s: nat) {
    && at + |head.aRaw| <= |out.aRaw| && out.aRaw[at..at + |head.aRaw|] == head.aRaw
    && |head.scRaw| == |head.p|
    && s + |head.p| <= |out.p| && out.p[s..s + |head.p|] == head.p
    && s + |head.scRaw| <= |out.scRaw| && out.scRaw[s..s + |head.scRaw|] == head.scRaw
  }

  lemma HeadSizes(m: Model, qr: seq<int>, ks: seq<seq<int>>, vs: seq<seq<int>>, h: nat)
    requires m.WellFormed() && h < m.heads && |qr| == m.Hidden()
    requires |ks| == |vs| > 0 && Width(ks, m.KvDim()) && Width(vs, m.KvDim())
    ensures var out := OneHead(m, qr, ks, vs, h);
      |out.scRaw| == |out.p| == |ks| && |out.aRaw| == m.HeadDim()
  {
    hide Head, QueryOffset, KvOffset;
  }

  lemma {:induction false} HeadsParts(m: Model, qr: seq<int>, ks: seq<seq<int>>, vs: seq<seq<int>>, count: nat, h: nat)
    requires m.WellFormed() && h < count <= m.heads && |qr| == m.Hidden()
    requires |ks| == |vs| > 0 && Width(ks, m.KvDim()) && Width(vs, m.KvDim())
    ensures HeadPart(Heads(m, qr, ks, vs, count), OneHead(m, qr, ks, vs, h), HeadStart(h, m.HeadDim()),
                     HeadStart(h, |ks|))
    ensures |Heads(m, qr, ks, vs, count).scRaw| == |Heads(m, qr, ks, vs, count).p| == HeadStart(count, |ks|)
    decreases count
  {
    hide OneHead, Width, HeadPart, HeadStart;
    var d, t := m.HeadDim(), |ks|;
    var rest, last := Heads(m, qr, ks, vs, count - 1), OneHead(m, qr, ks, vs, count - 1);
    HeadSizes(m, qr, ks, vs, count - 1);
    HeadFits(count - 1, count, t);
    HeadFits(count - 1, count, d);
    FrontSizes(m, qr, ks, vs, count - 1);
    if h < count - 1 {
      HeadsParts(m, qr, ks, vs, count - 1, h);
      PartOfFront(rest, last, OneHead(m, qr, ks, vs, h), HeadStart(h, d), HeadStart(h, t));
    } else {
      PartOfLast(rest, last, HeadStart(h, d), HeadStart(h, t));
    }
  }

  lemma {:induction false} FrontSizes(m: Model, qr: seq<int>, ks: seq<seq<int>>, vs: seq<seq<int>>, count: nat)
    requires m.WellFormed() && count <= m.heads && |qr| == m.Hidden()
    requires |ks| == |vs| > 0 && Width(ks, m.KvDim()) && Width(vs, m.KvDim())
    ensures |Heads(m, qr, ks, vs, count).scRaw| == |Heads(m, qr, ks, vs, count).p| == HeadStart(count, |ks|)
    ensures |Heads(m, qr, ks, vs, count).aRaw| == HeadStart(count, m.HeadDim())
    decreases count
  {
    hide OneHead, Width;
    if count == 0 {
    } else {
      FrontSizes(m, qr, ks, vs, count - 1);
      HeadSizes(m, qr, ks, vs, count - 1);
      HeadFits(count - 1, count, |ks|);
      hide HeadStart;
    }
  }

  /** The lists of the first heads followed by those of the next. */
  function JoinedHeads(rest: HeadsOut, last: HeadsOut): HeadsOut {
    HeadsOut(rest.scRaw + last.scRaw, rest.p + last.p, rest.aRaw + last.aRaw)
  }

  lemma PartOfFront(rest: HeadsOut, last: HeadsOut, head: HeadsOut, at: nat, s: nat)
    requires HeadPart(rest, head, at, s)
    ensures HeadPart(JoinedHeads(rest, last), head, at, s)
  {
  }

  lemma PartOfLast(rest: HeadsOut, last: HeadsOut, at: nat, s: nat)
    requires |rest.aRaw| == at && |rest.scRaw| == |rest.p| == s && |last.scRaw| == |last.p|
    ensures HeadPart(JoinedHeads(rest, last), last, at, s)
  {
  }

  lemma ClampSlice(raw: seq<int>, from: nat, to: nat)
    requires from <= to <= |raw|
    ensures ClampAll(raw)[from..to] == ClampAll(raw[from..to])
  {
    hide Clamp;
  }

  lemma OffsetsAre(m: Model, h: nat)
    requires m.WellFormed() && h < m.heads
    ensures QueryOffset(m, h) == HeadStart(h, m.HeadDim()) && QueryOffset(m, h) + m.HeadDim() <= m.Hidden()
  {
  }

  lemma HeadsMean(m: Model, qr: seq<int>, ks: seq<seq<int>>, vs: seq<seq<int>>, h: nat, out: HeadsOut)
    requires m.WellFormed() && h < m.heads && |qr| == m.Hidden()
    requires |ks| == |vs| > 0 && Width(ks, m.KvDim()) && Width(vs, m.KvDim())
    requires out == Heads(m, qr, ks, vs, m.heads)
    ensures HeadAt(m, qr, ks, vs, h, ClampAll(out.scRaw), out.p, ClampAll(out.aRaw))
  {
    hide Heads, OneHead, HeadStart, QueryOffset, KvOffset, Head, HeadMeans, HeadPart, HeadAt;
    var head := OneHead(m, qr, ks, vs, h);
    HeadsParts(m, qr, ks, vs, m.heads, h);
    HeadSizes(m, qr, ks, vs, h);
    OffsetsAre(m, h);
    PartClamped(out, head, HeadStart(h, m.HeadDim()), HeadStart(h, |ks|));
    HeadOfWindow(m, qr, ks, vs, h);
    HeadAtFrom(m, qr, ks, vs, h, ClampAll(out.scRaw), out.p, ClampAll(out.aRaw), ClampAll(head.scRaw), head.p,
               ClampAll(head.aRaw));
  }

  lemma HeadAtFrom(m: Model, qr: seq<int>, ks: seq<seq<int>>, vs: seq<seq<int>>, h: nat, sc: seq<int>, p: seq<int>,
                   a: seq<int>, sc0: seq<int>, p0: seq<int>, a0: seq<int>)
    requires m.WellFormed() && h < m.heads && |qr| == m.Hidden()
    requires Width(ks, m.KvDim()) && Width(vs, m.KvDim()) && |sc0| == |p0| == |ks| && |a0| == m.HeadDim()
    requires var d := m.HeadDim();
      HeadMeans(qr[QueryOffset(m, h)..QueryOffset(m, h) + d], Window(ks, KvOffset(m, h), d),
                Window(vs, KvOffset(m, h), d), m.scaling, sc0, p0, a0)
    requires QueryOffset(m, h) + |a0| <= |a| && a[QueryOffset(m, h)..QueryOffset(m, h) + |a0|] == a0
    requires HeadStart(h, |ks|) + |p0| <= |p| && p[HeadStart(h, |ks|)..HeadStart(h, |ks|) + |p0|] == p0
    requires HeadStart(h, |ks|) + |sc0| <= |sc| && sc[HeadStart(h, |ks|)..HeadStart(h, |ks|) + |sc0|] == sc0
    ensures HeadAt(m, qr, ks, vs, h, sc, p, a)
  {
    hide HeadStart, QueryOffset, KvOffset, HeadMeans;
  }

  lemma PartClamped(out: HeadsOut, head: HeadsOut, at: nat, s: nat)
    requires HeadPart(out, head, at, s)
    ensures at + |head.aRaw| <= |out.aRaw| && ClampAll(out.aRaw)[at..at + |head.aRaw|] == ClampAll(head.aRaw)
    ensures s + |head.p| <= |out.p| && out.p[s..s + |head.p|] == head.p
    ensures s + |head.scRaw| <= |out.scRaw| && ClampAll(out.scRaw)[s..s + |head.scRaw|] == ClampAll(head.scRaw)
  {
    ClampSlice(out.aRaw, at, at + |head.aRaw|);
    ClampSlice(out.scRaw, s, s + |head.scRaw|);
  }

  lemma HeadOfWindow(m: Model, qr: seq<int>, ks: seq<seq<int>>, vs: seq<seq<int>>, h: nat)
    requires m.WellFormed() && h < m.heads && |qr| == m.Hidden()
    requires |ks| == |vs| > 0 && Width(ks, m.KvDim()) && Width(vs, m.KvDim())
    ensures var d := m.HeadDim();
      var at, base := QueryOffset(m, h), KvOffset(m, h);
      var head := OneHead(m, qr, ks, vs, h);
      HeadMeans(qr[at..at + d], Window(ks, base, d), Window(vs, base, d), m.scaling, ClampAll(head.scRaw), head.p,
                ClampAll(head.aRaw))
  {
    hide Head, QueryOffset, KvOffset, HeadMeans, ClampAll;
    var d := m.HeadDim();
    var at, base := QueryOffset(m, h), KvOffset(m, h);
    WindowWidth(ks, m.KvDim(), base, d);
    WindowWidth(vs, m.KvDim(), base, d);
    HeadIs(qr[at..at + d], Window(ks, base, d), Window(vs, base, d), m.scaling);
  }

  lemma WindowWidth(cache: seq<seq<int>>, dim: nat, base: nat, width: nat)
    requires Width(cache, dim) && base + width <= dim
    ensures forall c <- cache :: base + width <= |c|
    ensures Width(Window(cache, base, width), width)
  {
  }

  // ---- Positions ----

  /** Everything a position computes, ks and vs already holding its own entry. */
  ghost predicate PositionMeans(m: Model, x: seq<int>, table: Table, ks: seq<seq<int>>, vs: seq<seq<int>>, st: Stages)
    requires m.WellFormed() && Width(ks, m.KvDim()) && Width(vs, m.KvDim())
  {
    && Normed(x, m.wIn, st.n)
    && Projected(m.q, m.Hidden(), st.n, m.scaleQ, st.q)
    && Projected(m.k, m.KvDim(), st.n, m.scaleK, st.k)
    && Projected(m.v, m.KvDim(), st.n, m.scaleV, st.v)
    && RotatedHeads(st.q, m.heads, table, st.qr) && |st.qr| == m.Hidden()
    && RotatedHeads(st.k, m.kvHeads, table, st.kr) && |st.kr| == m.KvDim()
    && (forall h :: 0 <= h < m.heads ==> HeadAt(m, st.qr, ks, vs, h, st.sc, st.p, st.a))
    && |st.sc| == |st.p| == HeadStart(m.heads, |ks|) && |st.a| == m.Hidden()
    && Normed(st.a, m.wSub, st.c)
    && Projected(m.o, m.Hidden(), st.c, m.scaleO, st.o)
    && |st.r| == |x| == |st.o| && forall i :: 0 <= i < |x| ==> st.r[i] == Clamp(x[i] + st.o[i])
  }

  lemma FrontMeans(m: Model, x: seq<int>, table: Table)
    requires m.WellFormed() && |x| == m.Hidden() && |table| == m.pairs
    ensures var f := FrontOf(m, x, table);
      && Normed(x, m.wIn, ClampAll(f.nRaw))
      && Projected(m.q, m.Hidden(), ClampAll(f.nRaw), m.scaleQ, ClampAll(f.qRaw))
      && Projected(m.k, m.KvDim(), ClampAll(f.nRaw), m.scaleK, ClampAll(f.kRaw))
      && Projected(m.v, m.KvDim(), ClampAll(f.nRaw), m.scaleV, ClampAll(f.vRaw))
      && RotatedHeads(ClampAll(f.qRaw), m.heads, table, ClampAll(f.qrRaw))
      && RotatedHeads(ClampAll(f.kRaw), m.kvHeads, table, ClampAll(f.krRaw))
  {
    hide NormRaw, ProjectRaw, RopeHeadsRaw, Clamp, Normed, Projected, RotatedHeads;
    HiddenPositive(m);
    var f := FrontOf(m, x, table);
    var n := ClampAll(f.nRaw);
    NormIsNormed(x, m.wIn);
    ProjectIsProjected(m.q, m.Hidden(), n, m.scaleQ);
    ProjectIsProjected(m.k, m.KvDim(), n, m.scaleK);
    ProjectIsProjected(m.v, m.KvDim(), n, m.scaleV);
    RopeIsRotated(ClampAll(f.qRaw), m.heads, table);
    RopeIsRotated(ClampAll(f.kRaw), m.kvHeads, table);
  }

  lemma StepMeans(m: Model, x: seq<int>, table: Table, ks: seq<seq<int>>, vs: seq<seq<int>>)
    requires m.WellFormed() && |x| == m.Hidden() && |table| == m.pairs
    requires |ks| == |vs| > 0 && Width(ks, m.KvDim()) && Width(vs, m.KvDim())
    ensures PositionMeans(m, x, table, ks, vs, Position(m, x, FrontOf(m, x, table), ks, vs).stages)
  {
    hide NormRaw, ProjectRaw, RopeHeadsRaw, Heads, HeadAt, Clamp, Normed, Projected, RotatedHeads, FrontOf, Width,
         HeadStart, Saturated;
    HiddenPositive(m);
    FrontMeans(m, x, table);
    var f := FrontOf(m, x, table);
    var st := Position(m, x, f, ks, vs).stages;
    var qr := ClampAll(f.qrRaw);
    forall h: nat | h < m.heads ensures HeadAt(m, qr, ks, vs, h, st.sc, st.p, st.a) {
      HeadsMean(m, qr, ks, vs, h, Heads(m, qr, ks, vs, m.heads));
    }
    FrontSizes(m, qr, ks, vs, m.heads);
    NormIsNormed(st.a, m.wSub);
    ProjectIsProjected(m.o, m.Hidden(), st.c, m.scaleO);
  }

  /** All positions' stage lists one after another. */
  function Concat(steps: seq<Stages>): Stages {
    if steps == [] then NO_STAGES else Append(Concat(steps[..|steps| - 1]), steps[|steps| - 1])
  }

  /** The positions of a run: each means its own input against the caches of the positions up to it,
      which hold exactly the rotated keys and the values those positions computed. */
  ghost predicate RunMeans(m: Model, xs: seq<seq<int>>, tables: seq<Table>, ks: seq<seq<int>>, vs: seq<seq<int>>,
                           steps: seq<Stages>)
    requires Inputs(m, xs, tables) && Width(ks, m.KvDim()) && Width(vs, m.KvDim())
  {
    && |ks| == |vs| == |steps| == |xs|
    && forall t :: 0 <= t < |xs| ==> StepAt(m, xs[t], tables[t], ks, vs, t, steps[t])
  }

  ghost predicate StepAt(m: Model, x: seq<int>, table: Table, ks: seq<seq<int>>, vs: seq<seq<int>>, t: nat, st: Stages)
    requires m.WellFormed() && Width(ks, m.KvDim()) && Width(vs, m.KvDim()) && t < |ks| && t < |vs|
  {
    && st.kr == ks[t] && st.v == vs[t]
    && Width(ks[..t + 1], m.KvDim()) && Width(vs[..t + 1], m.KvDim())
    && PositionMeans(m, x, table, ks[..t + 1], vs[..t + 1], st)
  }

  /** Every value of every stage of a whole prefill is its exact value rounded once and clamped, and
      the stage lists are the positions' lists in order. */
  lemma {:induction false} RunMeaning(m: Model, xs: seq<seq<int>>, tables: seq<Table>) returns (steps: seq<Stages>)
    requires Inputs(m, xs, tables)
    ensures var s := Run(m, xs, tables);
      s.stages == Concat(steps) && RunMeans(m, xs, tables, s.ks, s.vs, steps)
    decreases |xs|
  {
    hide FrontOf, Position, PositionMeans, Width, Append, AddCounts, StepAt;
    if xs == [] {
      steps := [];
    } else {
      var last := |xs| - 1;
      var before, s := Run(m, xs[..last], tables), Run(m, xs, tables);
      var rest := RunMeaning(m, xs[..last], tables);
      var front := FrontOf(m, xs[last], tables[last]);
      StepMeans(m, xs[last], tables[last], s.ks, s.vs);
      var st := Position(m, xs[last], front, s.ks, s.vs).stages;
      steps := rest + [st];
      assert steps[..last] == rest;
      CachedLast(m, xs[last], tables[last], s.ks, s.vs);
      assert s.ks == before.ks + [st.kr] && s.vs == before.vs + [st.v];
      LastStep(m, xs[last], tables[last], s.ks, s.vs, st);
      forall t: nat | t < last ensures StepAt(m, xs[t], tables[t], s.ks, s.vs, t, steps[t]) {
        assert xs[..last][t] == xs[t];
        EarlierStep(m, xs[t], tables[t], before.ks, before.vs, s.ks, s.vs, t, rest[t]);
      }
    }
  }

  lemma CachedLast(m: Model, x: seq<int>, table: Table, ks: seq<seq<int>>, vs: seq<seq<int>>)
    requires m.WellFormed() && |x| == m.Hidden() && |table| == m.pairs
    requires |ks| == |vs| > 0 && Width(ks, m.KvDim()) && Width(vs, m.KvDim())
    ensures var f := FrontOf(m, x, table);
      var st := Position(m, x, f, ks, vs).stages;
      st.kr == ClampAll(f.krRaw) && st.v == ClampAll(f.vRaw)
  {
    hide FrontOf, Heads, NormRaw, ProjectRaw, ClampAll, Saturated, Residual, Width;
  }

  lemma LastStep(m: Model, x: seq<int>, table: Table, ks: seq<seq<int>>, vs: seq<seq<int>>, st: Stages)
    requires m.WellFormed() && Width(ks, m.KvDim()) && Width(vs, m.KvDim()) && |ks| == |vs| > 0
    requires st.kr == ks[|ks| - 1] && st.v == vs[|vs| - 1] && PositionMeans(m, x, table, ks, vs, st)
    ensures StepAt(m, x, table, ks, vs, |ks| - 1, st)
  {
    hide PositionMeans;
    assert ks[..|ks|] == ks && vs[..|vs|] == vs;
  }

  lemma EarlierStep(m: Model, x: seq<int>, table: Table, ks: seq<seq<int>>, vs: seq<seq<int>>, ks': seq<seq<int>>,
                    vs': seq<seq<int>>, t: nat, st: Stages)
    requires m.WellFormed() && Width(ks, m.KvDim()) && Width(vs, m.KvDim()) && Width(ks', m.KvDim())
      && Width(vs', m.KvDim())
    requires t < |ks| && t < |vs| && |ks| <= |ks'| && |vs| <= |vs'| && ks'[..|ks|] == ks && vs'[..|vs|] == vs
    requires StepAt(m, x, table, ks, vs, t, st)
    ensures StepAt(m, x, table, ks', vs', t, st)
  {
    hide PositionMeans;
    assert ks'[..t + 1] == ks'[..|ks|][..t + 1] && vs'[..t + 1] == vs'[..|vs|][..t + 1];
    assert ks'[t] == ks'[..|ks|][t] && vs'[t] == vs'[..|vs|][t];
  }
}
