/** What the attention datapath guarantees for every model and prefill. */
module AttentionTheorems {
  import opened Arithmetic
  import opened ExpQ16
  import opened Attention
  import opened AttentionPrefill
  import opened AttentionLoops

  // ---- Convexity: stage a cannot saturate ----

  /** A weighted sum lies between the least and the greatest weighted value. */
  lemma {:induction false} WeightedBetween(exps: seq<nat>, lane: seq<int>, lo: int, hi: int)
    requires |exps| <= |lane| && forall j :: 0 <= j < |exps| ==> lo <= lane[j] <= hi
    ensures lo * Total(exps) <= Weighted(exps, lane) <= hi * Total(exps)
  {
    if exps == [] {
    } else {
      var last := |exps| - 1;
      WeightedBetween(exps[..last], lane, lo, hi);
      MulOrder(exps[last], lo, lane[last]);
      MulOrder(exps[last], lane[last], hi);
      Distribute(lo, Total(exps[..last]), exps[last]);
      Distribute(hi, Total(exps[..last]), exps[last]);
    }
  }

  lemma Distribute(k: int, a: int, b: int)
    ensures k * (a + b) == k * a + k * b
  {
  }

  /** Each context lane is a convex combination: it lies between the least and the greatest
      attended value of that lane, rounding included. */
  lemma ContextConvex(exps: seq<nat>, values: seq<seq<int>>, headDim: nat, d: nat, lo: int, hi: int)
    requires |exps| == |values| && Total(exps) > 0 && d < headDim
    requires forall v <- values :: |v| >= headDim
    requires forall j :: 0 <= j < |values| ==> lo <= Lane(values, d)[j] <= hi
    ensures lo <= ContextRaw(exps, values, headDim)[d] <= hi
  {
    hide DivRne, Weighted, Total;
    WeightedBetween(exps, Lane(values, d), lo, hi);
    DivRneBetween(Weighted(exps, Lane(values, d)), Total(exps), lo, hi);
  }

  ghost predicate CacheInS32(cache: seq<seq<int>>) {
    forall j, i :: 0 <= j < |cache| && 0 <= i < |cache[j]| ==> InS32(cache[j][i])
  }

  ghost predicate AllInS32(raw: seq<int>) {
    forall i :: 0 <= i < |raw| ==> InS32(raw[i])
  }

  lemma HeadContextInS32(query: seq<int>, keys: seq<seq<int>>, values: seq<seq<int>>, scaling: int)
    requires |keys| == |values| > 0 && Width(keys, |query|) && Width(values, |query|) && CacheInS32(values)
    ensures AllInS32(Head(query, keys, values, scaling).aRaw)
  {
    var exps := Exps(ClampAll(ScoresRaw(query, keys, scaling)));
    hide Exps, ClampAll, ScoresRaw, ContextRaw, Probabilities;
    DenominatorAtLeastOne(ClampAll(ScoresRaw(query, keys, scaling)));
    var raw := ContextRaw(exps, values, |query|);
    forall d | 0 <= d < |query| ensures InS32(raw[d]) {
      ContextConvex(exps, values, |query|, d, S32_MIN, S32_MAX);
    }
  }

  lemma WindowInS32(cache: seq<seq<int>>, base: nat, width: nat)
    requires CacheInS32(cache) && forall c <- cache :: base + width <= |c|
    ensures CacheInS32(Window(cache, base, width))
  {
    hide InS32;
    var w := Window(cache, base, width);
    forall j, i | 0 <= j < |w| && 0 <= i < |w[j]| ensures InS32(w[j][i]) {
      assert w[j][i] == cache[j][base + i];
    }
  }

  lemma OneHeadInS32(m: Model, qr: seq<int>, ks: seq<seq<int>>, vs: seq<seq<int>>, h: nat)
    requires m.WellFormed() && h < m.heads && |qr| == m.Hidden()
    requires |ks| == |vs| > 0 && Width(ks, m.KvDim()) && Width(vs, m.KvDim()) && CacheInS32(vs)
    ensures AllInS32(OneHead(m, qr, ks, vs, h).aRaw)
  {
    hide QueryOffset, KvOffset, Head, CacheInS32, AllInS32;
    var d := m.HeadDim();
    var at, base := QueryOffset(m, h), KvOffset(m, h);
    WindowsFit(ks, m.KvDim(), base, d);
    WindowsFit(vs, m.KvDim(), base, d);
    WindowInS32(vs, base, d);
    HeadContextInS32(qr[at..at + d], Window(ks, base, d), Window(vs, base, d), m.scaling);
  }

  lemma {:induction false} HeadsInS32(m: Model, qr: seq<int>, ks: seq<seq<int>>, vs: seq<seq<int>>, count: nat)
    requires m.WellFormed() && count <= m.heads && |qr| == m.Hidden()
    requires |ks| == |vs| > 0 && Width(ks, m.KvDim()) && Width(vs, m.KvDim()) && CacheInS32(vs)
    ensures AllInS32(Heads(m, qr, ks, vs, count).aRaw)
  {
    hide OneHead, InS32, CacheInS32, Width;
    if count == 0 {
    } else {
      HeadsInS32(m, qr, ks, vs, count - 1);
      OneHeadInS32(m, qr, ks, vs, count - 1);
    }
  }

  lemma {:induction false} NoneSaturated(raw: seq<int>)
    requires AllInS32(raw)
    ensures Saturated(raw) == 0 && ClampAll(raw) == raw
  {
    if raw == [] {
    } else {
      NoneSaturated(raw[..|raw| - 1]);
    }
  }

  lemma ClampedInS32(raw: seq<int>)
    ensures AllInS32(ClampAll(raw))
  {
  }

  lemma NextKeepsCaches(m: Model, s: State, x: seq<int>, table: Table)
    requires m.WellFormed() && |x| == m.Hidden() && |table| == m.pairs && Caches(m, s, |s.ks|)
    requires CacheInS32(s.vs)
    ensures CacheInS32(Next(m, s, x, table).vs)
    ensures Next(m, s, x, table).sat.a == s.sat.a
  {
    hide FrontOf, Heads, InS32, NormRaw, ProjectRaw, Residual, Saturated, Append;
    var front := FrontOf(m, x, table);
    ClampedInS32(front.vRaw);
    hide ClampAll;
    var ks, vs := s.ks + [ClampAll(front.krRaw)], s.vs + [ClampAll(front.vRaw)];
    assert CacheInS32(vs);
    HeadsInS32(m, ClampAll(front.qrRaw), ks, vs, m.heads);
    hide CacheInS32;
    NoneSaturated(Heads(m, ClampAll(front.qrRaw), ks, vs, m.heads).aRaw);
  }

  /** Whatever the model, the inputs and the tables, no context value of the whole prefill
      saturates. */
  lemma {:induction false} ContextNeverSaturates(m: Model, xs: seq<seq<int>>, tables: seq<Table>)
    requires Inputs(m, xs, tables)
    ensures Run(m, xs, tables).sat.a == 0 && CacheInS32(Run(m, xs, tables).vs)
  {
    hide Next, CacheInS32;
    if xs == [] {
      RunNone(m, tables, xs);
      EmptyCache();
    } else {
      var last := |xs| - 1;
      RunOne(m, xs, tables, last);
      assert xs[..last + 1] == xs;
      ContextNeverSaturates(m, xs[..last], tables);
      hide Run;
      NextKeepsCaches(m, Run(m, xs[..last], tables), xs[last], tables[last]);
    }
  }

  lemma EmptyCache()
    ensures CacheInS32([])
  {
  }

  // ---- Causality ----

  ghost predicate StagesPrefix(a: Stages, b: Stages) {
    && a.n <= b.n && a.q <= b.q && a.k <= b.k && a.v <= b.v && a.qr <= b.qr && a.kr <= b.kr
    && a.sc <= b.sc && a.p <= b.p && a.a <= b.a && a.c <= b.c && a.o <= b.o && a.r <= b.r
  }

  ghost predicate StatePrefix(a: State, b: State) {
    StagesPrefix(a.stages, b.stages) && a.ks <= b.ks && a.vs <= b.vs
  }

  lemma StatePrefixTransitive(a: State, b: State, c: State)
    requires StatePrefix(a, b) && StatePrefix(b, c)
    ensures StatePrefix(a, c)
  {
  }

  /** Running only the first positions yields an exact prefix of every stage list and of both
      caches: no later position changes what an earlier one computed. */
  lemma {:induction false} Causal(m: Model, xs: seq<seq<int>>, tables: seq<Table>, k: nat)
    requires Inputs(m, xs, tables) && k <= |xs|
    ensures Inputs(m, xs[..k], tables)
    ensures StatePrefix(Run(m, xs[..k], tables), Run(m, xs, tables))
    decreases |xs| - k
  {
    hide Next, Run, StatePrefix;
    if k == |xs| {
      assert xs[..k] == xs;
      SamePrefix(Run(m, xs, tables));
    } else {
      Causal(m, xs, tables, k + 1);
      RunOne(m, xs, tables, k);
      NextExtends(m, Run(m, xs[..k], tables), xs[k], tables[k]);
      StatePrefixTransitive(Run(m, xs[..k], tables), Run(m, xs[..k + 1], tables), Run(m, xs, tables));
    }
  }

  lemma SamePrefix(s: State)
    ensures StatePrefix(s, s)
  {
  }

  lemma NextExtends(m: Model, s: State, x: seq<int>, table: Table)
    requires m.WellFormed() && |x| == m.Hidden() && |table| == m.pairs && Caches(m, s, |s.ks|)
    ensures StatePrefix(s, Next(m, s, x, table))
  {
    hide FrontOf, Position;
  }

  /** The state after k positions depends only on the inputs and tables of those positions. */
  lemma CausalInputs(m: Model, xs: seq<seq<int>>, ys: seq<seq<int>>, ts: seq<Table>, us: seq<Table>, k: nat)
    requires Inputs(m, xs, ts) && Inputs(m, ys, us) && k <= |xs| && k <= |ys|
    requires xs[..k] == ys[..k] && ts[..k] == us[..k]
    ensures Inputs(m, xs[..k], ts) && Inputs(m, ys[..k], us)
    ensures Run(m, xs[..k], ts) == Run(m, ys[..k], us)
  {
    SameTables(m, xs[..k], ts, us);
  }

  lemma {:induction false} SameTables(m: Model, xs: seq<seq<int>>, ts: seq<Table>, us: seq<Table>)
    requires Inputs(m, xs, ts) && Inputs(m, xs, us) && ts[..|xs|] == us[..|xs|]
    ensures Run(m, xs, ts) == Run(m, xs, us)
  {
    hide Next;
    if xs == [] {
    } else {
      var last := |xs| - 1;
      assert ts[last] == ts[..|xs|][last] == us[last];
      assert ts[..last] == ts[..|xs|][..last] && us[..last] == us[..|xs|][..last];
      SameTables(m, xs[..last], ts, us);
    }
  }

  // ---- Softmax ----

  lemma ProbabilityRange(exps: seq<nat>, j: nat)
    requires Total(exps) > 0 && j < |exps|
    ensures 0 <= Probabilities(exps)[j] <= ONE_Q16
  {
    hide DivRne;
    TotalAtLeast(exps, j);
    hide Total;
    MulOrder(ONE_Q16, exps[j], Total(exps));
    DivRneBetween(exps[j] * ONE_Q16, Total(exps), 0, ONE_Q16);
  }

  /** A higher score never gets a lower probability. */
  lemma SoftmaxMonotone(scores: seq<int>, i: nat, j: nat)
    requires i < |scores| && j < |scores| && scores[i] <= scores[j]
    ensures Total(Exps(scores)) > 0
    ensures Probabilities(Exps(scores))[i] <= Probabilities(Exps(scores))[j]
  {
    hide DivRne, Exp, MaxOf, Total;
    DenominatorAtLeastOne(scores);
    var exps, peak := Exps(scores), MaxOf(scores);
    ExpMonotone(scores[i] - peak, scores[j] - peak);
    var t := Total(exps);
    MulOrder(t, exps[i] * ONE_Q16, exps[j] * ONE_Q16);
    DivRneMonotone(exps[i] * ONE_Q16, t, exps[j] * ONE_Q16, t);
  }

  function SumOf(v: seq<int>): int {
    if v == [] then 0 else SumOf(v[..|v| - 1]) + v[|v| - 1]
  }

  lemma {:induction false} RoundedSum(exps: seq<nat>, total: nat, p: seq<int>)
    requires total > 0 && |p| == |exps|
    requires forall j :: 0 <= j < |p| ==> IsNearestEven(exps[j] * ONE_Q16, total, p[j])
    ensures 2 * Abs(SumOf(p) * total - Total(exps) * ONE_Q16) <= |p| * total
  {
    if p == [] {
    } else {
      var last := |p| - 1;
      RoundedSum(exps[..last], total, p[..last]);
      assert IsNearestEven(exps[last] * ONE_Q16, total, p[last]);
      AddErrors(SumOf(p[..last]), Total(exps[..last]) * ONE_Q16, p[last], exps[last] * ONE_Q16, total, last);
      hide IsNearestEven;
    }
  }

  lemma AddErrors(a: int, x: int, b: int, y: int, total: nat, n: nat)
    requires 2 * Abs(a * total - x) <= n * total && 2 * Abs(y - b * total) <= total
    ensures 2 * Abs((a + b) * total - (x + y)) <= (n + 1) * total
  {
    Distribute(total, a, b);
    Distribute(total, n, 1);
  }

  /** The probabilities of a head sum to one (65536) within half a unit per position. */
  lemma ProbabilitiesSumToOne(exps: seq<nat>)
    requires Total(exps) > 0
    ensures 2 * Abs(SumOf(Probabilities(exps)) - ONE_Q16) <= |exps|
  {
    hide Probabilities, Total, SumOf, IsNearestEven, Abs;
    NearestProbabilities(exps);
    RoundedSum(exps, Total(exps), Probabilities(exps));
    CancelTotal(SumOf(Probabilities(exps)), Total(exps), |exps|);
  }

  lemma NearestProbabilities(exps: seq<nat>)
    requires Total(exps) > 0
    ensures forall j :: 0 <= j < |exps| ==> IsNearestEven(exps[j] * ONE_Q16, Total(exps), Probabilities(exps)[j])
  {
    hide IsNearestEven, Total;
  }

  lemma CancelTotal(sum: int, total: nat, n: nat)
    requires total > 0 && 2 * Abs(sum * total - total * ONE_Q16) <= n * total
    ensures 2 * Abs(sum - ONE_Q16) <= n
  {
    var e := sum - ONE_Q16;
    assert sum * total - total * ONE_Q16 == e * total;
    AbsProduct(e, total);
    hide Abs;
    if 2 * Abs(e) > n {
      EqualProducts(total, n, 2 * Abs(e));
    }
  }

  lemma AbsProduct(e: int, k: nat)
    requires k > 0
    ensures Abs(e * k) == Abs(e) * k
  {
  }

  // ---- Position 0 ----

  ghost predicate IdentityTable(table: Table) {
    forall i :: 0 <= i < |table| ==> table[i] == (ONE_Q16, 0)
  }

  lemma RopeIdentity(vec: seq<int>, table: Table)
    requires |vec| == 2 * |table| && IdentityTable(table)
    ensures RopeRaw(vec, table) == vec
  {
    hide DivRne;
    forall i | 0 <= i < |vec| ensures RopeRaw(vec, table)[i] == vec[i] {
      DivRneExact(vec[i], ONE_Q16);
    }
  }

  lemma {:induction false} RopeHeadsIdentity(flat: seq<int>, heads: nat, table: Table)
    requires |flat| == heads * (2 * |table|) && IdentityTable(table)
    ensures RopeHeadsRaw(flat, heads, table) == flat
  {
    hide RopeRaw, IdentityTable;
    if heads == 0 {
    } else {
      HeadSplit(heads, 2 * |table|);
      var last := |flat| - 2 * |table|;
      RopeHeadsIdentity(flat[..last], heads - 1, table);
      RopeIdentity(flat[last..], table);
    }
  }

  /** With a single cached position the softmax is one and the context is its value. */
  lemma SingleEntryHead(query: seq<int>, keys: seq<seq<int>>, values: seq<seq<int>>, scaling: int)
    requires |keys| == |values| == 1 && Width(keys, |query|) && Width(values, |query|)
    ensures Head(query, keys, values, scaling).p == [ONE_Q16]
    ensures Head(query, keys, values, scaling).aRaw == values[0]
  {
    hide DivRne, ScoresRaw, Exp;
    var scores := ClampAll(ScoresRaw(query, keys, scaling));
    ExpRange(0);
    var exps := Exps(scores);
    assert exps == [ONE_Q16];
    assert Total(exps) == ONE_Q16;
    DivRneExact(ONE_Q16, ONE_Q16);
    var raw := ContextRaw(exps, values, |query|);
    forall d | 0 <= d < |query| ensures raw[d] == values[0][d] {
      var lane := Lane(values, d);
      assert Weighted(exps, lane) == ONE_Q16 * lane[0];
      DivRneExact(lane[0], ONE_Q16);
    }
  }

  /** The v vector of each head's group, head after head. */
  function GroupValues(m: Model, v: seq<int>, count: nat): (out: seq<int>)
    requires m.WellFormed() && count <= m.heads && |v| == m.KvDim()
  {
    if count == 0 then [] else
      var base := KvOffset(m, count - 1);
      GroupValues(m, v, count - 1) + v[base..base + m.HeadDim()]
  }

  function Ones(count: nat): seq<int> {
    if count == 0 then [] else Ones(count - 1) + [ONE_Q16]
  }

  lemma {:induction false} SingleEntryHeads(m: Model, qr: seq<int>, ks: seq<seq<int>>, vs: seq<seq<int>>, count: nat)
    requires m.WellFormed() && count <= m.heads && |qr| == m.Hidden()
    requires |ks| == |vs| == 1 && Width(ks, m.KvDim()) && Width(vs, m.KvDim()) && |vs[0]| == m.KvDim()
    ensures Heads(m, qr, ks, vs, count).aRaw == GroupValues(m, vs[0], count)
    ensures Heads(m, qr, ks, vs, count).p == Ones(count)
  {
    hide OneHead, KvOffset, Width;
    if count == 0 {
    } else {
      SingleEntryHeads(m, qr, ks, vs, count - 1);
      SingleEntryOneHead(m, qr, ks, vs, count - 1);
      OneMore(m, qr, ks, vs, count);
    }
  }

  lemma OneMore(m: Model, qr: seq<int>, ks: seq<seq<int>>, vs: seq<seq<int>>, count: nat)
    requires m.WellFormed() && 0 < count <= m.heads && |qr| == m.Hidden()
    requires |ks| == |vs| > 0 && Width(ks, m.KvDim()) && Width(vs, m.KvDim())
    ensures var rest, head := Heads(m, qr, ks, vs, count - 1), OneHead(m, qr, ks, vs, count - 1);
      && Heads(m, qr, ks, vs, count).aRaw == rest.aRaw + head.aRaw
      && Heads(m, qr, ks, vs, count).p == rest.p + head.p
      && Heads(m, qr, ks, vs, count).scRaw == rest.scRaw + head.scRaw
  {
    hide OneHead, Width;
  }

  lemma SingleEntryOneHead(m: Model, qr: seq<int>, ks: seq<seq<int>>, vs: seq<seq<int>>, h: nat)
    requires m.WellFormed() && h < m.heads && |qr| == m.Hidden()
    requires |ks| == |vs| == 1 && Width(ks, m.KvDim()) && Width(vs, m.KvDim()) && |vs[0]| == m.KvDim()
    ensures OneHead(m, qr, ks, vs, h).p == [ONE_Q16]
    ensures OneHead(m, qr, ks, vs, h).aRaw == vs[0][KvOffset(m, h)..KvOffset(m, h) + m.HeadDim()]
  {
    hide QueryOffset, KvOffset, Head;
    var d := m.HeadDim();
    var at, base := QueryOffset(m, h), KvOffset(m, h);
    WindowsFit(ks, m.KvDim(), base, d);
    WindowsFit(vs, m.KvDim(), base, d);
    SingleEntryHead(qr[at..at + d], Window(ks, base, d), Window(vs, base, d), m.scaling);
  }

  lemma ClampIdempotent(raw: seq<int>)
    ensures ClampAll(ClampAll(raw)) == ClampAll(raw)
  {
  }

  /** Each d values of v in turn, repeated for `group` heads, as far as there are heads. */
  ghost predicate RepeatedGroups(a: seq<int>, v: seq<int>, d: nat, group: nat, heads: nat) {
    && |a| == heads * d
    && forall g: nat, h: nat, e: nat | h < heads && g * group <= h < (g + 1) * group && e < d ::
         At(g, d, e) < |v| && At(h, d, e) < |a| && a[At(h, d, e)] == v[At(g, d, e)]
  }

  /** Place e of block h. */
  function At(h: nat, d: nat, e: nat): nat {
    h * d + e
  }

  lemma {:induction false} GroupValuesAt(m: Model, v: seq<int>, count: nat, h: nat, e: nat)
    requires m.WellFormed() && h < count <= m.heads && |v| == m.KvDim() && e < m.HeadDim()
    ensures |GroupValues(m, v, count)| == At(count, m.HeadDim(), 0)
    ensures At(h, m.HeadDim(), e) < |GroupValues(m, v, count)|
    ensures GroupValues(m, v, count)[At(h, m.HeadDim(), e)] == v[KvOffset(m, h) + e]
    decreases count
  {
    hide KvOffset;
    var d := m.HeadDim();
    HeadSplit(count, d);
    OffsetFits(h, count, d);
    if count == 1 {
    } else {
      if h == count - 1 {
        GroupValuesAt(m, v, count - 1, 0, 0);
      } else {
        OffsetFits(h, count - 1, d);
        GroupValuesAt(m, v, count - 1, h, e);
      }
    }
  }

  lemma GroupsRepeated(m: Model, v: seq<int>)
    requires m.WellFormed() && |v| == m.KvDim()
    ensures RepeatedGroups(GroupValues(m, v, m.heads), v, m.HeadDim(), m.group, m.heads)
  {
    hide GroupValues, KvOffset;
    GroupValuesAt(m, v, m.heads, 0, 0);
    forall g: nat, h: nat, e: nat
      | h < m.heads && g * m.group <= h < (g + 1) * m.group && e < m.HeadDim()
      ensures var a, d := GroupValues(m, v, m.heads), m.HeadDim();
        At(g, d, e) < |v| && At(h, d, e) < |a| && a[At(h, d, e)] == v[At(g, d, e)] {
      GroupValuesAt(m, v, m.heads, h, e);
      KvGroup(m, g, h);
    }
  }

  /** Position 0 under the identity table is the untouched case: rotation changes nothing,
      every softmax is one, and the context is v with each key head's values repeated for the
      query heads of its group. */
  lemma PositionZero(m: Model, x: seq<int>, table: Table)
    requires m.WellFormed() && |x| == m.Hidden() && |table| == m.pairs && IdentityTable(table)
    ensures var s := State([], [], NO_STAGES, NO_COUNTS);
      var out := Next(m, s, x, table).stages;
      && out.qr == out.q && out.kr == out.k
      && |out.v| == m.KvDim() && RepeatedGroups(out.a, out.v, m.HeadDim(), m.group, m.heads)
      && out.p == Ones(m.heads)
  {
    hide FrontOf, Heads, NormRaw, ProjectRaw, Residual, Saturated, GroupValues, RepeatedGroups, Ones, ClampAll,
         AddCounts, IdentityTable;
    var front := FrontOf(m, x, table);
    FrontIdentity(m, x, table);
    var ks, vs := [ClampAll(front.krRaw)], [ClampAll(front.vRaw)];
    assert [] + ks == ks && [] + vs == vs;
    FirstContext(m, front, ks, vs);
    GroupsRepeated(m, vs[0]);
    hide Width, Append;
    AppendNone(Position(m, x, front, ks, vs).stages);
  }

  lemma AppendNone(b: Stages)
    ensures Append(NO_STAGES, b) == b
  {
  }

  lemma FrontIdentity(m: Model, x: seq<int>, table: Table)
    requires m.WellFormed() && |x| == m.Hidden() && |table| == m.pairs && IdentityTable(table)
    ensures var f := FrontOf(m, x, table);
      ClampAll(f.qrRaw) == ClampAll(f.qRaw) && ClampAll(f.krRaw) == ClampAll(f.kRaw)
  {
    hide NormRaw, ProjectRaw, RopeHeadsRaw, IdentityTable;
    var f := FrontOf(m, x, table);
    RopeHeadsIdentity(ClampAll(f.qRaw), m.heads, table);
    RopeHeadsIdentity(ClampAll(f.kRaw), m.kvHeads, table);
    ClampIdempotent(f.qRaw);
    ClampIdempotent(f.kRaw);
    hide ClampAll;
  }

  lemma FirstContext(m: Model, front: Front, ks: seq<seq<int>>, vs: seq<seq<int>>)
    requires m.WellFormed() && |front.qrRaw| == m.Hidden() && |front.krRaw| == |front.vRaw| == m.KvDim()
    requires ks == [ClampAll(front.krRaw)] && vs == [ClampAll(front.vRaw)]
    ensures Width(ks, m.KvDim()) && Width(vs, m.KvDim())
    ensures var heads := Heads(m, ClampAll(front.qrRaw), ks, vs, m.heads);
      ClampAll(heads.aRaw) == GroupValues(m, vs[0], m.heads) && heads.p == Ones(m.heads)
  {
    hide Heads, GroupValues, Ones, ClampAll, CacheInS32;
    assert Width(ks, m.KvDim()) && Width(vs, m.KvDim());
    hide Width;
    OneVectorInS32(front.vRaw);
    HeadsInS32(m, ClampAll(front.qrRaw), ks, vs, m.heads);
    SingleEntryHeads(m, ClampAll(front.qrRaw), ks, vs, m.heads);
    NoneSaturated(Heads(m, ClampAll(front.qrRaw), ks, vs, m.heads).aRaw);
  }

  lemma OneVectorInS32(raw: seq<int>)
    ensures CacheInS32([ClampAll(raw)])
  {
    ClampedInS32(raw);
  }

  // ---- Norm and widths ----

  /** A normalised lane is its exact quotient rounded once and clamped. */
  lemma NormMeaning(v: seq<int>, w: seq<int>, i: nat)
    requires v != [] && |w| == |v| && i < |v|
    ensures Rms(v) > 0 && IsNearestEven(v[i] * w[i] * ONE_Q16, Rms(v), NormRaw(v, w)[i])
    ensures exists mean: nat :: IsNearestEven(SumSquares(v), |v|, mean) && IsRoot((mean + EPS_Q32) * TWO_32, Rms(v))
  {
    hide IsRoot, Isqrt, SumSquares;
    RmsPositive(v);
    var mean := DivRne(SumSquares(v), |v|);
    MeanNonNegative(SumSquares(v), |v|);
    hide DivRne, IsNearestEven;
    NormLane(v, w, i);
    assert IsNearestEven(SumSquares(v), |v|, mean) && IsRoot((mean + EPS_Q32) * TWO_32, Rms(v));
  }

  lemma NormLane(v: seq<int>, w: seq<int>, i: nat)
    requires v != [] && |w| == |v| && i < |v| && Rms(v) > 0
    ensures IsNearestEven(v[i] * w[i] * ONE_Q16, Rms(v), NormRaw(v, w)[i])
  {
    hide IsNearestEven, Rms;
  }

  const TWO_62: nat := 0x4000_0000_0000_0000

  /** Accumulator widths: a ternary dot of n s32 values is below n * 2^31, a dot of two s32
      vectors of length n at most n * 2^62, a softmax numerator at most the denominator times
      2^31. */
  lemma {:induction false} TritDotWidth(row: seq<int>, vec: seq<int>)
    requires |row| <= |vec| && AllInS32(vec)
    ensures Abs(TritDot(row, vec)) <= |row| * 0x8000_0000
  {
    if row == [] {
    } else {
      TritDotWidth(row[..|row| - 1], vec);
    }
  }

  lemma {:induction false} DotWidth(a: seq<int>, b: seq<int>)
    requires |a| <= |b| && AllInS32(a) && AllInS32(b)
    ensures Abs(Dot(a, b)) <= |a| * TWO_62
  {
    if a == [] {
    } else {
      var last := |a| - 1;
      DotWidth(a[..last], b);
      S32Product(a[last], b[last]);
    }
  }

  lemma S32Product(x: int, y: int)
    requires InS32(x) && InS32(y)
    ensures Abs(x * y) <= TWO_62
  {
    assert Abs(x * y) == Abs(x) * Abs(y);
    MulOrder(Abs(y), Abs(x), 0x8000_0000);
    MulOrder(0x8000_0000, Abs(y), 0x8000_0000);
  }

  lemma {:induction false} TotalWidth(exps: seq<nat>)
    requires forall j :: 0 <= j < |exps| ==> exps[j] <= ONE_Q16
    ensures Total(exps) <= |exps| * ONE_Q16
  {
    if exps == [] {
    } else {
      TotalWidth(exps[..|exps| - 1]);
    }
  }

  /** The softmax numerator of n positions fits n * 2^47. */
  lemma NumeratorWidth(scores: seq<int>, lane: seq<int>)
    requires scores != [] && |lane| == |scores| && AllInS32(lane)
    ensures Abs(Weighted(Exps(scores), lane)) <= |scores| * 0x8000_0000_0000
  {
    var exps := Exps(scores);
    hide Exps, Weight, MaxOf;
    forall j | 0 <= j < |exps| ensures exps[j] <= ONE_Q16 {
      assert exps[j] == Weight(scores[j], MaxOf(scores));
    }
    TotalWidth(exps);
    WeightedBetween(exps, lane, S32_MIN, S32_MAX);
  }
}
