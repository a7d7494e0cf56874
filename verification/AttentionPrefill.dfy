/** The causal prefill over a sequence of positions: one step per position, its caches, the
    stage lists and the saturation counts. */
module AttentionPrefill {
  import opened Arithmetic
  import opened ExpQ16
  import opened Attention

  /** Ternary matrices in row-major order, Q16 norm weights, Q16 scales, and the shape. */
  datatype Model = Model(q: seq<int>, k: seq<int>, v: seq<int>, o: seq<int>, wIn: seq<int>, wSub: seq<int>,
                         scaleQ: int, scaleK: int, scaleV: int, scaleO: int, scaling: int,
                         heads: nat, kvHeads: nat, pairs: nat, group: nat)
  {
    function HeadDim(): nat { 2 * pairs }
    function Hidden(): nat { heads * HeadDim() }
    function KvDim(): nat { kvHeads * HeadDim() }

    ghost predicate WellFormed() {
      && heads >= 1 && pairs >= 1 && group >= 1 && heads <= group * kvHeads
      && |q| == Hidden() * Hidden() && |o| == Hidden() * Hidden()
      && |k| == KvDim() * Hidden() && |v| == KvDim() * Hidden()
      && |wIn| == Hidden() && |wSub| == Hidden()
    }
  }

  datatype Counts = Counts(n: nat, q: nat, k: nat, v: nat, qr: nat, kr: nat, sc: nat, a: nat, c: nat, o: nat, r: nat)

  datatype Stages = Stages(n: seq<int>, q: seq<int>, k: seq<int>, v: seq<int>, qr: seq<int>, kr: seq<int>,
                           sc: seq<int>, p: seq<int>, a: seq<int>, c: seq<int>, o: seq<int>, r: seq<int>)

  /** A fixed window of every cached vector. */
  function Window(cache: seq<seq<int>>, base: nat, width: nat): (w: seq<seq<int>>)
    requires forall c <- cache :: base + width <= |c|
    ensures |w| == |cache|
    ensures forall j ::
        0 <= j < |w| ==> |w[j]| == width && base + width <= |cache[j]| && w[j] == cache[j][base..base + width]
  {
    seq(|cache|, j requires 0 <= j < |cache| => assert cache[j] in cache; cache[j][base..base + width])
  }

  ghost predicate Width(cache: seq<seq<int>>, dim: nat) {
    forall c <- cache :: |c| == dim
  }

  /** What one head, or the first few heads, contribute to a position. */
  datatype HeadsOut = HeadsOut(scRaw: seq<int>, p: seq<int>, aRaw: seq<int>)

  function Head(query: seq<int>, keys: seq<seq<int>>, values: seq<seq<int>>, scaling: int): (out: HeadsOut)
    requires |keys| == |values| > 0
    requires Width(keys, |query|) && Width(values, |query|)
    ensures |out.scRaw| == |out.p| == |keys| && |out.aRaw| == |query|
  {
    var scRaw := ScoresRaw(query, keys, scaling);
    var exps := Exps(ClampAll(scRaw));
    DenominatorAtLeastOne(ClampAll(scRaw));
    HeadsOut(scRaw, Probabilities(exps), ContextRaw(exps, values, |query|))
  }

  /** Where head h's query starts. */
  function QueryOffset(m: Model, h: nat): (offset: nat)
    requires h < m.heads
    ensures offset + m.HeadDim() <= m.Hidden()
  {
    var d := m.HeadDim();
    OffsetFits(h, m.heads, d);
    h * d
  }

  /** Where the window of head h's group starts in a cached vector. */
  function KvOffset(m: Model, h: nat): (offset: nat)
    requires m.WellFormed() && h < m.heads
    ensures offset + m.HeadDim() <= m.KvDim()
  {
    var d := m.HeadDim();
    GroupBelow(h, m.group, m.kvHeads);
    OffsetFits(h / m.group, m.kvHeads, d);
    h / m.group * d
  }

  /** Consecutive heads share a window: the first `group` of them the first head's vector, the next
      ones the second's, and so on. */
  lemma KvGroup(m: Model, g: nat, h: nat)
    requires m.WellFormed() && h < m.heads && g * m.group <= h < (g + 1) * m.group
    ensures KvOffset(m, h) == g * m.HeadDim()
  {
    assert h == g * m.group + (h - g * m.group);
    DivModUnique(h, m.group, g, h - g * m.group);
  }

  lemma OffsetFits(h: nat, count: nat, d: nat)
    requires h < count
    ensures 0 <= h * d && h * d + d <= count * d
  {
    MulOrder(d, h + 1, count);
  }

  lemma GroupBelow(h: nat, group: nat, kvHeads: nat)
    requires group >= 1 && h < group * kvHeads
    ensures 0 <= h / group < kvHeads
  {
    if h / group >= kvHeads {
      MulOrder(group, kvHeads, h / group);
    }
  }

  /** Head h of a position against its group's windows of the caches. */
  function OneHead(m: Model, qr: seq<int>, ks: seq<seq<int>>, vs: seq<seq<int>>, h: nat): (out: HeadsOut)
    requires m.WellFormed() && h < m.heads && |qr| == m.Hidden()
    requires |ks| == |vs| > 0 && Width(ks, m.KvDim()) && Width(vs, m.KvDim())
    ensures |out.aRaw| == m.HeadDim()
  {
    var d := m.HeadDim();
    var at, base := QueryOffset(m, h), KvOffset(m, h);
    hide QueryOffset, KvOffset, Head;
    var keys, values := Window(ks, base, d), Window(vs, base, d);
    Head(qr[at..at + d], keys, values, m.scaling)
  }

  /** The first `count` heads of a position, in order. */
  function Heads(m: Model, qr: seq<int>, ks: seq<seq<int>>, vs: seq<seq<int>>, count: nat): (out: HeadsOut)
    requires m.WellFormed() && count <= m.heads && |qr| == m.Hidden()
    requires |ks| == |vs| > 0 && Width(ks, m.KvDim()) && Width(vs, m.KvDim())
    ensures |out.aRaw| == count * m.HeadDim()
    decreases count
  {
    if count == 0 then HeadsOut([], [], []) else
      hide OneHead, Width;
      HeadSplit(count, m.HeadDim());
      var rest := Heads(m, qr, ks, vs, count - 1);
      var head := OneHead(m, qr, ks, vs, count - 1);
      HeadsOut(rest.scRaw + head.scRaw, rest.p + head.p, rest.aRaw + head.aRaw)
  }

  /** Everything position t computes; ks and vs already hold its own entry. */
  datatype Step = Step(stages: Stages, sat: Counts)

  /** The part of a position before attention: norm, projections and rotation. */
  datatype Front = Front(nRaw: seq<int>, qRaw: seq<int>, kRaw: seq<int>, vRaw: seq<int>, qrRaw: seq<int>,
                         krRaw: seq<int>)

  function FrontOf(m: Model, x: seq<int>, table: Table): (f: Front)
    requires m.WellFormed() && |x| == m.Hidden() && |table| == m.pairs
    ensures |f.nRaw| == |f.qRaw| == |f.qrRaw| == m.Hidden()
    ensures |f.kRaw| == |f.vRaw| == |f.krRaw| == m.KvDim()
  {
    HiddenPositive(m);
    var nRaw := NormRaw(x, m.wIn);
    var n := ClampAll(nRaw);
    var qRaw := ProjectRaw(m.q, m.Hidden(), n, m.scaleQ);
    var kRaw := ProjectRaw(m.k, m.KvDim(), n, m.scaleK);
    var vRaw := ProjectRaw(m.v, m.KvDim(), n, m.scaleV);
    Front(nRaw, qRaw, kRaw, vRaw, RopeHeadsRaw(ClampAll(qRaw), m.heads, table),
          RopeHeadsRaw(ClampAll(kRaw), m.kvHeads, table))
  }

  lemma HiddenPositive(m: Model)
    requires m.WellFormed()
    ensures m.Hidden() > 0
  {
    MulOrder(m.HeadDim(), 1, m.heads);
  }

  /** The part of a position after attention: second norm, output projection, residual. */
  function Residual(x: seq<int>, o: seq<int>): (raw: seq<int>)
    requires |x| == |o|
    ensures |raw| == |x|
  {
    seq(|x|, i requires 0 <= i < |x| => x[i] + o[i])
  }

  function Position(m: Model, x: seq<int>, front: Front, ks: seq<seq<int>>, vs: seq<seq<int>>): Step
    requires m.WellFormed() && |x| == m.Hidden() && |front.qrRaw| == m.Hidden()
    requires |ks| == |vs| > 0 && Width(ks, m.KvDim()) && Width(vs, m.KvDim())
  {
    HiddenPositive(m);
    var qr := ClampAll(front.qrRaw);
    var heads := Heads(m, qr, ks, vs, m.heads);
    var a := ClampAll(heads.aRaw);
    var cRaw := NormRaw(a, m.wSub);
    var c := ClampAll(cRaw);
    var oRaw := ProjectRaw(m.o, m.Hidden(), c, m.scaleO);
    var o := ClampAll(oRaw);
    var rRaw := Residual(x, o);
    Step(Stages(ClampAll(front.nRaw), ClampAll(front.qRaw), ClampAll(front.kRaw), ClampAll(front.vRaw),
                qr, ClampAll(front.krRaw), ClampAll(heads.scRaw), heads.p, a, c, o, ClampAll(rRaw)),
         Counts(Saturated(front.nRaw), Saturated(front.qRaw), Saturated(front.kRaw), Saturated(front.vRaw),
                Saturated(front.qrRaw), Saturated(front.krRaw), Saturated(heads.scRaw), Saturated(heads.aRaw),
                Saturated(cRaw), Saturated(oRaw), Saturated(rRaw)))
  }

  // ---- The run ----

  datatype State = State(ks: seq<seq<int>>, vs: seq<seq<int>>, stages: Stages, sat: Counts)

  const NO_STAGES := Stages([], [], [], [], [], [], [], [], [], [], [], [])
  const NO_COUNTS := Counts(0, 0, 0, 0, 0, 0, 0, 0, 0, 0, 0)

  function Append(a: Stages, b: Stages): Stages {
    Stages(a.n + b.n, a.q + b.q, a.k + b.k, a.v + b.v, a.qr + b.qr, a.kr + b.kr,
           a.sc + b.sc, a.p + b.p, a.a + b.a, a.c + b.c, a.o + b.o, a.r + b.r)
  }

  function AddCounts(a: Counts, b: Counts): Counts {
    Counts(a.n + b.n, a.q + b.q, a.k + b.k, a.v + b.v, a.qr + b.qr, a.kr + b.kr,
           a.sc + b.sc, a.a + b.a, a.c + b.c, a.o + b.o, a.r + b.r)
  }

  ghost predicate Inputs(m: Model, xs: seq<seq<int>>, tables: seq<Table>) {
    && m.WellFormed() && |tables| >= |xs|
    && (forall i :: 0 <= i < |xs| ==> |xs[i]| == m.Hidden())
    && (forall i :: 0 <= i < |tables| ==> |tables[i]| == m.pairs)
  }

  ghost predicate Caches(m: Model, s: State, count: nat) {
    |s.ks| == |s.vs| == count && Width(s.ks, m.KvDim()) && Width(s.vs, m.KvDim())
  }

  /** One more position on top of a state. */
  function Next(m: Model, s: State, x: seq<int>, table: Table): (s': State)
    requires m.WellFormed() && |x| == m.Hidden() && |table| == m.pairs && Caches(m, s, |s.ks|)
    ensures Caches(m, s', |s.ks| + 1)
  {
    var front := FrontOf(m, x, table);
    var ks, vs := s.ks + [ClampAll(front.krRaw)], s.vs + [ClampAll(front.vRaw)];
    var step := Position(m, x, front, ks, vs);
    State(ks, vs, Append(s.stages, step.stages), AddCounts(s.sat, step.sat))
  }

  function Run(m: Model, xs: seq<seq<int>>, tables: seq<Table>): (s: State)
    requires Inputs(m, xs, tables)
    ensures Caches(m, s, |xs|)
  {
    if xs == [] then State([], [], NO_STAGES, NO_COUNTS) else
      var last := |xs| - 1;
      Next(m, Run(m, xs[..last], tables), xs[last], tables[last])
  }
}
