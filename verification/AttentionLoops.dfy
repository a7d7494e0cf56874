/** The datapath as the code runs it, with its accumulation loops; every loop is proved to
    compute the function that specifies it. */
module AttentionLoops {
  import opened Arithmetic
  import opened ExpQ16
  import opened Attention
  import opened AttentionPrefill

  /** The inner loop of matvec: a trit adds or subtracts an activation. */
  method Accumulate(trits: seq<int>, base: nat, vec: seq<int>) returns (acc: int)
    requires base + |vec| <= |trits|
    ensures acc == TritDot(trits[base..base + |vec|], vec)
  {
    ghost var line := trits[base..base + |vec|];
    acc := 0;
    var c := 0;
    while c < |vec|
      invariant c <= |vec| && acc == TritDot(line[..c], vec)
    {
      var trit := trits[base + c];
      assert line[..c + 1][..c] == line[..c] && line[c] == trit;
      if trit != 0 {
        acc := acc + if trit > 0 then vec[c] else -vec[c];
      }
      c := c + 1;
    }
    assert line[..c] == line;
  }

  /** matvec: an exact accumulator, one rounding and one clamp per row. */
  method Project(trits: seq<int>, rows: nat, vec: seq<int>, scale: int) returns (out: seq<int>, saturated: nat)
    requires rows * |vec| == |trits|
    ensures out == ClampAll(ProjectRaw(trits, rows, vec, scale))
    ensures saturated == Saturated(ProjectRaw(trits, rows, vec, scale))
  {
    hide DivRne, TritDot, ClampAll, Saturated, InS32;
    var cols := |vec|;
    ghost var raw: seq<int> := [];
    EmptyStage();
    out, saturated := [], 0;
    var r := 0;
    while r < rows
      invariant r <= rows && r * cols <= |trits|
      invariant raw == ProjectRaw(trits, r, vec, scale)
      invariant out == ClampAll(raw) && saturated == Saturated(raw)
    {
      HeadSplit(r + 1, cols);
      MulOrder(cols, r + 1, rows);
      var acc := Accumulate(trits, r * cols, vec);
      var value := DivRne(acc * scale, ONE_Q16);
      Extend(raw, value);
      raw := raw + [value];
      out := out + [Clamp(value)];
      saturated := saturated + if InS32(value) then 0 else 1;
      r := r + 1;
    }
  }

  lemma EmptyStage()
    ensures ClampAll([]) == [] && Saturated([]) == 0
  {
  }

  lemma Extend(raw: seq<int>, value: int)
    ensures ClampAll(raw + [value]) == ClampAll(raw) + [Clamp(value)]
    ensures Saturated(raw + [value]) == Saturated(raw) + if InS32(value) then 0 else 1
  {
    assert (raw + [value])[..|raw|] == raw;
  }

  lemma {:induction false} SaturatedConcat(a: seq<int>, b: seq<int>)
    ensures Saturated(a + b) == Saturated(a) + Saturated(b)
  {
    EmptyStage();
    hide Saturated, InS32;
    if b == [] {
      assert a + b == a;
    } else {
      var rest, x := b[..|b| - 1], b[|b| - 1];
      SaturatedConcat(a, rest);
      assert a + b == (a + rest) + [x];
      Extend(a + rest, x);
      assert b == rest + [x];
      Extend(rest, x);
    }
  }

  lemma ClampConcat(a: seq<int>, b: seq<int>)
    ensures ClampAll(a + b) == ClampAll(a) + ClampAll(b)
  {
  }

  /** rope: a copy of the vector whose pairs are overwritten one by one. */
  method Rope(vec: seq<int>, table: Table) returns (out: seq<int>, saturated: nat)
    requires |vec| == 2 * |table|
    ensures out == ClampAll(RopeRaw(vec, table))
    ensures saturated == Saturated(RopeRaw(vec, table))
  {
    hide DivRne, Saturated, InS32, Clamp, RopeRaw, Rotated, ClampAll;
    var pairs := |table|;
    ghost var raw := RopeRaw(vec, table);
    RotateNone(vec, raw, pairs);
    out, saturated := vec, 0;
    var i := 0;
    while i < pairs
      invariant i <= pairs && |out| == |vec| && Rotated(out, raw, i, pairs)
      invariant saturated == Saturated(raw[..i]) + Saturated(raw[pairs..pairs + i])
    {
      var low, high := RopePair(vec[i], vec[pairs + i], table[i]);
      RopeEntries(vec, table, i);
      RotateOne(out, raw, i, pairs);
      out := out[i := Clamp(low)][pairs + i := Clamp(high)];
      saturated := saturated + (if InS32(low) then 0 else 1) + (if InS32(high) then 0 else 1);
      ExtendSlice(raw, 0, i);
      ExtendSlice(raw, pairs, pairs + i);
      i := i + 1;
    }
    WholeStage(raw, pairs);
    RotateAll(out, raw, pairs);
  }

  /** The first i pairs of `out` hold their clamped rotation. */
  ghost predicate Rotated(out: seq<int>, raw: seq<int>, i: nat, pairs: nat)
    requires |out| == |raw| == 2 * pairs && i <= pairs
  {
    && (forall k :: 0 <= k < i ==> out[k] == Clamp(raw[k]))
    && (forall k :: pairs <= k < pairs + i ==> out[k] == Clamp(raw[k]))
  }

  lemma RotateNone(vec: seq<int>, raw: seq<int>, pairs: nat)
    requires |vec| == |raw| == 2 * pairs
    ensures Rotated(vec, raw, 0, pairs)
    ensures Saturated(raw[..0]) == 0 == Saturated(raw[pairs..pairs + 0])
  {
  }

  lemma RotateOne(out: seq<int>, raw: seq<int>, i: nat, pairs: nat)
    requires |out| == |raw| == 2 * pairs && i < pairs && Rotated(out, raw, i, pairs)
    ensures Rotated(out[i := Clamp(raw[i])][pairs + i := Clamp(raw[pairs + i])], raw, i + 1, pairs)
  {
    hide Clamp;
  }

  lemma RotateAll(out: seq<int>, raw: seq<int>, pairs: nat)
    requires |out| == |raw| == 2 * pairs && Rotated(out, raw, pairs, pairs)
    ensures out == ClampAll(raw)
  {
    hide Clamp;
  }

  lemma RopeEntries(vec: seq<int>, table: Table, i: nat)
    requires |vec| == 2 * |table| && i < |table|
    ensures var pairs := |table|;
      && RopeRaw(vec, table)[i] == DivRne(vec[i] * table[i].0 - vec[pairs + i] * table[i].1, ONE_Q16)
      && RopeRaw(vec, table)[pairs + i] == DivRne(vec[pairs + i] * table[i].0 + vec[i] * table[i].1, ONE_Q16)
  {
    hide DivRne;
  }

  method RopePair(a: int, b: int, entry: (int, int)) returns (low: int, high: int)
    ensures low == DivRne(a * entry.0 - b * entry.1, ONE_Q16)
    ensures high == DivRne(b * entry.0 + a * entry.1, ONE_Q16)
  {
    hide DivRne;
    low, high := DivRne(a * entry.0 - b * entry.1, ONE_Q16), DivRne(b * entry.0 + a * entry.1, ONE_Q16);
  }

  lemma ExtendSlice(raw: seq<int>, from: nat, to: nat)
    requires from <= to < |raw|
    ensures Saturated(raw[from..to + 1]) == Saturated(raw[from..to]) + if InS32(raw[to]) then 0 else 1
  {
    assert raw[from..to + 1] == raw[from..to] + [raw[to]];
    Extend(raw[from..to], raw[to]);
  }

  lemma WholeStage(raw: seq<int>, pairs: nat)
    requires |raw| == 2 * pairs
    ensures Saturated(raw) == Saturated(raw[..pairs]) + Saturated(raw[pairs..pairs + pairs])
  {
    SaturatedConcat(raw[..pairs], raw[pairs..]);
    assert raw[..pairs] + raw[pairs..] == raw && raw[pairs..pairs + pairs] == raw[pairs..];
  }

  /** Every head rotated in turn and flattened. */
  method RopeHeads(flat: seq<int>, heads: nat, table: Table) returns (out: seq<int>, saturated: nat)
    requires |flat| == heads * (2 * |table|)
    ensures out == ClampAll(RopeHeadsRaw(flat, heads, table))
    ensures saturated == Saturated(RopeHeadsRaw(flat, heads, table))
  {
    hide RopeRaw, ClampAll, Saturated, InS32, RopeHeadsRaw;
    var d := 2 * |table|;
    NoHeads(flat, table);
    out, saturated := [], 0;
    var h, at := 0, 0;
    while h < heads
      invariant h <= heads && at == h * d <= |flat|
      invariant out == ClampAll(RopeHeadsRaw(flat[..at], h, table))
      invariant saturated == Saturated(RopeHeadsRaw(flat[..at], h, table))
    {
      OffsetFits(h, heads, d);
      HeadSplit(h + 1, d);
      var rotated, more := Rope(flat[at..at + d], table);
      OneMoreHead(flat, h, at, table);
      ClampConcat(RopeHeadsRaw(flat[..at], h, table), RopeRaw(flat[at..at + d], table));
      SaturatedConcat(RopeHeadsRaw(flat[..at], h, table), RopeRaw(flat[at..at + d], table));
      out, saturated := out + rotated, saturated + more;
      h, at := h + 1, at + d;
    }
    assert flat[..at] == flat;
  }

  lemma NoHeads(flat: seq<int>, table: Table)
    ensures flat[..0] == [] && RopeHeadsRaw([], 0, table) == []
    ensures ClampAll([]) == [] && Saturated([]) == 0
  {
  }

  lemma OneMoreHead(flat: seq<int>, h: nat, at: nat, table: Table)
    requires at == h * (2 * |table|) && at + 2 * |table| == (h + 1) * (2 * |table|) <= |flat|
    ensures RopeHeadsRaw(flat[..at + 2 * |table|], h + 1, table)
         == RopeHeadsRaw(flat[..at], h, table) + RopeRaw(flat[at..at + 2 * |table|], table)
  {
    hide RopeRaw;
    var front := flat[..at + 2 * |table|];
    assert front[..at] == flat[..at];
    assert front[at..] == flat[at..at + 2 * |table|];
  }

  /** The inner loop of a score: head_q[d] * kj[base + d] summed. */
  method ScoreDot(query: seq<int>, key: seq<int>, base: nat) returns (acc: int)
    requires base + |query| <= |key|
    ensures acc == Dot(query, key[base..base + |query|])
  {
    ghost var window := key[base..base + |query|];
    acc := 0;
    var d := 0;
    while d < |query|
      invariant d <= |query| && acc == Dot(query[..d], window)
    {
      assert query[..d + 1][..d] == query[..d] && window[d] == key[base + d];
      acc := acc + query[d] * key[base + d];
      d := d + 1;
    }
    assert query[..d] == query;
  }

  method Scores(query: seq<int>, keys: seq<seq<int>>, base: nat, scaling: int) returns (scRaw: seq<int>)
    requires forall k <- keys :: base + |query| <= |k|
    ensures scRaw == ScoresRaw(query, Window(keys, base, |query|), scaling)
  {
    hide DivRne, Dot;
    ghost var windows := Window(keys, base, |query|);
    scRaw := [];
    var j := 0;
    while j < |keys|
      invariant j <= |keys| && |scRaw| == j
      invariant forall i :: 0 <= i < j ==> scRaw[i] == DivRne(Dot(query, windows[i]) * scaling, TWO_32)
    {
      assert keys[j] in keys;
      var acc := ScoreDot(query, keys[j], base);
      scRaw := scRaw + [DivRne(acc * scaling, TWO_32)];
      j := j + 1;
    }
  }

  /** The inner loop of the context: exps[j] * vs[j][base + d] summed over positions. */
  method ContextLane(exps: seq<nat>, values: seq<seq<int>>, at: nat) returns (acc: int)
    requires |exps| == |values| && forall v <- values :: at < |v|
    ensures acc == Weighted(exps, Lane(values, at))
  {
    ghost var lane := Lane(values, at);
    acc := 0;
    var j := 0;
    while j < |exps|
      invariant j <= |exps| && acc == Weighted(exps[..j], lane)
    {
      assert exps[..j + 1][..j] == exps[..j];
      assert values[j] in values;
      acc := acc + exps[j] * values[j][at];
      j := j + 1;
    }
    assert exps[..j] == exps;
  }

  method Context(exps: seq<nat>, values: seq<seq<int>>, base: nat, headDim: nat) returns (aRaw: seq<int>)
    requires |exps| == |values| && Total(exps) > 0 && forall v <- values :: base + headDim <= |v|
    ensures aRaw == ContextRaw(exps, Window(values, base, headDim), headDim)
  {
    hide DivRne, Weighted, Total;
    ghost var windows := Window(values, base, headDim);
    aRaw := [];
    var d := 0;
    while d < headDim
      invariant d <= headDim && |aRaw| == d
      invariant forall i :: 0 <= i < d ==> aRaw[i] == DivRne(Weighted(exps, Lane(windows, i)), Total(exps))
    {
      assert Lane(values, base + d) == Lane(windows, d);
      var acc := ContextLane(exps, values, base + d);
      aRaw := aRaw + [DivRne(acc, Total(exps))];
      d := d + 1;
    }
  }

  /** One head: its scores, the softmax weights, a context lane each. */
  method OneHeadLoop(query: seq<int>, keys: seq<seq<int>>, values: seq<seq<int>>, base: nat, scaling: int)
    returns (out: HeadsOut)
    requires |keys| == |values| > 0
    requires (forall k <- keys :: base + |query| <= |k|) && (forall v <- values :: base + |query| <= |v|)
    ensures out == Head(query, Window(keys, base, |query|), Window(values, base, |query|), scaling)
  {
    hide ScoresRaw, ContextRaw, Exps, Probabilities, Total, ClampAll;
    var scRaw := Scores(query, keys, base, scaling);
    var exps := Exps(ClampAll(scRaw));
    DenominatorAtLeastOne(ClampAll(scRaw));
    var aRaw := Context(exps, values, base, |query|);
    out := HeadsOut(scRaw, Probabilities(exps), aRaw);
  }

  lemma WindowsFit(cache: seq<seq<int>>, dim: nat, base: nat, width: nat)
    requires Width(cache, dim) && base + width <= dim
    ensures forall c <- cache :: base + width <= |c|
  {
  }

  method HeadLoop(m: Model, qr: seq<int>, ks: seq<seq<int>>, vs: seq<seq<int>>, h: nat) returns (out: HeadsOut)
    requires m.WellFormed() && h < m.heads && |qr| == m.Hidden()
    requires |ks| == |vs| > 0 && Width(ks, m.KvDim()) && Width(vs, m.KvDim())
    ensures out == OneHead(m, qr, ks, vs, h)
  {
    hide Head, Width, Window;
    var d := m.HeadDim();
    var at, base := h * d, h / m.group * d;
    assert at == QueryOffset(m, h) && base == KvOffset(m, h);
    hide QueryOffset, KvOffset;
    WindowsFit(ks, m.KvDim(), base, d);
    WindowsFit(vs, m.KvDim(), base, d);
    out := OneHeadLoop(qr[at..at + d], ks, vs, base, m.scaling);
  }

  /** The heads of one position. */
  method HeadsLoop(m: Model, qr: seq<int>, ks: seq<seq<int>>, vs: seq<seq<int>>) returns (out: HeadsOut)
    requires m.WellFormed() && |qr| == m.Hidden()
    requires |ks| == |vs| > 0 && Width(ks, m.KvDim()) && Width(vs, m.KvDim())
    ensures out == Heads(m, qr, ks, vs, m.heads)
  {
    hide OneHead, Width;
    out := HeadsOut([], [], []);
    var h := 0;
    while h < m.heads
      invariant h <= m.heads && out == Heads(m, qr, ks, vs, h)
    {
      var head := HeadLoop(m, qr, ks, vs, h);
      out := HeadsOut(out.scRaw + head.scRaw, out.p + head.p, out.aRaw + head.aRaw);
      h := h + 1;
    }
  }

  // ---- The prefill ----

  /** A stage after clamping, and how many of its values saturated. */
  datatype Clamped = Clamped(values: seq<int>, saturated: nat)

  function ClampStage(raw: seq<int>): (c: Clamped)
    ensures |c.values| == |raw|
  {
    Clamped(ClampAll(raw), Saturated(raw))
  }

  datatype FrontStages = FrontStages(n: Clamped, q: Clamped, k: Clamped, v: Clamped, qr: Clamped, kr: Clamped)

  function ClampFront(f: Front): FrontStages {
    FrontStages(ClampStage(f.nRaw), ClampStage(f.qRaw), ClampStage(f.kRaw), ClampStage(f.vRaw),
                ClampStage(f.qrRaw), ClampStage(f.krRaw))
  }

  lemma Shape(rows: nat, vec: seq<int>, length: nat)
    requires |vec| == rows && length == rows * rows
    ensures rows * |vec| == length
  {
  }

  /** Norm, projections and rotation of one position. */
  method FrontLoop(m: Model, x: seq<int>, table: Table) returns (f: FrontStages)
    requires m.WellFormed() && |x| == m.Hidden() && |table| == m.pairs
    ensures f == ClampFront(FrontOf(m, x, table))
  {
    hide NormRaw, ProjectRaw, RopeHeadsRaw, Saturated, ClampAll;
    HiddenPositive(m);
    var nRaw := NormRaw(x, m.wIn);
    var n := ClampAll(nRaw);
    Shape(m.Hidden(), n, |m.q|);
    var q, satQ := Project(m.q, m.Hidden(), n, m.scaleQ);
    var k, satK := Project(m.k, m.KvDim(), n, m.scaleK);
    var v, satV := Project(m.v, m.KvDim(), n, m.scaleV);
    var qr, satQr := RopeHeads(q, m.heads, table);
    var kr, satKr := RopeHeads(k, m.kvHeads, table);
    f := FrontStages(Clamped(n, Saturated(nRaw)), Clamped(q, satQ), Clamped(k, satK), Clamped(v, satV),
                     Clamped(qr, satQr), Clamped(kr, satKr));
  }

  /** Attention, second norm, output projection and residual of one position. */
  method BackLoop(m: Model, x: seq<int>, f: FrontStages, ks: seq<seq<int>>, vs: seq<seq<int>>, ghost front: Front)
    returns (step: Step)
    requires m.WellFormed() && |x| == m.Hidden() && |front.qrRaw| == m.Hidden() && f == ClampFront(front)
    requires |ks| == |vs| > 0 && Width(ks, m.KvDim()) && Width(vs, m.KvDim())
    ensures step == Position(m, x, front, ks, vs)
  {
    hide NormRaw, ProjectRaw, Heads, Saturated, ClampAll, Residual, Width;
    HiddenPositive(m);
    var heads := HeadsLoop(m, f.qr.values, ks, vs);
    var a := ClampAll(heads.aRaw);
    var cRaw := NormRaw(a, m.wSub);
    var c := ClampAll(cRaw);
    Shape(m.Hidden(), c, |m.o|);
    var o, satO := Project(m.o, m.Hidden(), c, m.scaleO);
    var rRaw := Residual(x, o);
    var stages := Stages(f.n.values, f.q.values, f.k.values, f.v.values, f.qr.values, f.kr.values,
                         ClampAll(heads.scRaw), heads.p, a, c, o, ClampAll(rRaw));
    var sat := Counts(f.n.saturated, f.q.saturated, f.k.saturated, f.v.saturated, f.qr.saturated, f.kr.saturated,
                      Saturated(heads.scRaw), Saturated(heads.aRaw), Saturated(cRaw), satO, Saturated(rRaw));
    step := Step(stages, sat);
  }

  /** One position: its caches are extended before any head reads them. */
  method PositionLoop(m: Model, s: State, x: seq<int>, table: Table) returns (s': State)
    requires m.WellFormed() && |x| == m.Hidden() && |table| == m.pairs && Caches(m, s, |s.ks|)
    ensures s' == Next(m, s, x, table)
  {
    hide FrontOf, Position, Saturated, ClampAll;
    var f := FrontLoop(m, x, table);
    var ks, vs := s.ks + [f.kr.values], s.vs + [f.v.values];
    assert Width(ks, m.KvDim()) && Width(vs, m.KvDim());
    hide Width;
    var step := BackLoop(m, x, f, ks, vs, FrontOf(m, x, table));
    var was, now := s.stages, step.stages;
    var stages := Stages(was.n + now.n, was.q + now.q, was.k + now.k, was.v + now.v, was.qr + now.qr, was.kr + now.kr,
                         was.sc + now.sc, was.p + now.p, was.a + now.a, was.c + now.c, was.o + now.o, was.r + now.r);
    var counts, more := s.sat, step.sat;
    var sat := Counts(counts.n + more.n, counts.q + more.q, counts.k + more.k, counts.v + more.v,
                      counts.qr + more.qr, counts.kr + more.kr, counts.sc + more.sc, counts.a + more.a,
                      counts.c + more.c, counts.o + more.o, counts.r + more.r);
    s' := State(ks, vs, stages, sat);
  }

  /** fpga_q16: the stage lists and saturation counts of a whole prefill. */
  method FpgaQ16(m: Model, xs: seq<seq<int>>, tables: seq<Table>) returns (stages: Stages, sat: Counts)
    requires Inputs(m, xs, tables)
    ensures stages == Run(m, xs, tables).stages && sat == Run(m, xs, tables).sat
  {
    hide Next, Inputs, Run;
    RunNone(m, tables, xs);
    var s := State([], [], Stages([], [], [], [], [], [], [], [], [], [], [], []),
                   Counts(0, 0, 0, 0, 0, 0, 0, 0, 0, 0, 0));
    var t := 0;
    while t < |xs|
      invariant t <= |xs| && Inputs(m, xs[..t], tables) && s == Run(m, xs[..t], tables)
    {
      RunOne(m, xs, tables, t);
      s := PositionLoop(m, s, xs[t], tables[t]);
      t := t + 1;
    }
    assert xs[..t] == xs;
    stages, sat := s.stages, s.sat;
  }

  lemma RunNone(m: Model, tables: seq<Table>, xs: seq<seq<int>>)
    requires Inputs(m, xs, tables)
    ensures xs[..0] == [] && Inputs(m, [], tables)
    ensures Run(m, [], tables) == State([], [], NO_STAGES, NO_COUNTS)
  {
  }

  lemma RunOne(m: Model, xs: seq<seq<int>>, tables: seq<Table>, t: nat)
    requires Inputs(m, xs, tables) && t < |xs|
    ensures t < |tables| && |xs[t]| == m.Hidden() && |tables[t]| == m.pairs && m.WellFormed()
    ensures Inputs(m, xs[..t], tables) && Inputs(m, xs[..t + 1], tables)
    ensures Run(m, xs[..t + 1], tables) == Next(m, Run(m, xs[..t], tables), xs[t], tables[t])
  {
    hide Next;
    assert Inputs(m, xs[..t], tables) && Inputs(m, xs[..t + 1], tables);
    assert xs[..t + 1][..t] == xs[..t];
  }
}
