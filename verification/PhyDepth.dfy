/** The memoised depth search over a netlist and the path reports made from it. */
module PhyDepth {
  import opened Netlist

  // ---- Drivers ----

  /** driver maps each net to the last cell with an output port on it. */
  ghost predicate DrivesLast(cells: seq<Cell>, driver: map<int, nat>) {
    && (forall b :: b in driver ==> driver[b] < |cells| && b in Outputs(cells[driver[b]]))
    && (forall c, k :: 0 <= c < |cells| && 0 <= k < |Outputs(cells[c])| ==>
          Outputs(cells[c])[k] in driver && driver[Outputs(cells[c])[k]] >= c)
  }

  method Drivers(cells: seq<Cell>) returns (driver: map<int, nat>)
    ensures DrivesLast(cells, driver)
  {
    hide Outputs;
    driver := map[];
    for c := 0 to |cells|
      invariant DrivesLast(cells[..c], driver)
    {
      var nets := Outputs(cells[c]);
      ghost var was := driver;
      for k := 0 to |nets|
        invariant forall b :: b in driver ==> driver[b] <= c && b in Outputs(cells[driver[b]])
        invariant forall b :: b in was ==> b in driver && driver[b] >= was[b]
        invariant forall i :: 0 <= i < k ==> nets[i] in driver && driver[nets[i]] == c
      {
        driver := driver[nets[k] := c];
      }
      DrivesMore(cells, c, was, driver);
    }
    assert cells[..|cells|] == cells;
  }

  lemma DrivesMore(cells: seq<Cell>, c: nat, was: map<int, nat>, driver: map<int, nat>)
    requires c < |cells| && DrivesLast(cells[..c], was)
    requires forall b :: b in driver ==> driver[b] <= c && b in Outputs(cells[driver[b]])
    requires forall b :: b in was ==> b in driver && driver[b] >= was[b]
    requires forall i ::
        0 <= i < |Outputs(cells[c])| ==> Outputs(cells[c])[i] in driver && driver[Outputs(cells[c])[i]] == c
    ensures DrivesLast(cells[..c + 1], driver)
  {
    hide Outputs;
    forall d, k | 0 <= d < c + 1 && 0 <= k < |Outputs(cells[d])|
      ensures Outputs(cells[d])[k] in driver && driver[Outputs(cells[d])[k]] >= d
    {
      var b := Outputs(cells[d])[k];
      if d < c {
        assert cells[..c][d] == cells[d];
        assert Outputs(cells[..c][d])[k] in was && was[Outputs(cells[..c][d])[k]] >= d;
        assert b in was && was[b] >= d;
      } else {
        assert b == Outputs(cells[c])[k];
      }
    }
  }

  // ---- The memo ----

  type Key = (int, Start)
  type Memo = map<Key, int>

  /** Keys among which a search stays: with a net, the nets before it. */
  ghost predicate Closed(g: Graph, universe: set<Key>)
    requires g.WellFormed()
  {
    forall k, i :: k in universe && 0 <= i < |g.Before(k.0)| ==> (g.Before(k.0)[i], k.1) in universe
  }

  /** What a result may be: -1 or the levels of a real path, and the longest where it is exact. */
  ghost predicate Value(g: Graph, b: int, start: Start, r: int, exact: bool)
    requires g.WellFormed()
  {
    r >= -1 && (r >= 0 ==> g.Witnessed(b, start, r)) && (exact ==> g.Longest(b, start, r))
  }

  ghost predicate Values(g: Graph, nets: seq<int>, start: Start, values: seq<int>)
    requires g.WellFormed()
  {
    |values| == |nets|
    && forall i :: 0 <= i < |values| ==> Value(g, nets[i], start, values[i], g.AcyclicBehind(nets[i]))
  }

  /** Every entry is a value, exact where no cycle lies behind its net, unless its own search is still
      open. */
  ghost predicate Sound(g: Graph, memo: Memo, open: set<Key>)
    requires g.WellFormed()
  {
    forall k :: k in memo ==> Value(g, k.0, k.1, memo[k], g.AcyclicBehind(k.0) && k !in open)
  }

  /** Entries are only added. */
  ghost predicate Grows(before: Memo, after: Memo) {
    forall k :: k in before ==> k in after && after[k] == before[k]
  }

  /** The nets of the open keys lie ahead of b: the search came to b from each of them. */
  ghost predicate Below(g: Graph, open: set<Key>, b: int)
    requires g.WellFormed()
  {
    forall k :: k in open ==> g.Reaches(b, k.0)
  }

  lemma Enter(g: Graph, memo: Memo, key: Key, open: set<Key>)
    requires g.WellFormed() && Sound(g, memo, open) && key !in memo
    ensures Sound(g, memo[key := -1], open + {key}) && Grows(memo, memo[key := -1])
  {
    hide g.Witnessed, g.Longest;
  }

  lemma Leave(g: Graph, was: Memo, memo: Memo, key: Key, r: int, open: set<Key>)
    requires g.WellFormed() && Sound(g, memo, open + {key}) && key !in was
    requires Grows(was[key := -1], memo) && Value(g, key.0, key.1, r, g.AcyclicBehind(key.0))
    ensures Sound(g, memo[key := r], open) && Grows(was, memo[key := r])
  {
    hide g.Witnessed, g.Longest, g.AcyclicBehind;
    assert Grows(was, memo[key := r]) by {
      forall k | k in was ensures k in memo && memo[k] == was[k] {
        assert k in was[key := -1];
      }
    }
    forall k | k in memo[key := r] ensures Value(g, k.0, k.1, memo[key := r][k], g.AcyclicBehind(k.0) && k !in open) {
      if k != key {
        assert Value(g, k.0, k.1, memo[k], g.AcyclicBehind(k.0) && k !in open + {key});
      }
    }
  }

  lemma GrowsFurther(a: Memo, b: Memo, c: Memo)
    requires Grows(a, b) && Grows(b, c)
    ensures Grows(a, c)
  {
  }

  lemma MemoSize(universe: set<Key>, before: Memo, after: Memo)
    requires Grows(before, after)
    ensures |universe - after.Keys| <= |universe - before.Keys|
  {
    SubsetSize(universe - after.Keys, universe - before.Keys);
  }

  lemma SubsetSize<T>(a: set<T>, b: set<T>)
    requires a <= b
    ensures |a| <= |b|
  {
    assert b == a + (b - a);
  }

  lemma EnteredSize(universe: set<Key>, memo: Memo, key: Key)
    requires key in universe && key !in memo
    ensures |universe - memo[key := -1].Keys| < |universe - memo.Keys|
    ensures memo.Keys <= universe ==> memo[key := -1].Keys <= universe
  {
    var rest := universe - memo[key := -1].Keys;
    assert universe - memo.Keys == rest + {key};
  }

  /** Where no cycle lies behind a net, its own search is never open when its value is asked for. */
  lemma Found(g: Graph, memo: Memo, open: set<Key>, b: int, start: Start)
    requires g.WellFormed() && Sound(g, memo, open) && (b, start) in memo && Below(g, open, b)
    ensures Value(g, b, start, memo[(b, start)], g.AcyclicBehind(b))
  {
    hide g.Witnessed, g.Longest, g.AcyclicBehind, g.Reaches;
    var key := (b, start);
    assert Value(g, key.0, key.1, memo[key], g.AcyclicBehind(key.0) && key !in open);
    if g.AcyclicBehind(b) {
      NoWayBack(g, b);
    }
  }

  lemma BelowInput(g: Graph, open: set<Key>, b: int, start: Start, i: nat)
    requires g.WellFormed() && Below(g, open, b) && i < |g.Before(b)|
    ensures Below(g, open + {(b, start)}, g.Before(b)[i])
  {
    hide g.Before, g.Reaches;
    forall k | k in open + {(b, start)} ensures g.Reaches(g.Before(b)[i], k.0) {
      ReachesBack(g, g.Before(b)[i], b, k.0);
    }
  }

  lemma ValueAtStart(g: Graph, b: int, start: Start)
    requires g.WellFormed() && !g.ClassAt(b).Through?
    ensures Value(g, b, start, if g.StartsAt(b, start) then 0 else -1, g.AcyclicBehind(b))
  {
    hide g.Witnessed, g.AcyclicBehind;
    LongestAtStart(g, b, start);
  }

  lemma ValueOfStep(g: Graph, b: int, start: Start, values: seq<int>)
    requires g.WellFormed() && g.ClassAt(b).Through? && Values(g, g.Before(b), start, values)
    ensures Value(g, b, start, StepLevels(MaxOf(values), g.LevelsAt(b)), g.AcyclicBehind(b))
  {
    hide g.Witnessed, g.Longest, g.Before, g.AcyclicBehind, MaxOf;
    var nets := g.Before(b);
    assert forall i :: 0 <= i < |values| ==> Value(g, nets[i], start, values[i], g.AcyclicBehind(nets[i]));
    StepWitnessed(g, b, start, values);
    if g.AcyclicBehind(b) {
      forall i | 0 <= i < |values| ensures g.Longest(nets[i], start, values[i]) {
        AcyclicInput(g, nets[i], b);
      }
      StepLongest(g, b, start, values);
    }
  }

  // ---- The search ----

  class Search {
    const g: Graph
    var memo: Memo

    constructor (g: Graph)
      requires g.WellFormed()
      ensures this.g == g && memo == map[]
    {
      this.g := g;
      memo := map[];
    }

    /** depth. On every netlist it terminates, since each key is entered at most once and an entry
        is never changed afterwards, and a result of zero or more is the level count of a real
        path. Where no cycle lies behind the net, with `open` the keys whose search is in progress,
        the result is the longest, whatever cycles the rest of the netlist has. */
    method Depth(b: int, start: Start, ghost universe: set<Key>, ghost open: set<Key>)
      returns (r: int)
      requires g.WellFormed() && Closed(g, universe) && (b, start) in universe && memo.Keys <= universe
      requires Sound(g, memo, open) && Below(g, open, b)
      modifies this
      ensures memo.Keys <= universe && Sound(g, memo, open) && Grows(old(memo), memo)
      ensures Value(g, b, start, r, g.AcyclicBehind(b))
      ensures (b, start) in memo && memo[(b, start)] == r
      decreases |universe - memo.Keys|, 1
    {
      hide Value, Values, Sound, Grows, Below, Closed, MaxOf, StepLevels, ClassOf;
      var key := (b, start);
      if key in memo {
        Found(g, memo, open, b, start);
        GrowsNot(memo);
        return memo[key];
      }
      ghost var was := memo;
      Enter(g, memo, key, open);
      EnteredSize(universe, memo, key);
      memo := memo[key := -1];
      if b !in g.driver {
        r := -1;
        GrowsNot(memo);
        ValueAtStart(g, b, start);
      } else {
        match ClassOf(g.DriverOf(b).kind) {
          case FlipFlop =>
            r := if start == Ff then 0 else -1;
            GrowsNot(memo);
            ValueAtStart(g, b, start);
          case PhyPrimitive =>
            r := if start == Phy then 0 else -1;
            GrowsNot(memo);
            ValueAtStart(g, b, start);
          case Opaque =>
            r := -1;
            GrowsNot(memo);
            ValueAtStart(g, b, start);
          case Through(levels) =>
            var best: int;
            ghost var values: seq<int>;
            best, values := Inner(b, start, universe, open);
            r := StepLevels(best, levels);
            ValueOfStep(g, b, start, values);
        }
      }
      Leave(g, was, memo, key, r, open);
      memo := memo[key := r];
    }

    /** The greatest value among the inputs of the cell that drives b, whose own search is open. */
    method Inner(b: int, start: Start, ghost universe: set<Key>, ghost open: set<Key>)
      returns (best: int, ghost values: seq<int>)
      requires g.WellFormed() && Closed(g, universe) && (b, start) in universe && memo.Keys <= universe
      requires Sound(g, memo, open + {(b, start)}) && b in g.driver && g.ClassAt(b).Through?
      requires Below(g, open, b)
      modifies this
      ensures memo.Keys <= universe && Sound(g, memo, open + {(b, start)}) && Grows(old(memo), memo)
      ensures Values(g, g.Before(b), start, values) && best == MaxOf(values)
      decreases |universe - memo.Keys|, 2
    {
      hide Value, Values, Sound, Grows, Below, Closed, MaxOf, ClassOf, Inputs;
      var inputs := Inputs(g.DriverOf(b));
      assert inputs == g.Before(b);
      best := -1;
      values := [];
      NoValues(g, start, inputs[..0]);
      GrowsNot(memo);
      for k := 0 to |inputs|
        invariant memo.Keys <= universe && Sound(g, memo, open + {(b, start)}) && Grows(old(memo), memo)
        invariant Values(g, inputs[..k], start, values) && best == MaxOf(values)
      {
        MemoSize(universe, old(memo), memo);
        ClosedInput(g, universe, b, start, k);
        BelowInput(g, open, b, start, k);
        ghost var before := memo;
        var level := Depth(inputs[k], start, universe, open + {(b, start)});
        GrowsFurther(old(memo), before, memo);
        MoreValues(g, inputs, k, start, values, level);
        values := values + [level];
        best := if best < level then level else best;
      }
      assert inputs[..|inputs|] == inputs;
    }
  }

  lemma GrowsNot(memo: Memo)
    ensures Grows(memo, memo)
  {
  }

  lemma NoValues(g: Graph, start: Start, nets: seq<int>)
    requires g.WellFormed() && nets == []
    ensures Values(g, nets, start, []) && MaxOf([]) == -1
  {
  }

  lemma MoreValues(g: Graph, nets: seq<int>, k: nat, start: Start, values: seq<int>, level: int)
    requires g.WellFormed() && k < |nets| && Values(g, nets[..k], start, values)
      && Value(g, nets[k], start, level, g.AcyclicBehind(nets[k]))
    ensures Values(g, nets[..k + 1], start, values + [level])
    ensures MaxOf(values + [level]) == if MaxOf(values) < level then level else MaxOf(values)
  {
    hide Value, g.AcyclicBehind;
    var now, more := nets[..k + 1], values + [level];
    assert more[..|values|] == values;
    forall i | 0 <= i < k + 1 ensures Value(g, now[i], start, more[i], g.AcyclicBehind(now[i])) {
      if i < k {
        assert Value(g, nets[..k][i], start, values[i], g.AcyclicBehind(nets[..k][i]));
      }
    }
  }

  lemma ClosedInput(g: Graph, universe: set<Key>, b: int, start: Start, i: nat)
    requires g.WellFormed() && Closed(g, universe) && (b, start) in universe && i < |g.Before(b)|
    ensures (g.Before(b)[i], start) in universe
  {
    var k := (b, start);
    assert (g.Before(k.0)[i], k.1) in universe;
  }
}
