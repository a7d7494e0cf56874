/** A synthesized netlist and the paths through it: from a start primitive, through lookup tables,
    inverters, multiplexers and carry chains, to a net. */
module Netlist {

  datatype Direction = Input | Output | Unknown

  /** A connected bit: a net, or a constant. */
  datatype Wire = Net(id: int) | Constant

  datatype Port = Port(name: string, direction: Direction, wires: seq<Wire>)

  datatype Cell = Cell(kind: string, ports: seq<Port>)

  datatype Start = Ff | Phy

  datatype Class = FlipFlop | PhyPrimitive | Through(levels: nat) | Opaque

  /** What a cell's type makes of it; LUTs and inverters count one level, MUXF7/8 and CARRY4
      none. */
  function ClassOf(kind: string): Class {
    if kind in ["FDRE", "FDSE", "FDCE", "FDPE"] then FlipFlop
    else if kind in ["OSERDESE2", "ISERDESE2", "IDELAYE2", "IDELAYCTRL"] then PhyPrimitive
    else if "LUT" <= kind || kind == "INV" then Through(1)
    else if kind in ["MUXF7", "MUXF8", "CARRY4"] then Through(0)
    else Opaque
  }

  function Nets(wires: seq<Wire>): seq<int> {
    if wires == [] then [] else
      (match wires[0] case Net(id) => [id] case Constant => []) + Nets(wires[1..])
  }

  function PortNets(ports: seq<Port>, direction: Direction): seq<int> {
    if ports == [] then [] else
      (if ports[0].direction == direction then Nets(ports[0].wires) else []) + PortNets(ports[1..], direction)
  }

  function Inputs(cell: Cell): seq<int> {
    PortNets(cell.ports, Input)
  }

  function Outputs(cell: Cell): seq<int> {
    PortNets(cell.ports, Output)
  }

  /** The cells and, for each driven net, the cell that drives it. */
  datatype Graph = Graph(cells: seq<Cell>, driver: map<int, nat>) {
    predicate WellFormed() {
      forall b :: b in driver ==> driver[b] < |cells|
    }

    function DriverOf(b: int): Cell
      requires WellFormed() && b in driver
    {
      cells[driver[b]]
    }

    function ClassAt(b: int): Class
      requires WellFormed()
    {
      if b in driver then ClassOf(DriverOf(b).kind) else Opaque
    }

    predicate StartsAt(b: int, start: Start)
      requires WellFormed()
    {
      match start
      case Ff => ClassAt(b) == FlipFlop
      case Phy => ClassAt(b) == PhyPrimitive
    }

    /** The nets one step before b. */
    function Before(b: int): seq<int>
      requires WellFormed()
    {
      if ClassAt(b).Through? then Inputs(DriverOf(b)) else []
    }

    function LevelsAt(b: int): nat
      requires WellFormed()
    {
      match ClassAt(b)
      case Through(levels) => levels
      case _ => 0
    }

    /** A path: it begins at the output of a start primitive, and every later net is driven by a
        through cell with the net before it among its inputs. */
    ghost predicate IsPath(p: seq<int>, start: Start)
      requires WellFormed()
    {
      && |p| > 0 && StartsAt(p[0], start)
      && forall i :: 1 <= i < |p| ==> p[i - 1] in Before(p[i])
    }

    /** The LUTs and inverters on a path. */
    function Levels(p: seq<int>): nat
      requires WellFormed()
    {
      if |p| <= 1 then 0 else Levels(p[..|p| - 1]) + LevelsAt(p[|p| - 1])
    }

    ghost predicate PathTo(p: seq<int>, b: int, start: Start)
      requires WellFormed()
    {
      IsPath(p, start) && p[|p| - 1] == b
    }

    /** Some path to b has exactly r levels. */
    ghost predicate Witnessed(b: int, start: Start, r: int)
      requires WellFormed()
    {
      exists p :: PathTo(p, b, start) && Levels(p) == r
    }

    /** r is the most levels of any path to b, or -1 when there is none. */
    ghost predicate Longest(b: int, start: Start, r: int)
      requires WellFormed()
    {
      && r >= -1
      && (r >= 0 ==> Witnessed(b, start, r))
      && forall p :: PathTo(p, b, start) ==> Levels(p) <= r
    }

    /** A walk: every net but the first is driven by a through cell with the net before it among its
        inputs, wherever the walk begins. */
    ghost predicate IsWalk(w: seq<int>)
      requires WellFormed()
    {
      |w| > 0 && forall i :: 1 <= i < |w| ==> w[i - 1] in Before(w[i])
    }

    /** No walk into b meets one net twice: the logic behind b has no cycle, whatever the rest of the
        netlist has. */
    ghost predicate AcyclicBehind(b: int)
      requires WellFormed()
    {
      forall w, i, j :: IsWalk(w) && w[|w| - 1] == b && 0 <= i < j < |w| ==> w[i] != w[j]
    }

    /** A walk of one step or more leads from a to c. */
    ghost predicate Reaches(a: int, c: int)
      requires WellFormed()
    {
      exists w :: IsWalk(w) && |w| > 1 && w[0] == a && w[|w| - 1] == c
    }

    /** A rank that falls along every step backwards: there is no cycle of through cells. */
    ghost predicate Ranked(rank: int -> nat)
      requires WellFormed()
    {
      forall b, i :: 0 <= i < |Before(b)| ==> rank(Before(b)[i]) < rank(b)
    }

    ghost predicate Acyclic()
      requires WellFormed()
    {
      exists rank: int -> nat :: Ranked(rank)
    }
  }

  /** What lies behind an input lies behind the net. */
  lemma AcyclicInput(g: Graph, a: int, b: int)
    requires g.WellFormed() && g.AcyclicBehind(b) && a in g.Before(b)
    ensures g.AcyclicBehind(a)
  {
    hide g.Before;
    forall w, i, j | g.IsWalk(w) && w[|w| - 1] == a && 0 <= i < j < |w| ensures w[i] != w[j] {
      var longer := w + [b];
      assert g.IsWalk(longer) by { WalkOn(g, w, b); }
      assert longer[|longer| - 1] == b && longer[i] == w[i] && longer[j] == w[j];
    }
  }

  lemma WalkOn(g: Graph, w: seq<int>, b: int)
    requires g.WellFormed() && g.IsWalk(w) && w[|w| - 1] in g.Before(b)
    ensures g.IsWalk(w + [b])
  {
    hide g.Before;
  }

  lemma ReachesBack(g: Graph, a: int, b: int, c: int)
    requires g.WellFormed() && a in g.Before(b) && (b == c || g.Reaches(b, c))
    ensures g.Reaches(a, c)
  {
    hide g.Before;
    if b == c {
      assert g.IsWalk([a, b]);
    } else {
      var w :| g.IsWalk(w) && |w| > 1 && w[0] == b && w[|w| - 1] == c;
      var longer := [a] + w;
      forall i | 1 <= i < |longer| ensures longer[i - 1] in g.Before(longer[i]) {
        if i > 1 {
          assert longer[i - 1] == w[i - 2] && longer[i] == w[i - 1];
        }
      }
      assert g.IsWalk(longer);
    }
  }

  /** A net that reaches itself has a cycle behind it. */
  lemma NoWayBack(g: Graph, b: int)
    requires g.WellFormed() && g.AcyclicBehind(b)
    ensures !g.Reaches(b, b)
  {
    hide g.IsWalk;
    forall w | g.IsWalk(w) && |w| > 1 && w[|w| - 1] == b ensures w[0] != b {
      assert w[0] != w[|w| - 1];
    }
  }

  /** On a netlist with a topological order no net has a cycle behind it. */
  lemma AcyclicEverywhere(g: Graph, b: int)
    requires g.WellFormed() && g.Acyclic()
    ensures g.AcyclicBehind(b)
  {
    var rank: int -> nat :| g.Ranked(rank);
    forall w, i, j | g.IsWalk(w) && w[|w| - 1] == b && 0 <= i < j < |w| ensures w[i] != w[j] {
      RanksRise(g, rank, w, i, j);
    }
  }

  lemma {:induction false} RanksRise(g: Graph, rank: int -> nat, w: seq<int>, i: nat, j: nat)
    requires g.WellFormed() && g.Ranked(rank) && g.IsWalk(w) && i < j < |w|
    ensures rank(w[i]) < rank(w[j])
    decreases j
  {
    hide g.Before;
    assert w[j - 1] in g.Before(w[j]);
    if i == j - 1 {
      assert rank(w[i]) < rank(w[j]);
    } else {
      RanksRise(g, rank, w, i, j - 1);
    }
  }

  /** A net has one longest value. */
  lemma LongestUnique(g: Graph, b: int, start: Start, r: int, s: int)
    requires g.WellFormed() && g.Longest(b, start, r) && g.Longest(b, start, s)
    ensures r == s
  {
    if r >= 0 {
      var p :| g.PathTo(p, b, start) && g.Levels(p) == r;
    }
    if s >= 0 {
      var p :| g.PathTo(p, b, start) && g.Levels(p) == s;
    }
  }

  lemma ExtendPath(g: Graph, p: seq<int>, a: int, b: int, start: Start)
    requires g.WellFormed() && g.PathTo(p, a, start) && a in g.Before(b)
    ensures g.PathTo(p + [b], b, start) && g.Levels(p + [b]) == g.Levels(p) + g.LevelsAt(b)
  {
    hide g.LevelsAt, g.Before, g.StartsAt;
    var q := p + [b];
    assert q[..|p|] == p;
    forall i | 1 <= i < |q| ensures q[i - 1] in g.Before(q[i]) {
      if i < |p| {
        assert q[i - 1] == p[i - 1] && q[i] == p[i];
      }
    }
  }

  lemma ShortenPath(g: Graph, p: seq<int>, b: int, start: Start)
    requires g.WellFormed() && g.PathTo(p, b, start) && |p| > 1
    ensures var q := p[..|p| - 1];
      |q| > 0 && g.PathTo(q, q[|q| - 1], start) && q[|q| - 1] in g.Before(b)
        && g.Levels(p) == g.Levels(q) + g.LevelsAt(b)
  {
  }

  /** Only through cells lengthen a path. */
  lemma PathLength(g: Graph, p: seq<int>, b: int, start: Start)
    requires g.WellFormed() && g.PathTo(p, b, start)
    ensures |p| > 1 <==> g.ClassAt(b).Through?
  {
    if |p| > 1 {
      assert p[|p| - 2] in g.Before(p[|p| - 1]);
    }
  }

  /** A net driven by a start primitive: the path of no steps and no other. */
  lemma LongestAtStart(g: Graph, b: int, start: Start)
    requires g.WellFormed() && !g.ClassAt(b).Through?
    ensures g.Longest(b, start, if g.StartsAt(b, start) then 0 else -1)
  {
    forall p | g.PathTo(p, b, start) ensures g.StartsAt(b, start) && g.Levels(p) == 0 {
      PathLength(g, p, b, start);
    }
    if g.StartsAt(b, start) {
      assert g.PathTo([b], b, start) && g.Levels([b]) == 0;
    }
  }

  /** The greatest of the values, -1 if there is none. */
  function MaxOf(values: seq<int>): (m: int)
    ensures forall i :: 0 <= i < |values| ==> values[i] <= m
    ensures m == -1 || exists i :: 0 <= i < |values| && values[i] == m
  {
    if values == [] then -1 else
      var front := MaxOf(values[..|values| - 1]);
      var last := values[|values| - 1];
      if front < last then last else front
  }

  /** One step through a cell: from the values of its inputs to the value of its output. */
  function StepLevels(best: int, levels: nat): int {
    if best < 0 then -1 else best + levels
  }

  lemma StepWitnessed(g: Graph, b: int, start: Start, values: seq<int>)
    requires g.WellFormed() && |values| == |g.Before(b)|
    requires forall i :: 0 <= i < |values| ==> values[i] >= 0 ==> g.Witnessed(g.Before(b)[i], start, values[i])
    ensures var r := StepLevels(MaxOf(values), g.LevelsAt(b)); r >= 0 ==> g.Witnessed(b, start, r)
  {
    hide g.PathTo, g.Levels, g.LevelsAt, g.Before;
    var m := MaxOf(values);
    if m >= 0 {
      var i :| 0 <= i < |values| && values[i] == m;
      var a := g.Before(b)[i];
      var p :| g.PathTo(p, a, start) && g.Levels(p) == m;
      ExtendPath(g, p, a, b, start);
    }
  }

  lemma StepLongest(g: Graph, b: int, start: Start, values: seq<int>)
    requires g.WellFormed() && g.ClassAt(b).Through? && |values| == |g.Before(b)|
    requires forall i :: 0 <= i < |values| ==> g.Longest(g.Before(b)[i], start, values[i])
    ensures g.Longest(b, start, StepLevels(MaxOf(values), g.LevelsAt(b)))
  {
    var r := StepLevels(MaxOf(values), g.LevelsAt(b));
    StepWitnessed(g, b, start, values);
    forall p | g.PathTo(p, b, start) ensures g.Levels(p) <= r {
      PathLength(g, p, b, start);
      ShortenPath(g, p, b, start);
      StepBounds(g, p, b, start, values);
    }
  }

  lemma StepBounds(g: Graph, p: seq<int>, b: int, start: Start, values: seq<int>)
    requires g.WellFormed() && g.PathTo(p, b, start) && |p| > 1 && |values| == |g.Before(b)|
    requires forall i :: 0 <= i < |values| ==> g.Longest(g.Before(b)[i], start, values[i])
    ensures g.Levels(p) <= StepLevels(MaxOf(values), g.LevelsAt(b))
  {
    hide g.IsPath, g.LevelsAt, g.Before;
    ShortenPath(g, p, b, start);
    var q := p[..|p| - 1];
    var i :| 0 <= i < |g.Before(b)| && g.Before(b)[i] == q[|q| - 1];
    assert g.Longest(g.Before(b)[i], start, values[i]);
  }
}
