/** Paths through a netlist told by its cells, ports and bits alone, and what a report of path levels
    must say of them. */
module PhyPaths {
  import opened Netlist
  import opened PhyDepth

  predicate IsFlipFlop(kind: string) {
    kind == "FDRE" || kind == "FDSE" || kind == "FDCE" || kind == "FDPE"
  }

  predicate IsPhyPrimitive(kind: string) {
    kind == "OSERDESE2" || kind == "ISERDESE2" || kind == "IDELAYE2" || kind == "IDELAYCTRL"
  }

  /** A cell that counts as one level: a lookup table of any size, or an inverter. */
  predicate Counts(kind: string) {
    (|kind| >= 3 && kind[..3] == "LUT") || kind == "INV"
  }

  predicate Passes(kind: string) {
    Counts(kind) || kind == "MUXF7" || kind == "MUXF8" || kind == "CARRY4"
  }

  ghost predicate OnPort(port: Port, direction: Direction, net: int) {
    port.direction == direction && Net(net) in port.wires
  }

  ghost predicate On(cell: Cell, direction: Direction, net: int) {
    exists k :: 0 <= k < |cell.ports| && OnPort(cell.ports[k], direction, net)
  }

  /** Cell c is the last with the net on one of its outputs. */
  ghost predicate Drives(cells: seq<Cell>, c: int, net: int) {
    && 0 <= c < |cells| && On(cells[c], Output, net)
    && forall d :: c < d < |cells| ==> !On(cells[d], Output, net)
  }

  /** One step through cell c, from a net on an input to the net it drives. */
  ghost predicate Through(cells: seq<Cell>, c: int, a: int, b: int) {
    Drives(cells, c, b) && Passes(cells[c].kind) && On(cells[c], Input, a)
  }

  ghost predicate StepTo(cells: seq<Cell>, a: int, b: int, levels: nat) {
    exists c :: Through(cells, c, a, b) && levels == if Counts(cells[c].kind) then 1 else 0
  }

  ghost predicate Steps(cells: seq<Cell>, a: int, b: int) {
    exists c :: Through(cells, c, a, b)
  }

  ghost predicate StartsFrom(cells: seq<Cell>, net: int, start: Start) {
    exists c :: Drives(cells, c, net) &&
      match start
      case Ff => IsFlipFlop(cells[c].kind)
      case Phy => IsPhyPrimitive(cells[c].kind)
  }

  /** A path from an output of a start primitive, with the levels it counts. */
  ghost predicate RealPath(cells: seq<Cell>, p: seq<int>, start: Start, levels: nat)
    decreases |p|
  {
    && p != []
    && if |p| == 1 then levels == 0 && StartsFrom(cells, p[0], start)
       else
         var front, a, b := p[..|p| - 1], p[|p| - 2], p[|p| - 1];
         exists rest: nat, last: nat ::
           StepTo(cells, a, b, last) && RealPath(cells, front, start, rest) && levels == rest + last
  }

  ghost predicate PathInto(cells: seq<Cell>, p: seq<int>, net: int, start: Start, levels: nat) {
    RealPath(cells, p, start, levels) && p[|p| - 1] == net
  }

  ghost predicate Reached(cells: seq<Cell>, net: int, start: Start, levels: nat) {
    exists p :: PathInto(cells, p, net, start, levels)
  }

  ghost predicate Stepwise(cells: seq<Cell>, w: seq<int>) {
    w != [] && forall i :: 1 <= i < |w| ==> Steps(cells, w[i - 1], w[i])
  }

  /** No chain of steps into the net meets a net twice. */
  ghost predicate NoCycle(cells: seq<Cell>, net: int) {
    forall w, i, j :: Stepwise(cells, w) && w[|w| - 1] == net && 0 <= i < j < |w| ==> w[i] != w[j]
  }

  // ---- The graph of the drivers has the same paths ----

  lemma {:induction false} NetsMean(wires: seq<Wire>, net: int)
    ensures net in Nets(wires) <==> Net(net) in wires
  {
    if wires == [] {
    } else {
      NetsMean(wires[1..], net);
      assert wires == [wires[0]] + wires[1..];
    }
  }

  lemma {:induction false} PortNetsMean(ports: seq<Port>, direction: Direction, net: int)
    ensures net in PortNets(ports, direction)
      <==> exists k :: 0 <= k < |ports| && OnPort(ports[k], direction, net)
  {
    if ports == [] {
    } else {
      hide Nets;
      var rest := ports[1..];
      NetsMean(ports[0].wires, net);
      PortNetsMean(rest, direction, net);
      hide PortNets, OnPort;
      PortNetsStep(ports, direction, net);
      if k :| 0 <= k < |rest| && OnPort(rest[k], direction, net) {
        assert ports[k + 1] == rest[k];
      }
      if k :| 0 <= k < |ports| && OnPort(ports[k], direction, net) {
        if k > 0 {
          assert rest[k - 1] == ports[k];
        }
      }
    }
  }

  lemma PortNetsStep(ports: seq<Port>, direction: Direction, net: int)
    requires ports != []
    ensures net in PortNets(ports, direction)
      <==> OnPort(ports[0], direction, net) || net in PortNets(ports[1..], direction)
  {
    hide Nets;
    NetsMean(ports[0].wires, net);
  }

  lemma OutputsMean(cell: Cell, net: int)
    ensures net in Outputs(cell) <==> On(cell, Output, net)
  {
    hide PortNets, OnPort;
    PortNetsMean(cell.ports, Output, net);
  }

  lemma InputsMean(cell: Cell, net: int)
    ensures net in Inputs(cell) <==> On(cell, Input, net)
  {
    hide PortNets, OnPort;
    PortNetsMean(cell.ports, Input, net);
  }

  lemma ClassMeans(kind: string)
    ensures ClassOf(kind) == FlipFlop <==> IsFlipFlop(kind)
    ensures ClassOf(kind) == PhyPrimitive <==> IsPhyPrimitive(kind)
    ensures ClassOf(kind).Through? <==> Passes(kind)
    ensures Passes(kind) ==> ClassOf(kind) == Class.Through(if Counts(kind) then 1 else 0)
  {
    if "LUT" <= kind {
      assert kind[..3] == "LUT" && kind[0] == 'L';
    }
    if |kind| >= 3 && kind[..3] == "LUT" {
      assert "LUT" <= kind;
    }
  }

  lemma DriverMeans(cells: seq<Cell>, driver: map<int, nat>, b: int)
    requires DrivesLast(cells, driver)
    ensures b in driver ==> Drives(cells, driver[b], b)
    ensures forall c :: Drives(cells, c, b) ==> b in driver && driver[b] == c
  {
    hide Outputs, On;
    forall c | 0 <= c < |cells| && On(cells[c], Output, b) ensures b in driver && driver[b] >= c {
      OutputsMean(cells[c], b);
      var k :| 0 <= k < |Outputs(cells[c])| && Outputs(cells[c])[k] == b;
    }
    if b in driver {
      OutputsMean(cells[driver[b]], b);
    }
  }

  lemma StepMeans(cells: seq<Cell>, driver: map<int, nat>, a: int, b: int)
    requires DrivesLast(cells, driver)
    ensures Graph(cells, driver).WellFormed()
    ensures var g := Graph(cells, driver);
      && (a in g.Before(b) <==> Steps(cells, a, b))
      && forall levels :: StepTo(cells, a, b, levels) <==> Steps(cells, a, b) && levels == g.LevelsAt(b)
  {
    DriverMeans(cells, driver, b);
    hide DrivesLast, Drives, Inputs, ClassOf, Passes, Counts;
    if b in driver {
      InputsMean(cells[driver[b]], a);
      ClassMeans(cells[driver[b]].kind);
      hide On;
      if Drives(cells, driver[b], b) && Passes(cells[driver[b]].kind) && On(cells[driver[b]], Input, a) {
        assert Through(cells, driver[b], a, b);
      }
    }
  }

  lemma StartMeans(cells: seq<Cell>, driver: map<int, nat>, b: int, start: Start)
    requires DrivesLast(cells, driver)
    ensures Graph(cells, driver).WellFormed()
    ensures Graph(cells, driver).StartsAt(b, start) <==> StartsFrom(cells, b, start)
  {
    DriverMeans(cells, driver, b);
    hide DrivesLast, Drives, ClassOf, IsFlipFlop, IsPhyPrimitive;
    if b in driver {
      ClassMeans(cells[driver[b]].kind);
    }
  }

  lemma {:induction false} PathMeans(cells: seq<Cell>, driver: map<int, nat>, p: seq<int>, start: Start, levels: nat)
    requires DrivesLast(cells, driver)
    ensures Graph(cells, driver).WellFormed()
    ensures RealPath(cells, p, start, levels)
      <==> Graph(cells, driver).IsPath(p, start) && Graph(cells, driver).Levels(p) == levels
    decreases |p|
  {
    var g := Graph(cells, driver);
    assert g.WellFormed();
    hide DrivesLast, StepTo, Steps, StartsFrom, g.StartsAt, g.LevelsAt, g.Before;
    if p == [] {
    } else if |p| == 1 {
      StartMeans(cells, driver, p[0], start);
    } else {
      var front, b := p[..|p| - 1], p[|p| - 1];
      RealStep(cells, driver, p, start, levels);
      if levels >= g.LevelsAt(b) {
        PathMeans(cells, driver, front, start, levels - g.LevelsAt(b));
      }
      PathStep(g, p, start);
      hide RealPath, g.IsPath;
    }
  }

  lemma RealStep(cells: seq<Cell>, driver: map<int, nat>, p: seq<int>, start: Start, levels: nat)
    requires DrivesLast(cells, driver) && |p| > 1
    ensures Graph(cells, driver).WellFormed()
    ensures var g, front, b := Graph(cells, driver), p[..|p| - 1], p[|p| - 1];
      RealPath(cells, p, start, levels)
      <==> p[|p| - 2] in g.Before(b) && levels >= g.LevelsAt(b)
           && RealPath(cells, front, start, levels - g.LevelsAt(b))
  {
    var g, front, a, b := Graph(cells, driver), p[..|p| - 1], p[|p| - 2], p[|p| - 1];
    StepMeans(cells, driver, a, b);
    hide DrivesLast, StepTo, Steps, StartsFrom, g.LevelsAt, g.Before;
    if a in g.Before(b) && levels >= g.LevelsAt(b) && RealPath(cells, front, start, levels - g.LevelsAt(b)) {
      assert StepTo(cells, a, b, g.LevelsAt(b));
    }
  }

  lemma PathStep(g: Graph, p: seq<int>, start: Start)
    requires g.WellFormed() && |p| > 1
    ensures g.IsPath(p, start) <==> g.IsPath(p[..|p| - 1], start) && p[|p| - 2] in g.Before(p[|p| - 1])
  {
    hide g.Before, g.StartsAt;
    var front := p[..|p| - 1];
    if g.IsPath(front, start) && p[|p| - 2] in g.Before(p[|p| - 1]) {
      forall i | 1 <= i < |p| ensures p[i - 1] in g.Before(p[i]) {
        if i < |p| - 1 {
          assert front[i - 1] in g.Before(front[i]);
        }
      }
    }
  }

  lemma CycleMeans(cells: seq<Cell>, driver: map<int, nat>, b: int)
    requires DrivesLast(cells, driver)
    ensures Graph(cells, driver).WellFormed()
    ensures Graph(cells, driver).AcyclicBehind(b) <==> NoCycle(cells, b)
  {
    var g := Graph(cells, driver);
    assert g.WellFormed();
    hide DrivesLast, g.Before, Steps;
    forall w ensures g.IsWalk(w) <==> Stepwise(cells, w) {
      forall i | 1 <= i < |w| ensures w[i - 1] in g.Before(w[i]) <==> Steps(cells, w[i - 1], w[i]) {
        StepMeans(cells, driver, w[i - 1], w[i]);
      }
    }
  }
}
