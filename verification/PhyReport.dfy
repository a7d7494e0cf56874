/** The path reports made from the search, and what they say of the netlist's cells, ports and bits. */
module PhyReport {
  import opened Netlist
  import opened PhyDepth
  import opened PhyPaths

  datatype Group = Into | OutOf

  /** An input bit of a PHY primitive or of a flip-flop, its clock apart, with the key it is reported
      under. */
  datatype Endpoint = Endpoint(group: Group, name: string, net: int)

  function TrimDigits(s: string): string {
    if s != "" && '0' <= s[|s| - 1] <= '9' then TrimDigits(s[..|s| - 1]) else s
  }

  /** The report key of a port: the bits of the tap count share one. */
  function PortKey(kind: string, port: string): string {
    kind + "." + if "CNTVALUEIN" <= port then TrimDigits(port) else port
  }

  function EndpointsOfNets(group: Group, name: string, nets: seq<int>): seq<Endpoint> {
    if nets == [] then [] else [Endpoint(group, name, nets[0])] + EndpointsOfNets(group, name, nets[1..])
  }

  function EndpointsOfPorts(kind: string, ports: seq<Port>): seq<Endpoint> {
    if ports == [] then [] else
      var p := ports[0];
      var nets := Nets(p.wires);
      (if p.direction != Input then []
       else match ClassOf(kind)
         case PhyPrimitive => EndpointsOfNets(Into, PortKey(kind, p.name), nets)
         case FlipFlop => if p.name == "C" then [] else EndpointsOfNets(OutOf, kind + "." + p.name, nets)
         case _ => [])
      + EndpointsOfPorts(kind, ports[1..])
  }

  function Endpoints(cells: seq<Cell>): seq<Endpoint> {
    if cells == [] then [] else EndpointsOfPorts(cells[0].kind, cells[0].ports) + Endpoints(cells[1..])
  }

  /** Where the paths into an endpoint start. */
  function StartOf(group: Group): Start {
    if group == Into then Ff else Phy
  }

  /** The nets any search can reach. */
  function AllInputs(cells: seq<Cell>): seq<int> {
    if cells == [] then [] else Inputs(cells[0]) + AllInputs(cells[1..])
  }

  ghost function Universe(cells: seq<Cell>): set<Key> {
    (set b | b in AllInputs(cells) :: (b, Ff)) + (set b | b in AllInputs(cells) :: (b, Phy))
  }

  lemma InUniverse(cells: seq<Cell>, b: int, start: Start)
    ensures (b, start) in Universe(cells) <==> b in AllInputs(cells)
  {
  }

  lemma {:induction false} InputsIncluded(cells: seq<Cell>, c: nat, b: int)
    requires c < |cells| && b in Inputs(cells[c])
    ensures b in AllInputs(cells)
    decreases |cells|
  {
    hide Inputs;
    if c == 0 {
    } else {
      InputsIncluded(cells[1..], c - 1, b);
    }
  }

  lemma UniverseClosed(g: Graph)
    requires g.WellFormed()
    ensures Closed(g, Universe(g.cells))
  {
    hide Universe, AllInputs, Inputs;
    forall k, i | k in Universe(g.cells) && 0 <= i < |g.Before(k.0)|
      ensures (g.Before(k.0)[i], k.1) in Universe(g.cells)
    {
      InputsIncluded(g.cells, g.driver[k.0], g.Before(k.0)[i]);
      InUniverse(g.cells, g.Before(k.0)[i], k.1);
    }
  }

  ghost predicate Known(cells: seq<Cell>, eps: seq<Endpoint>) {
    forall e :: 0 <= e < |eps| ==> eps[e].net in AllInputs(cells)
  }

  lemma {:induction false} NetsIncluded(group: Group, name: string, nets: seq<int>)
    ensures forall e ::
        0 <= e < |EndpointsOfNets(group, name, nets)| ==> EndpointsOfNets(group, name, nets)[e].net in nets
  {
    if nets == [] {
    } else {
      NetsIncluded(group, name, nets[1..]);
    }
  }

  lemma {:induction false} PortsIncluded(kind: string, ports: seq<Port>)
    ensures forall e ::
        0 <= e < |EndpointsOfPorts(kind, ports)| ==> EndpointsOfPorts(kind, ports)[e].net in PortNets(ports, Input)
  {
    hide ClassOf, PortKey;
    if ports == [] {
    } else {
      PortsIncluded(kind, ports[1..]);
      var p := ports[0];
      NetsIncluded(Into, PortKey(kind, p.name), Nets(p.wires));
      NetsIncluded(OutOf, kind + "." + p.name, Nets(p.wires));
      hide EndpointsOfNets, Nets;
    }
  }

  lemma {:induction false} EndpointsKnown(cells: seq<Cell>)
    ensures Known(cells, Endpoints(cells))
  {
    hide EndpointsOfPorts, Inputs;
    if cells == [] {
    } else {
      EndpointsKnown(cells[1..]);
      PortsIncluded(cells[0].kind, cells[0].ports);
      assert Inputs(cells[0]) == PortNets(cells[0].ports, Input) by { InputsMeans(cells[0]); }
    }
  }

  lemma InputsMeans(cell: Cell)
    ensures Inputs(cell) == PortNets(cell.ports, Input)
  {
  }

  type Levels = map<(Group, string), int>

  /** The report after some endpoints: every entry is the level count of a real path into one of its
      endpoints, and no path into an endpoint with no cycle behind it has more levels. */
  ghost predicate Covers(g: Graph, levels: Levels, eps: seq<Endpoint>)
    requires g.WellFormed()
  {
    && (forall k :: k in levels ==> levels[k] >= 0 && exists e :: 0 <= e < |eps| && Reports(g, eps[e], k, levels[k]))
    && (forall e :: 0 <= e < |eps| && g.AcyclicBehind(eps[e].net) ==> Bounded(g, levels, eps[e]))
  }

  /** No path into the endpoint has more levels than its entry. */
  ghost predicate Bounded(g: Graph, levels: Levels, e: Endpoint)
    requires g.WellFormed()
  {
    forall p :: g.PathTo(p, e.net, StartOf(e.group))
      ==> (e.group, e.name) in levels && g.Levels(p) <= levels[(e.group, e.name)]
  }

  ghost predicate Reports(g: Graph, e: Endpoint, key: (Group, string), level: int)
    requires g.WellFormed()
  {
    (e.group, e.name) == key && g.Witnessed(e.net, StartOf(e.group), level)
  }

  /** One endpoint's value taken into the report. */
  function Take(levels: Levels, key: (Group, string), level: int): Levels {
    if level < 0 then levels
    else levels[key := if key in levels && levels[key] > level then levels[key] else level]
  }

  lemma CoversMore(g: Graph, levels: Levels, eps: seq<Endpoint>, last: Endpoint, level: int)
    requires g.WellFormed() && Covers(g, levels, eps)
    requires Value(g, last.net, StartOf(last.group), level, g.AcyclicBehind(last.net))
    ensures Covers(g, Take(levels, (last.group, last.name), level), eps + [last])
  {
    hide g.PathTo, g.Levels, g.AcyclicBehind, StartOf, Bounded;
    var key := (last.group, last.name);
    var now, all := Take(levels, key, level), eps + [last];
    forall k | k in now ensures now[k] >= 0 && exists e :: 0 <= e < |all| && Reports(g, all[e], k, now[k]) {
      if k in levels && now[k] == levels[k] {
        var e :| 0 <= e < |eps| && Reports(g, eps[e], k, levels[k]);
        assert all[e] == eps[e];
      } else {
        assert Reports(g, all[|eps|], k, level);
      }
    }
    forall e | 0 <= e < |all| && g.AcyclicBehind(all[e].net) ensures Bounded(g, now, all[e]) {
      if e < |eps| {
        assert all[e] == eps[e] && Bounded(g, levels, eps[e]);
        BoundedKeeps(g, levels, key, level, eps[e]);
      } else {
        BoundedLast(g, levels, last, level);
      }
    }
  }

  lemma BoundedKeeps(g: Graph, levels: Levels, key: (Group, string), level: int, e: Endpoint)
    requires g.WellFormed() && Bounded(g, levels, e)
    ensures Bounded(g, Take(levels, key, level), e)
  {
    hide g.PathTo, g.Levels, StartOf;
  }

  lemma BoundedLast(g: Graph, levels: Levels, last: Endpoint, level: int)
    requires g.WellFormed() && g.Longest(last.net, StartOf(last.group), level)
    ensures Bounded(g, Take(levels, (last.group, last.name), level), last)
  {
    hide g.PathTo, StartOf;
    forall p | g.PathTo(p, last.net, StartOf(last.group)) ensures 0 <= g.Levels(p) <= level {
      NoNegativeLevels(g, p);
    }
  }

  lemma NoNegativeLevels(g: Graph, p: seq<int>)
    requires g.WellFormed()
    ensures g.Levels(p) >= 0
  {
  }

  datatype Report = Report(levels: Levels, ffToFf: nat)

  /** Input nets of the flip-flops, their clocks apart. */
  function FfInputs(cells: seq<Cell>): seq<int> {
    FfNets(Endpoints(cells))
  }

  function FfNets(eps: seq<Endpoint>): seq<int> {
    if eps == [] then [] else (if eps[0].group == OutOf then [eps[0].net] else []) + FfNets(eps[1..])
  }

  lemma {:induction false} FfNetsKnown(cells: seq<Cell>, eps: seq<Endpoint>)
    requires Known(cells, eps)
    ensures forall k :: 0 <= k < |FfNets(eps)| ==> FfNets(eps)[k] in AllInputs(cells)
  {
    if eps == [] {
    } else {
      assert Known(cells, eps[1..]);
      FfNetsKnown(cells, eps[1..]);
    }
  }

  /** The greatest flip-flop to flip-flop value so far. */
  ghost predicate FfCovers(g: Graph, nets: seq<int>, r: nat)
    requires g.WellFormed()
  {
    && (r > 0 ==> exists k :: 0 <= k < |nets| && g.Witnessed(nets[k], Ff, r))
    && forall k, p :: 0 <= k < |nets| && g.AcyclicBehind(nets[k]) && g.PathTo(p, nets[k], Ff) ==> g.Levels(p) <= r
  }

  lemma FfCoversMore(g: Graph, nets: seq<int>, r: nat, last: int, level: int)
    requires g.WellFormed() && FfCovers(g, nets, r) && Value(g, last, Ff, level, g.AcyclicBehind(last))
    ensures FfCovers(g, nets + [last], if r < level then level else r)
  {
    hide g.PathTo, g.Levels, g.AcyclicBehind;
    var all := nets + [last];
    if r < level {
      assert g.Witnessed(all[|nets|], Ff, level);
    } else if r > 0 {
      var k :| 0 <= k < |nets| && g.Witnessed(nets[k], Ff, r);
      assert all[k] == nets[k];
    }
    forall k, p | 0 <= k < |all| && g.AcyclicBehind(all[k]) && g.PathTo(p, all[k], Ff)
      ensures g.Levels(p) <= if r < level then level else r {
      if k < |nets| {
        assert all[k] == nets[k];
      }
    }
  }

  /** One memo serves every query: the searches of both reports share it. */
  method EndpointLoop(search: Search, eps: seq<Endpoint>) returns (levels: Levels)
    requires search.g.WellFormed() && Known(search.g.cells, eps)
    requires search.memo.Keys <= Universe(search.g.cells) && Sound(search.g, search.memo, {})
    modifies search
    ensures search.memo.Keys <= Universe(search.g.cells) && Sound(search.g, search.memo, {})
    ensures Covers(search.g, levels, eps)
  {
    hide AllInputs, Universe, Value, Sound, Covers, Closed, Grows, Below, StartOf, Take;
    UniverseClosed(search.g);
    levels := map[];
    CoversNothing(search.g, eps[..0]);
    for e := 0 to |eps|
      invariant search.memo.Keys <= Universe(search.g.cells) && Sound(search.g, search.memo, {})
      invariant Covers(search.g, levels, eps[..e])
    {
      var start := StartOf(eps[e].group);
      InUniverse(search.g.cells, eps[e].net, start);
      BelowNothing(search.g, eps[e].net);
      var level := search.Depth(eps[e].net, start, Universe(search.g.cells), {});
      CoversMore(search.g, levels, eps[..e], eps[e], level);
      assert eps[..e] + [eps[e]] == eps[..e + 1];
      levels := Take(levels, (eps[e].group, eps[e].name), level);
    }
    assert eps[..|eps|] == eps;
  }

  lemma CoversNothing(g: Graph, eps: seq<Endpoint>)
    requires g.WellFormed() && eps == []
    ensures Covers(g, map[], eps)
  {
  }

  lemma BelowNothing(g: Graph, b: int)
    requires g.WellFormed()
    ensures Below(g, {}, b)
  {
  }

  method FfLoop(search: Search, nets: seq<int>) returns (r: nat)
    requires search.g.WellFormed() && forall k :: 0 <= k < |nets| ==> nets[k] in AllInputs(search.g.cells)
    requires search.memo.Keys <= Universe(search.g.cells) && Sound(search.g, search.memo, {})
    modifies search
    ensures FfCovers(search.g, nets, r)
  {
    hide AllInputs, Universe, Value, Sound, FfCovers, Closed, Grows, Below;
    UniverseClosed(search.g);
    r := 0;
    FfCoversNothing(search.g, nets[..0]);
    for k := 0 to |nets|
      invariant search.memo.Keys <= Universe(search.g.cells) && Sound(search.g, search.memo, {})
      invariant FfCovers(search.g, nets[..k], r)
    {
      InUniverse(search.g.cells, nets[k], Ff);
      BelowNothing(search.g, nets[k]);
      var level := search.Depth(nets[k], Ff, Universe(search.g.cells), {});
      FfCoversMore(search.g, nets[..k], r, nets[k], level);
      assert nets[..k] + [nets[k]] == nets[..k + 1];
      r := if r < level then level else r;
    }
    assert nets[..|nets|] == nets;
  }

  lemma FfCoversNothing(g: Graph, nets: seq<int>)
    requires g.WellFormed() && nets == []
    ensures FfCovers(g, nets, 0)
  {
  }

  // ---- What a report says of the cells, ports and bits ----

  predicate IsDigit(c: char) {
    '0' <= c <= '9'
  }

  /** t is what is left of a port's name without the digits it ends in. */
  ghost predicate Trimmed(port: string, t: string) {
    && |t| <= |port| && port[..|t|] == t && (forall i :: |t| <= i < |port| ==> IsDigit(port[i]))
    && (t != "" ==> !IsDigit(t[|t| - 1]))
  }

  /** The name a PHY primitive's port is reported under: the bits of the tap count share one. */
  ghost predicate PortName(port: string, t: string) {
    if |port| >= 10 && port[..10] == "CNTVALUEIN" then Trimmed(port, t) else t == port
  }

  /** An input bit of a PHY primitive. */
  ghost predicate PhyBit(cell: Cell, port: Port, net: int, name: string) {
    && IsPhyPrimitive(cell.kind) && OnPort(port, Input, net)
    && exists t :: PortName(port.name, t) && name == cell.kind + "." + t
  }

  /** An input bit of a flip-flop other than its clock. */
  ghost predicate FfBit(cell: Cell, port: Port, net: int, name: string) {
    IsFlipFlop(cell.kind) && OnPort(port, Input, net) && port.name != "C" && name == cell.kind + "." + port.name
  }

  ghost predicate IntoBit(cells: seq<Cell>, net: int, name: string) {
    exists c, k :: 0 <= c < |cells| && 0 <= k < |cells[c].ports| && PhyBit(cells[c], cells[c].ports[k], net, name)
  }

  ghost predicate OutBit(cells: seq<Cell>, net: int, name: string) {
    exists c, k :: 0 <= c < |cells| && 0 <= k < |cells[c].ports| && FfBit(cells[c], cells[c].ports[k], net, name)
  }

  /** Paths from a flip-flop into a PHY primitive, by its port: every entry is the level count of such
      a path, and no such path into a bit with no cycle behind it has more. */
  ghost predicate IntoMeans(cells: seq<Cell>, levels: Levels) {
    && (forall name | (Into, name) in levels ::
          levels[(Into, name)] >= 0
          && exists net :: IntoBit(cells, net, name) && Reached(cells, net, Ff, levels[(Into, name)]))
    && forall net, name, n: nat | IntoBit(cells, net, name) && NoCycle(cells, net) && Reached(cells, net, Ff, n) ::
         (Into, name) in levels && n <= levels[(Into, name)]
  }

  /** Paths from a PHY primitive into a flip-flop, by its port. */
  ghost predicate OutMeans(cells: seq<Cell>, levels: Levels) {
    && (forall name | (OutOf, name) in levels ::
          levels[(OutOf, name)] >= 0
          && exists net :: OutBit(cells, net, name) && Reached(cells, net, Phy, levels[(OutOf, name)]))
    && forall net, name, n: nat | OutBit(cells, net, name) && NoCycle(cells, net) && Reached(cells, net, Phy, n) ::
         (OutOf, name) in levels && n <= levels[(OutOf, name)]
  }

  /** Paths from a flip-flop into a flip-flop. */
  ghost predicate FfMeans(cells: seq<Cell>, r: nat) {
    && (r > 0 ==> exists net, name :: OutBit(cells, net, name) && Reached(cells, net, Ff, r))
    && forall net, name, n: nat | OutBit(cells, net, name) && NoCycle(cells, net) && Reached(cells, net, Ff, n) ::
         n <= r
  }

  // ---- The endpoint list holds exactly those bits ----

  lemma {:induction false} TrimDigitsTrims(s: string)
    ensures Trimmed(s, TrimDigits(s))
  {
    if s != "" && IsDigit(s[|s| - 1]) {
      TrimDigitsTrims(s[..|s| - 1]);
    } else {
      assert TrimDigits(s) == s;
    }
  }

  lemma TrimmedLongest(s: string, t: string, u: string)
    requires Trimmed(s, t) && Trimmed(s, u)
    ensures |u| <= |t|
  {
    if u != "" {
      assert u[|u| - 1] == s[|u| - 1];
    }
  }

  lemma TrimmedUnique(s: string, t: string, u: string)
    requires Trimmed(s, t) && Trimmed(s, u)
    ensures t == u
  {
    TrimmedLongest(s, t, u);
    TrimmedLongest(s, u, t);
  }

  lemma PortKeyMeans(kind: string, port: string, name: string)
    ensures name == PortKey(kind, port) <==> exists t :: PortName(port, t) && name == kind + "." + t
  {
    TrimDigitsTrims(port);
    hide TrimDigits, Trimmed;
    assert "CNTVALUEIN" <= port <==> |port| >= 10 && port[..10] == "CNTVALUEIN";
    var t := if "CNTVALUEIN" <= port then TrimDigits(port) else port;
    assert PortName(port, t) && PortKey(kind, port) == kind + "." + t;
    forall u | PortName(port, u) ensures u == t {
      if "CNTVALUEIN" <= port {
        TrimmedUnique(port, t, u);
      }
    }
  }

  /** A port contributes an endpoint. */
  ghost predicate PortEntry(cell: Cell, port: Port, e: Endpoint) {
    match e.group
    case Into => PhyBit(cell, port, e.net, e.name)
    case OutOf => FfBit(cell, port, e.net, e.name)
  }

  lemma {:induction false} EndpointsOfNetsMean(group: Group, name: string, nets: seq<int>, e: Endpoint)
    ensures e in EndpointsOfNets(group, name, nets) <==> e.group == group && e.name == name && e.net in nets
  {
    if nets == [] {
    } else {
      EndpointsOfNetsMean(group, name, nets[1..], e);
      assert nets == [nets[0]] + nets[1..];
    }
  }

  /** What one port contributes to the list. */
  function PortEndpoints(kind: string, p: Port): seq<Endpoint> {
    if p.direction != Input then []
    else match ClassOf(kind)
      case PhyPrimitive => EndpointsOfNets(Into, PortKey(kind, p.name), Nets(p.wires))
      case FlipFlop => if p.name == "C" then [] else EndpointsOfNets(OutOf, kind + "." + p.name, Nets(p.wires))
      case _ => []
  }

  lemma PortEndpointsMean(cell: Cell, p: Port, e: Endpoint)
    ensures e in PortEndpoints(cell.kind, p) <==> PortEntry(cell, p, e)
  {
    hide Nets, PortKey, PortName, ClassOf, EndpointsOfNets, IsFlipFlop, IsPhyPrimitive;
    NetsMean(p.wires, e.net);
    ClassMeans(cell.kind);
    OneClass(cell.kind);
    PortKeyMeans(cell.kind, p.name, e.name);
    EndpointsOfNetsMean(Into, PortKey(cell.kind, p.name), Nets(p.wires), e);
    EndpointsOfNetsMean(OutOf, cell.kind + "." + p.name, Nets(p.wires), e);
  }

  lemma OneClass(kind: string)
    ensures !(IsFlipFlop(kind) && IsPhyPrimitive(kind))
  {
  }

  lemma {:induction false} PortsMean(cell: Cell, ports: seq<Port>, e: Endpoint)
    ensures e in EndpointsOfPorts(cell.kind, ports) <==> exists k :: 0 <= k < |ports| && PortEntry(cell, ports[k], e)
  {
    hide PortEntry, PortEndpoints;
    if ports == [] {
    } else {
      PortEndpointsMean(cell, ports[0], e);
      PortsMean(cell, ports[1..], e);
      FirstPort(cell.kind, ports);
      hide EndpointsOfPorts;
      assert ports == [ports[0]] + ports[1..];
    }
  }

  lemma FirstPort(kind: string, ports: seq<Port>)
    requires ports != []
    ensures EndpointsOfPorts(kind, ports) == PortEndpoints(kind, ports[0]) + EndpointsOfPorts(kind, ports[1..])
  {
    hide Nets, PortKey, ClassOf, EndpointsOfNets;
  }

  ghost predicate Entry(cells: seq<Cell>, e: Endpoint) {
    exists c, k :: 0 <= c < |cells| && 0 <= k < |cells[c].ports| && PortEntry(cells[c], cells[c].ports[k], e)
  }

  lemma {:induction false} EndpointsMean(cells: seq<Cell>, e: Endpoint)
    ensures e in Endpoints(cells) <==> Entry(cells, e)
  {
    hide PortEntry, EndpointsOfPorts;
    if cells == [] {
    } else {
      PortsMean(cells[0], cells[0].ports, e);
      EndpointsMean(cells[1..], e);
      hide Endpoints;
      FirstCell(cells, e);
      assert cells == [cells[0]] + cells[1..];
    }
  }

  lemma FirstCell(cells: seq<Cell>, e: Endpoint)
    requires cells != []
    ensures e in Endpoints(cells)
      <==> e in EndpointsOfPorts(cells[0].kind, cells[0].ports) || e in Endpoints(cells[1..])
  {
    hide EndpointsOfPorts;
  }

  lemma EntryMeans(cells: seq<Cell>, net: int, name: string)
    ensures Entry(cells, Endpoint(Into, name, net)) <==> IntoBit(cells, net, name)
    ensures Entry(cells, Endpoint(OutOf, name, net)) <==> OutBit(cells, net, name)
  {
    hide PhyBit, FfBit;
    forall c, k | 0 <= c < |cells| && 0 <= k < |cells[c].ports|
      ensures PortEntry(cells[c], cells[c].ports[k], Endpoint(Into, name, net))
        <==> PhyBit(cells[c], cells[c].ports[k], net, name)
      ensures PortEntry(cells[c], cells[c].ports[k], Endpoint(OutOf, name, net))
        <==> FfBit(cells[c], cells[c].ports[k], net, name)
    {
    }
  }

  // ---- From the search's values to the report's meaning ----

  lemma WitnessMeans(cells: seq<Cell>, driver: map<int, nat>, net: int, start: Start, n: nat)
    requires DrivesLast(cells, driver)
    ensures Graph(cells, driver).WellFormed()
    ensures Graph(cells, driver).Witnessed(net, start, n) <==> Reached(cells, net, start, n)
  {
    var g := Graph(cells, driver);
    assert g.WellFormed();
    hide DrivesLast, RealPath, g.IsPath, g.Levels;
    forall p ensures g.PathTo(p, net, start) && g.Levels(p) == n <==> PathInto(cells, p, net, start, n) {
      PathMeans(cells, driver, p, start, n);
      NotEmpty(cells, p, start, n);
    }
  }

  lemma NotEmpty(cells: seq<Cell>, p: seq<int>, start: Start, n: nat)
    ensures RealPath(cells, p, start, n) ==> p != []
  {
  }

  ghost predicate ReportedBit(cells: seq<Cell>, group: Group, net: int, name: string) {
    match group
    case Into => IntoBit(cells, net, name)
    case OutOf => OutBit(cells, net, name)
  }

  lemma EndpointNamed(cells: seq<Cell>, e: Endpoint)
    ensures e in Endpoints(cells) <==> ReportedBit(cells, e.group, e.net, e.name)
  {
    hide Endpoints, Entry, IntoBit, OutBit;
    EndpointsMean(cells, e);
    EntryMeans(cells, e.net, e.name);
  }

  /** Soundness of one entry. */
  lemma EntrySound(cells: seq<Cell>, driver: map<int, nat>, levels: Levels, group: Group, name: string)
    requires DrivesLast(cells, driver) && Graph(cells, driver).WellFormed()
    requires Covers(Graph(cells, driver), levels, Endpoints(cells)) && (group, name) in levels
    ensures levels[(group, name)] >= 0
    ensures exists net :: ReportedBit(cells, group, net, name)
                       && Reached(cells, net, StartOf(group), levels[(group, name)])
  {
    var g := Graph(cells, driver);
    hide DrivesLast, Endpoints, IntoBit, OutBit, Reached, StartOf, Bounded, g.Witnessed, g.AcyclicBehind;
    var key := (group, name);
    var eps := Endpoints(cells);
    var e :| 0 <= e < |eps| && Reports(g, eps[e], key, levels[key]);
    EndpointNamed(cells, eps[e]);
    WitnessMeans(cells, driver, eps[e].net, StartOf(group), levels[key]);
  }

  /** Completeness for one bit with no cycle behind it. */
  lemma EntryBounds(cells: seq<Cell>, driver: map<int, nat>, levels: Levels, e: Endpoint, n: nat)
    requires DrivesLast(cells, driver) && Graph(cells, driver).WellFormed()
    requires Covers(Graph(cells, driver), levels, Endpoints(cells))
    requires ReportedBit(cells, e.group, e.net, e.name)
    requires NoCycle(cells, e.net) && Reached(cells, e.net, StartOf(e.group), n)
    ensures (e.group, e.name) in levels && n <= levels[(e.group, e.name)]
  {
    var g := Graph(cells, driver);
    hide DrivesLast, Endpoints, IntoBit, OutBit, Reached, NoCycle, StartOf, Reports, g.PathTo, g.Levels,
         g.AcyclicBehind;
    EndpointNamed(cells, e);
    CycleMeans(cells, driver, e.net);
    WitnessMeans(cells, driver, e.net, StartOf(e.group), n);
    var eps := Endpoints(cells);
    var i :| 0 <= i < |eps| && eps[i] == e;
    assert Bounded(g, levels, eps[i]);
  }

  lemma StartsAre()
    ensures StartOf(Into) == Ff && StartOf(OutOf) == Phy
  {
  }

  lemma ReportMeans(cells: seq<Cell>, driver: map<int, nat>, levels: Levels)
    requires DrivesLast(cells, driver) && Graph(cells, driver).WellFormed()
    requires Covers(Graph(cells, driver), levels, Endpoints(cells))
    ensures IntoMeans(cells, levels) && OutMeans(cells, levels)
  {
    hide DrivesLast, Covers, IntoBit, OutBit, Reached, NoCycle, StartOf;
    StartsAre();
    forall name | (Into, name) in levels
      ensures levels[(Into, name)] >= 0
        && exists net :: IntoBit(cells, net, name) && Reached(cells, net, Ff, levels[(Into, name)]) {
      EntrySound(cells, driver, levels, Into, name);
    }
    forall name | (OutOf, name) in levels
      ensures levels[(OutOf, name)] >= 0
        && exists net :: OutBit(cells, net, name) && Reached(cells, net, Phy, levels[(OutOf, name)]) {
      EntrySound(cells, driver, levels, OutOf, name);
    }
    forall net, name, n: nat | IntoBit(cells, net, name) && NoCycle(cells, net) && Reached(cells, net, Ff, n)
      ensures (Into, name) in levels && n <= levels[(Into, name)] {
      EntryBounds(cells, driver, levels, Endpoint(Into, name, net), n);
    }
    forall net, name, n: nat | OutBit(cells, net, name) && NoCycle(cells, net) && Reached(cells, net, Phy, n)
      ensures (OutOf, name) in levels && n <= levels[(OutOf, name)] {
      EntryBounds(cells, driver, levels, Endpoint(OutOf, name, net), n);
    }
  }

  lemma {:induction false} FfNetsMean(eps: seq<Endpoint>, net: int)
    ensures net in FfNets(eps) <==> exists k :: 0 <= k < |eps| && eps[k].group == OutOf && eps[k].net == net
  {
    if eps == [] {
    } else {
      FfNetsMean(eps[1..], net);
      assert eps == [eps[0]] + eps[1..];
    }
  }

  lemma FfInputMeans(cells: seq<Cell>, net: int)
    ensures net in FfInputs(cells) <==> exists name :: OutBit(cells, net, name)
  {
    hide Endpoints, OutBit, FfNets;
    var eps := Endpoints(cells);
    FfNetsMean(eps, net);
    forall name ensures Endpoint(OutOf, name, net) in eps <==> OutBit(cells, net, name) {
      EndpointNamed(cells, Endpoint(OutOf, name, net));
    }
    forall k | 0 <= k < |eps| && eps[k].group == OutOf && eps[k].net == net
      ensures OutBit(cells, net, eps[k].name) {
      assert eps[k] == Endpoint(OutOf, eps[k].name, net) && eps[k] in eps;
    }
    if name :| OutBit(cells, net, name) {
      var k :| 0 <= k < |eps| && eps[k] == Endpoint(OutOf, name, net);
    }
  }

  lemma FfReportMeans(cells: seq<Cell>, driver: map<int, nat>, r: nat)
    requires DrivesLast(cells, driver) && Graph(cells, driver).WellFormed()
    requires FfCovers(Graph(cells, driver), FfInputs(cells), r)
    ensures FfMeans(cells, r)
  {
    var g, nets := Graph(cells, driver), FfInputs(cells);
    hide DrivesLast, FfInputs, OutBit, Reached, NoCycle, g.PathTo, g.Levels, g.AcyclicBehind;
    if r > 0 {
      var k :| 0 <= k < |nets| && g.Witnessed(nets[k], Ff, r);
      FfInputMeans(cells, nets[k]);
      WitnessMeans(cells, driver, nets[k], Ff, r);
    }
    forall net, name, n: nat | OutBit(cells, net, name) && NoCycle(cells, net) && Reached(cells, net, Ff, n)
      ensures n <= r {
      FfInputMeans(cells, net);
      CycleMeans(cells, driver, net);
      WitnessMeans(cells, driver, net, Ff, n);
      var k :| 0 <= k < |nets| && nets[k] == net;
    }
  }

  /** phy_path_levels: of every netlist, what is reported of a port is the level count of a real path
      into it from the right kind of start, and no such path into a bit with no cycle behind it has
      more. */
  method PhyPathLevels(cells: seq<Cell>) returns (report: Report, driver: map<int, nat>)
    ensures DrivesLast(cells, driver) && Graph(cells, driver).WellFormed()
    ensures IntoMeans(cells, report.levels) && OutMeans(cells, report.levels) && FfMeans(cells, report.ffToFf)
  {
    hide Endpoints, AllInputs, Universe, Value, Covers, FfCovers, FfNets, IntoMeans, OutMeans, FfMeans;
    driver := Drivers(cells);
    var g := Graph(cells, driver);
    hide DrivesLast;
    EndpointsKnown(cells);
    FfNetsKnown(cells, Endpoints(cells));
    var search := new Search(g);
    var levels := EndpointLoop(search, Endpoints(cells));
    var ffToFf := FfLoop(search, FfInputs(cells));
    ReportMeans(cells, driver, levels);
    FfReportMeans(cells, driver, ffToFf);
    report := Report(levels, ffToFf);
  }
}
