/** The board's report lines collected into blocks: a pass of the pattern test or a run of the
    reader is a fixed order of lines, and whatever breaks the order is recorded. */
module ReportBlocks {
  import opened Results

  datatype Line = Line(tag: char, a: nat, b: nat)

  datatype Report = Pattern | Reader

  datatype Problem =
    | WrongLine(tag: char, want: char)
    | WrongNumber(number: nat, wanted: nat)
    | WrongRead(number: nat, wanted: nat)

  const PASS_ORDER := "WREMF"
  const RUN_ORDER := "afgcypdnowush"
  const RUN_ORDER_2 := "afgcypdnowushx"
  const NONE32 := 0xFFFF_FFFF

  function HeaderTag(kind: Report): char {
    match kind case Pattern => 'G' case Reader => 'q'
  }

  function BlockTags(kind: Report): string {
    match kind case Pattern => PASS_ORDER case Reader => RUN_ORDER_2
  }

  /** The order a header line sets: reader format 2 adds a line to each run. */
  function OrderAfter(kind: Report, b: nat): string {
    match kind
    case Pattern => PASS_ORDER
    case Reader => if b / 0x1_0000_0000 >= 2 then RUN_ORDER_2 else RUN_ORDER
  }

  /** What the decoder carries: whether a header was seen, the order in force, the complete blocks,
      the problems, the lines of the block under way (none, when there is no block) and the number
      of the last block begun. */
  datatype State = State(header: bool, order: string, blocks: seq<seq<Line>>, problems: seq<Problem>, seen: seq<Line>,
                         last: Option<nat>)

  function Initial(kind: Report): State {
    State(false, match kind case Pattern => PASS_ORDER case Reader => RUN_ORDER, [], [], [], None)
  }

  /** The tag the next block line should have. */
  function Want(s: State): char
    requires s.order != ""
  {
    if 0 < |s.seen| < |s.order| then s.order[|s.seen|] else s.order[0]
  }

  /** The number the next block should have, when that is known. */
  function WantNumber(s: State): Option<nat> {
    match s.last
    case Some(n) => Some((n + 1) % 0x1_0000_0000)
    case None => if s.header then Some(0) else None
  }

  /** A line in its place: the first opens a block and its number is checked, the last closes it. */
  function Accepted(kind: Report, s: State, line: Line): (t: State)
    requires s.order != ""
  {
    var number := WantNumber(s);
    var begun := if line.tag == s.order[0] then
        s.(seen := [line], last := Some(line.a),
           problems := if number.Some? && line.a != number.value
                       then s.problems + [WrongNumber(line.a, number.value)]
                       else s.problems)
      else
        s.(seen := s.seen + [line],
           problems := if kind == Pattern && line.tag == 'R' && s.seen != [] && line.a != s.seen[0].a
                       then s.problems + [WrongRead(line.a, s.seen[0].a)]
                       else s.problems);
    if line.tag == s.order[|s.order| - 1] then begun.(blocks := begun.blocks + [begun.seen], seen := []) else begun
  }

  /** One report line. */
  function Step(kind: Report, s: State, line: Line): State
    requires s.order != ""
  {
    if line.tag == HeaderTag(kind) then s.(header := true, order := OrderAfter(kind, line.b))
    else if line.tag !in BlockTags(kind) then s
    else if line.tag == Want(s) then Accepted(kind, s, line)
    else
      var broken := s.(problems := s.problems + [WrongLine(line.tag, Want(s))], seen := []);
      if line.tag == s.order[0] then Accepted(kind, broken, line) else broken
  }

  /** The state after a list of lines. */
  function Decoded(kind: Report, s: State, lines: seq<Line>): (t: State)
    requires s.order != ""
    ensures t.order != ""
    decreases |lines|
  {
    if lines == [] then s else
      OrderStays(kind, s, lines[0]);
      Decoded(kind, Step(kind, s, lines[0]), lines[1..])
  }

  lemma OrderStays(kind: Report, s: State, line: Line)
    requires s.order != ""
    ensures Step(kind, s, line).order != ""
  {
  }

  /** The decoding loop. */
  method DecodeLoop(kind: Report, lines: seq<Line>)
    returns (header: bool, blocks: seq<seq<Line>>, problems: seq<Problem>, partial: seq<Line>)
    ensures var t := Decoded(kind, Initial(kind), lines);
      header == t.header && blocks == t.blocks && problems == t.problems && partial == t.seen
  {
    hide HeaderTag, BlockTags, OrderAfter, Decoded;
    var order := Initial(kind).order;
    header, blocks, problems, partial := false, [], [], [];
    var last: Option<nat> := None;
    var i := 0;
    while i < |lines|
      invariant i <= |lines| && order != ""
      invariant Decoded(kind, State(header, order, blocks, problems, partial, last), lines[i..])
        == Decoded(kind, Initial(kind), lines)
      decreases |lines| - i
    {
      var line := lines[i];
      ghost var s := State(header, order, blocks, problems, partial, last);
      DecodedStep(kind, s, lines, i);
      i := i + 1;
      if line.tag == HeaderTag(kind) {
        header, order := true, OrderAfter(kind, line.b);
        continue;
      }
      if line.tag !in BlockTags(kind) {
        continue;
      }
      var want := if 0 < |partial| < |order| then order[|partial|] else order[0];
      if line.tag != want {
        problems := problems + [WrongLine(line.tag, want)];
        partial := [];
        if line.tag != order[0] {
          continue;
        }
      }
      if line.tag == order[0] {
        var number := WantNumber(State(header, order, blocks, problems, partial, last));
        if number.Some? && line.a != number.value {
          problems := problems + [WrongNumber(line.a, number.value)];
        }
        last := Some(line.a);
        partial := [line];
      } else {
        if kind == Pattern && line.tag == 'R' && partial != [] && line.a != partial[0].a {
          problems := problems + [WrongRead(line.a, partial[0].a)];
        }
        partial := partial + [line];
      }
      if line.tag == order[|order| - 1] {
        blocks := blocks + [partial];
        partial := [];
      }
    }
    NothingLeft(kind, State(header, order, blocks, problems, partial, last), lines[i..]);
  }

  lemma NothingLeft(kind: Report, s: State, lines: seq<Line>)
    requires s.order != "" && lines == []
    ensures Decoded(kind, s, lines) == s
  {
  }

  lemma DecodedStep(kind: Report, s: State, lines: seq<Line>, i: nat)
    requires s.order != "" && i < |lines|
    ensures Step(kind, s, lines[i]).order != ""
    ensures Decoded(kind, s, lines[i..]) == Decoded(kind, Step(kind, s, lines[i]), lines[i + 1..])
  {
    OrderStays(kind, s, lines[i]);
    hide Step;
    assert lines[i..][1..] == lines[i + 1..];
  }

  /** A header line, tagged G or q, sets the order: five lines a pass; thirteen a run, or fourteen from
      reader format 2 on. */
  lemma HeaderLine(s: State, a: nat, b: nat)
    requires s.order != ""
    ensures Step(Pattern, s, Line('G', a, b)) == s.(header := true, order := "WREMF")
    ensures Step(Reader, s, Line('q', a, b))
      == s.(header := true, order := if b / 0x1_0000_0000 < 2 then "afgcypdnowush" else "afgcypdnowushx")
  {
  }
}
