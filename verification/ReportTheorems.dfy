/** Complete blocks decode back in order with no problem, and a lost line never goes unnoticed. */
module ReportTheorems {
  import opened Results
  import opened ReportBlocks

  function Flatten(blocks: seq<seq<Line>>): seq<Line> {
    if blocks == [] then [] else blocks[0] + Flatten(blocks[1..])
  }

  /** A complete block: the lines of an order, a pass repeating its number on its second line. */
  ghost predicate IsBlock(kind: Report, order: string, block: seq<Line>) {
    && |block| == |order|
    && (forall i :: 0 <= i < |block| ==> block[i].tag == order[i])
    && (kind == Pattern && |block| > 1 ==> block[1].a == block[0].a)
  }

  /** What the orders have in common. */
  ghost predicate Orderly(kind: Report, order: string) {
    && |order| >= 2
    && (forall i, j :: 0 <= i < j < |order| ==> order[i] != order[j])
    && (forall i :: 0 <= i < |order| ==> order[i] in BlockTags(kind) && order[i] != HeaderTag(kind))
    && (kind == Pattern ==> order == PASS_ORDER)
  }

  lemma OrdersOrderly()
    ensures Orderly(Pattern, PASS_ORDER) && Orderly(Reader, RUN_ORDER) && Orderly(Reader, RUN_ORDER_2)
  {
    LongOrderOrderly();
    ShorterOrderly();
  }

  lemma LongOrderOrderly()
    ensures Orderly(Pattern, PASS_ORDER) && Orderly(Reader, RUN_ORDER_2)
  {
  }

  /** The first reader format's order is the second one's without its last line. */
  lemma ShorterOrderly()
    requires Orderly(Reader, RUN_ORDER_2)
    ensures Orderly(Reader, RUN_ORDER)
  {
    hide BlockTags, HeaderTag;
    assert RUN_ORDER == RUN_ORDER_2[..13];
  }

  /** Blocks numbered one after another, modulo 2^32, from a number if one is wanted. */
  ghost predicate Consecutive(blocks: seq<seq<Line>>, want: Option<nat>) {
    blocks == [] ||
    (|blocks[0]| > 0 && (want.Some? ==> blocks[0][0].a == want.value)
     && Consecutive(blocks[1..], Some((blocks[0][0].a + 1) % 0x1_0000_0000)))
  }

  ghost predicate AllBlocks(kind: Report, order: string, blocks: seq<seq<Line>>) {
    forall k :: 0 <= k < |blocks| ==> IsBlock(kind, order, blocks[k])
  }

  lemma {:induction false} DecodedConcat(kind: Report, s: State, x: seq<Line>, y: seq<Line>)
    requires s.order != ""
    ensures Decoded(kind, s, x + y) == Decoded(kind, Decoded(kind, s, x), y)
    decreases |x|
  {
    if x == [] {
      assert x + y == y;
    } else {
      OrderStays(kind, s, x[0]);
      assert (x + y)[1..] == x[1..] + y;
      DecodedConcat(kind, Step(kind, s, x[0]), x[1..], y);
      hide Step;
    }
  }

  lemma OneLine(kind: Report, s: State, line: Line)
    requires s.order != ""
    ensures Decoded(kind, s, [line]) == Step(kind, s, line)
  {
    OrderStays(kind, s, line);
    hide Step;
    assert [line][1..] == [];
  }

  /** A state between blocks that expects this block next. */
  ghost predicate Ready(kind: Report, s: State, block: seq<Line>) {
    && s.order != "" && Orderly(kind, s.order) && s.seen == [] && IsBlock(kind, s.order, block)
    && (WantNumber(s).Some? ==> block[0].a == WantNumber(s).value)
  }

  /** The state inside a block. */
  function Inside(s: State, block: seq<Line>, j: nat): State
    requires 0 < j <= |block|
  {
    s.(seen := block[..j], last := Some(block[0].a))
  }

  lemma {:induction false} BlockPrefix(kind: Report, s: State, block: seq<Line>, j: nat)
    requires Ready(kind, s, block) && 0 < j < |block|
    ensures Decoded(kind, s, block[..j]) == Inside(s, block, j)
    decreases j
  {
    hide Step, Decoded, Orderly, IsBlock;
    assert s.order != "";
    hide Ready;
    if j == 1 {
      FirstLine(kind, s, block);
      OneLine(kind, s, block[0]);
      assert block[..1] == [block[0]];
    } else {
      BlockPrefix(kind, s, block, j - 1);
      DecodedConcat(kind, s, block[..j - 1], [block[j - 1]]);
      assert block[..j - 1] + [block[j - 1]] == block[..j];
      OneLine(kind, Inside(s, block, j - 1), block[j - 1]);
      NextLine(kind, s, block, j - 1);
    }
  }

  lemma FirstLine(kind: Report, s: State, block: seq<Line>)
    requires Ready(kind, s, block)
    ensures Step(kind, s, block[0]) == Inside(s, block, 1)
  {
    hide BlockTags, HeaderTag, OrderAfter;
    assert block[..1] == [block[0]];
    assert block[0].tag == s.order[0] && s.order[0] != s.order[|s.order| - 1];
  }

  lemma NextLine(kind: Report, s: State, block: seq<Line>, j: nat)
    requires Ready(kind, s, block) && 0 < j < |block|
    ensures Step(kind, Inside(s, block, j), block[j])
      == if j + 1 < |block| then Inside(s, block, j + 1) else s.(blocks := s.blocks + [block], last := Some(block[0].a))
  {
    LineInPlace(kind, s.order, block, j);
    hide BlockTags, HeaderTag, OrderAfter, Orderly, IsBlock, Accepted;
    var inside := Inside(s, block, j);
    assert Want(inside) == s.order[j];
    AcceptedNext(kind, s, block, j);
  }

  lemma AcceptedNext(kind: Report, s: State, block: seq<Line>, j: nat)
    requires s.order != "" && s.seen == [] && 0 < j < |block| == |s.order|
    requires block[j].tag == s.order[j] != s.order[0] && (s.order[j] == s.order[|s.order| - 1] <==> j == |s.order| - 1)
    requires kind == Pattern && block[j].tag == 'R' ==> block[j].a == block[0].a
    ensures Accepted(kind, Inside(s, block, j), block[j])
      == if j + 1 < |block| then Inside(s, block, j + 1) else s.(blocks := s.blocks + [block], last := Some(block[0].a))
  {
    assert block[..j] + [block[j]] == block[..j + 1];
    assert block[..j][0] == block[0];
    assert j + 1 == |block| ==> block[..j + 1] == block;
  }

  lemma LineInPlace(kind: Report, order: string, block: seq<Line>, j: nat)
    requires Orderly(kind, order) && IsBlock(kind, order, block) && 0 < j < |block|
    ensures |block| == |order| >= 2
    ensures block[j].tag == order[j] && order[j] in BlockTags(kind) && order[j] != HeaderTag(kind)
    ensures order[j] != order[0] && (order[j] == order[|order| - 1] <==> j == |order| - 1)
    ensures kind == Pattern && block[j].tag == 'R' ==> block[j].a == block[0].a
  {
    hide BlockTags, HeaderTag;
    if kind == Pattern && block[j].tag == 'R' {
      assert j == 1;
    }
  }

  lemma WholeBlock(kind: Report, s: State, block: seq<Line>)
    requires Ready(kind, s, block)
    ensures Decoded(kind, s, block) == s.(blocks := s.blocks + [block], last := Some(block[0].a))
  {
    var j := |block| - 1;
    assert s.order != "" && j > 0 by { hide BlockTags, HeaderTag; }
    hide Step, Decoded, Orderly, IsBlock, Ready;
    BlockPrefix(kind, s, block, j);
    DecodedConcat(kind, s, block[..j], [block[j]]);
    assert block[..j] + [block[j]] == block;
    OneLine(kind, Inside(s, block, j), block[j]);
    NextLine(kind, s, block, j);
  }

  /** The state after complete blocks. */
  function After(s: State, blocks: seq<seq<Line>>): State
    requires forall k :: 0 <= k < |blocks| ==> |blocks[k]| > 0
  {
    if blocks == [] then s else s.(blocks := s.blocks + blocks, last := Some(blocks[|blocks| - 1][0].a))
  }

  /** Complete blocks numbered in sequence decode to those blocks in order: nothing is recorded and
      nothing is left over. */
  lemma {:induction false} BlocksDecode(kind: Report, s: State, blocks: seq<seq<Line>>)
    requires s.order != "" && Orderly(kind, s.order) && s.seen == []
    requires AllBlocks(kind, s.order, blocks) && Consecutive(blocks, WantNumber(s))
    ensures forall k :: 0 <= k < |blocks| ==> |blocks[k]| > 0
    ensures Decoded(kind, s, Flatten(blocks)) == After(s, blocks)
    decreases |blocks|
  {
    hide Orderly, Decoded;
    BlocksLong(kind, s.order, blocks);
    if blocks == [] {
      NothingLeft(kind, s, []);
    } else {
      WholeBlock(kind, s, blocks[0]);
      DecodedConcat(kind, s, blocks[0], Flatten(blocks[1..]));
      var next := s.(blocks := s.blocks + [blocks[0]], last := Some(blocks[0][0].a));
      BlocksDecode(kind, next, blocks[1..]);
      assert s.blocks + blocks == s.blocks + [blocks[0]] + blocks[1..];
    }
  }

  lemma BlocksLong(kind: Report, order: string, blocks: seq<seq<Line>>)
    requires Orderly(kind, order) && AllBlocks(kind, order, blocks)
    ensures forall k :: 0 <= k < |blocks| ==> |blocks[k]| == |order| >= 2
  {
    hide BlockTags, HeaderTag;
    forall k | 0 <= k < |blocks| ensures |blocks[k]| == |order| {
      assert IsBlock(kind, order, blocks[k]);
    }
  }

  /** A whole report: its header line, then numbered blocks from zero. */
  lemma {:induction false} ReportDecodes(kind: Report, head: Line, blocks: seq<seq<Line>>)
    requires head.tag == HeaderTag(kind)
    requires AllBlocks(kind, OrderAfter(kind, head.b), blocks) && Consecutive(blocks, Some(0))
    ensures var t := Decoded(kind, Initial(kind), [head] + Flatten(blocks));
      t.header && t.blocks == blocks && t.problems == [] && t.seen == []
  {
    OrdersOrderly();
    hide Decoded, Orderly;
    OneLine(kind, Initial(kind), head);
    DecodedConcat(kind, Initial(kind), [head], Flatten(blocks));
    var s := Step(kind, Initial(kind), head);
    assert s == Initial(kind).(header := true, order := OrderAfter(kind, head.b));
    BlocksDecode(kind, s, blocks);
  }

  // ---- Lost lines ----

  /** Problems are only added. */
  lemma {:induction false} ProblemsStay(kind: Report, s: State, lines: seq<Line>)
    requires s.order != ""
    ensures |Decoded(kind, s, lines).problems| >= |s.problems|
    decreases |lines|
  {
    if lines == [] {
    } else {
      OrderStays(kind, s, lines[0]);
      StepProblems(kind, s, lines[0]);
      hide Step;
      ProblemsStay(kind, Step(kind, s, lines[0]), lines[1..]);
    }
  }

  lemma StepProblems(kind: Report, s: State, line: Line)
    requires s.order != ""
    ensures |Step(kind, s, line).problems| >= |s.problems|
    ensures line.tag != HeaderTag(kind) && line.tag in BlockTags(kind) && line.tag != Want(s)
      ==> |Step(kind, s, line).problems| > |s.problems|
  {
    hide HeaderTag, BlockTags, OrderAfter;
  }

  /** A line out of its place leaves a problem for good. */
  lemma Misplaced(kind: Report, s: State, lines: seq<Line>)
    requires s.order != "" && lines != [] && lines[0].tag != HeaderTag(kind) && lines[0].tag in BlockTags(kind)
      && lines[0].tag != Want(s)
    ensures |Decoded(kind, s, lines).problems| > |s.problems|
  {
    OrderStays(kind, s, lines[0]);
    StepProblems(kind, s, lines[0]);
    hide Step;
    ProblemsStay(kind, Step(kind, s, lines[0]), lines[1..]);
  }

  /** Any run of complete blocks with one line of one block missing: a problem is recorded, or the
      report ends in a partial block. */
  lemma {:induction false} LostLine(kind: Report, s: State, blocks: seq<seq<Line>>, k: nat, j: nat)
    requires s.order != "" && Orderly(kind, s.order) && s.seen == []
    requires AllBlocks(kind, s.order, blocks) && Consecutive(blocks, WantNumber(s))
    requires k < |blocks| && j < |blocks[k]|
    ensures var lines := Flatten(blocks[..k]) + blocks[k][..j] + (blocks[k][j + 1..] + Flatten(blocks[k + 1..]));
      var t := Decoded(kind, s, lines);
      |t.problems| > |s.problems| || t.seen != []
    decreases k
  {
    hide Decoded, Orderly;
    BlocksLong(kind, s.order, blocks);
    var rest := blocks[k][j + 1..] + Flatten(blocks[k + 1..]);
    if k > 0 {
      WholeBlock(kind, s, blocks[0]);
      var next := s.(blocks := s.blocks + [blocks[0]], last := Some(blocks[0][0].a));
      LostLine(kind, next, blocks[1..], k - 1, j);
      assert blocks[1..][..k - 1] == blocks[..k][1..] && blocks[1..][k - 1] == blocks[k]
        && blocks[1..][k..] == blocks[k + 1..];
      var tail := Flatten(blocks[..k][1..]) + blocks[k][..j] + rest;
      assert Flatten(blocks[..k]) + blocks[k][..j] + rest == blocks[0] + tail;
      DecodedConcat(kind, s, blocks[0], tail);
    } else {
      assert Flatten(blocks[..0]) + blocks[0][..j] + rest == blocks[0][..j] + rest;
      DecodedConcat(kind, s, blocks[0][..j], rest);
      LostHere(kind, s, blocks, j);
    }
  }

  lemma LostHere(kind: Report, s: State, blocks: seq<seq<Line>>, j: nat)
    requires s.order != "" && Orderly(kind, s.order) && s.seen == [] && blocks != []
    requires AllBlocks(kind, s.order, blocks) && Consecutive(blocks, WantNumber(s)) && j < |blocks[0]|
    ensures var t := Decoded(kind, Decoded(kind, s, blocks[0][..j]), blocks[0][j + 1..] + Flatten(blocks[1..]));
      |t.problems| > |s.problems| || t.seen != []
  {
    hide Decoded, BlockTags, HeaderTag;
    BlocksLong(kind, s.order, blocks);
    var mid := if j == 0 then s else Inside(s, blocks[0], j);
    var rest := blocks[0][j + 1..] + Flatten(blocks[1..]);
    if j == 0 {
      NothingLeft(kind, s, blocks[0][..0]);
    } else {
      BlockPrefix(kind, s, blocks[0], j);
    }
    if rest == [] {
      NothingLeft(kind, mid, rest);
    } else {
      NextTag(kind, s.order, blocks, j);
      Misplaced(kind, mid, rest);
    }
  }

  /** The line after a missing one is not the one that was due. */
  lemma NextTag(kind: Report, order: string, blocks: seq<seq<Line>>, j: nat)
    requires Orderly(kind, order) && AllBlocks(kind, order, blocks) && blocks != [] && j < |order|
    requires |blocks[0]| == |order|
    requires blocks[0][j + 1..] + Flatten(blocks[1..]) != []
    ensures var line := (blocks[0][j + 1..] + Flatten(blocks[1..]))[0];
      line.tag != HeaderTag(kind) && line.tag in BlockTags(kind) && line.tag != order[j]
  {
    hide BlockTags, HeaderTag;
    assert IsBlock(kind, order, blocks[0]);
    if j + 1 == |order| {
      assert blocks[1..] != [];
      assert IsBlock(kind, order, blocks[1]);
      assert blocks[1..][0] == blocks[1];
    }
  }

  // ---- Lines of other kinds ----

  function BlockLines(kind: Report, lines: seq<Line>): seq<Line> {
    if lines == [] then [] else
      (if lines[0].tag in BlockTags(kind) then [lines[0]] else []) + BlockLines(kind, lines[1..])
  }

  /** Lines that are neither blocks nor headers, wherever they come, change nothing. */
  lemma {:induction false} OthersIgnored(kind: Report, s: State, lines: seq<Line>)
    requires s.order != "" && forall i :: 0 <= i < |lines| ==> lines[i].tag != HeaderTag(kind)
    ensures Decoded(kind, s, lines) == Decoded(kind, s, BlockLines(kind, lines))
    decreases |lines|
  {
    if lines == [] {
    } else {
      OrderStays(kind, s, lines[0]);
      if lines[0].tag !in BlockTags(kind) {
        OtherStep(kind, s, lines[0]);
      }
      hide Step, BlockTags, HeaderTag;
      forall i | 0 <= i < |lines[1..]| ensures lines[1..][i].tag != HeaderTag(kind) {
        assert lines[1..][i] == lines[i + 1];
      }
      OthersIgnored(kind, Step(kind, s, lines[0]), lines[1..]);
      var rest := BlockLines(kind, lines[1..]);
      if lines[0].tag in BlockTags(kind) {
        assert ([lines[0]] + rest)[1..] == rest;
      } else {
        assert [] + rest == rest;
      }
    }
  }

  lemma OtherStep(kind: Report, s: State, line: Line)
    requires s.order != "" && line.tag != HeaderTag(kind) && line.tag !in BlockTags(kind)
    ensures Step(kind, s, line) == s
  {
    hide BlockTags, HeaderTag, Accepted;
  }
}
