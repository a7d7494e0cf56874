/** What the lines of a block say: passes of the pattern test and runs of the reader, and the
    40-bit clock field unwrapped. */
module ReportRecords {
  import opened Results
  import opened ReportBlocks
  import opened ReportTheorems

  const W32 := 0x1_0000_0000

  // ---- Passes ----

  datatype FirstFail = NoFail | FirstFail(burst: nat, word: nat, xorLow32: nat)

  datatype Pass = Pass(round: nat, complement: bool, writeClocks: nat, readClocks: nat, badBursts: nat, bitErrors: nat,
                       badWords: nat, dqMask: nat, firstFail: FirstFail)

  /** The number a pass's block carries. */
  function PassNumber(p: Pass): nat {
    2 * p.round + if p.complement then 1 else 0
  }

  function PassLines(p: Pass): (block: seq<Line>)
    ensures |block| == 5
  {
    [Line('W', PassNumber(p), p.writeClocks),
     Line('R', PassNumber(p), p.readClocks),
     Line('E', p.badBursts, p.bitErrors),
     Line('M', p.badWords, p.dqMask),
     match p.firstFail
     case NoFail => Line('F', NONE32, 0)
     case FirstFail(burst, word, x) => Line('F', burst, word * 0x1_0000_0000 + x)]
  }

  /** The fields decoded from a pass's five lines. */
  function ReadPass(block: seq<Line>): Pass
    requires |block| == 5
  {
    Pass(block[0].a / 2, block[0].a % 2 == 1, block[0].b, block[1].b, block[2].a, block[2].b, block[3].a, block[3].b,
         if block[4].a == NONE32 then NoFail
         else FirstFail(block[4].a, block[4].b / 0x1_0000_0000, block[4].b % 0x1_0000_0000))
  }

  /** A pass the lines can say: no burst has the number that stands for none. */
  ghost predicate SayablePass(p: Pass) {
    p.firstFail.FirstFail? ==> p.firstFail.burst != NONE32 && p.firstFail.xorLow32 < W32
  }

  lemma PassRoundTrip(p: Pass)
    requires SayablePass(p)
    ensures ReadPass(PassLines(p)) == p
  {
  }

  // ---- Runs ----

  datatype Run = Run(run: nat, format: nat, lanes: nat, fillWords: nat, fillCycles: nat, fillOutstanding: nat,
                     fillStalls: nat, words: nat, cycles: nat, consumerStalls: nat, busBytes: nat,
                     scaleBytes: nat, payloadBytes: nat, badWords: nat, paddingBytes: nat, invalidGroups: nat,
                     trits: nat, outstanding: nat, commandStalls: nat, capHolds: nat, waitStalls: nat, minus: nat,
                     plus: nat, dot: int, checkHigh: nat, checkLow: nat, acks: Option<(nat, nat)>)

  function Signed64(x: nat): int {
    if x >= 0x8000_0000_0000_0000 then x - 0x1_0000_0000_0000_0000 else x
  }

  function RunLines(r: Run): (block: seq<Line>)
    ensures |block| == if r.acks.Some? then 14 else 13
  {
    var dot := r.dot % 0x1_0000_0000_0000_0000;
    [Line('a', r.run, r.format * 0x1_0000_0000 + r.lanes * 0x100_0000),
     Line('f', r.fillWords, r.fillCycles),
     Line('g', r.fillOutstanding, r.fillStalls),
     Line('c', r.words, r.cycles),
     Line('y', r.consumerStalls, r.busBytes),
     Line('p', r.scaleBytes, r.payloadBytes),
     Line('d', r.badWords, r.paddingBytes),
     Line('n', r.invalidGroups, r.trits),
     Line('o', r.outstanding, r.commandStalls),
     Line('w', r.capHolds, r.waitStalls),
     Line('u', r.minus, r.plus),
     Line('s', dot / 0x100_0000_0000, dot % 0x100_0000_0000),
     Line('h', r.checkHigh, r.checkLow)]
    + match r.acks case Some(acks) => [Line('x', acks.0, acks.1)] case None => []
  }

  /** The fields decoded from a run's 13 or 14 lines. */
  function ReadRun(block: seq<Line>): Run
    requires |block| == 13 || |block| == 14
  {
    Run(block[0].a, block[0].b / 0x1_0000_0000 % 2, block[0].b / 0x100_0000 % 256,
        block[1].a, block[1].b, block[2].a, block[2].b, block[3].a, block[3].b, block[4].a, block[4].b,
        block[5].a, block[5].b, block[6].a, block[6].b, block[7].a, block[7].b,
        block[8].a, block[8].b, block[9].a, block[9].b, block[10].a, block[10].b,
        Signed64(block[11].a * 0x100_0000_0000 + block[11].b), block[12].a, block[12].b,
        if |block| == 14 then Some((block[13].a, block[13].b)) else None)
  }

  ghost predicate SayableRun(r: Run) {
    r.format < 2 && r.lanes < 256 && -0x8000_0000_0000_0000 <= r.dot < 0x8000_0000_0000_0000
  }

  lemma RunRoundTrip(r: Run)
    requires SayableRun(r)
    ensures ReadRun(RunLines(r)) == r
  {
    HeadFields(r.format, r.lanes);
    DotField(r.dot);
  }

  lemma HeadFields(format: nat, lanes: nat)
    requires format < 2 && lanes < 256
    ensures var b := format * 0x1_0000_0000 + lanes * 0x100_0000;
      b / 0x1_0000_0000 % 2 == format && b / 0x100_0000 % 256 == lanes
  {
  }

  /** Two fields of 24 and 40 bits carry a signed 64-bit number. */
  lemma DotField(dot: int)
    requires -0x8000_0000_0000_0000 <= dot < 0x8000_0000_0000_0000
    ensures var x := dot % 0x1_0000_0000_0000_0000;
      Signed64(x / 0x100_0000_0000 * 0x100_0000_0000 + x % 0x100_0000_0000) == dot
  {
  }

  // ---- Whole reports ----

  function PassBlocks(passes: seq<Pass>): (blocks: seq<seq<Line>>)
    ensures |blocks| == |passes| && forall i :: 0 <= i < |blocks| ==> blocks[i] == PassLines(passes[i])
  {
    seq(|passes|, i requires 0 <= i < |passes| => PassLines(passes[i]))
  }

  function RunBlocks(runs: seq<Run>): (blocks: seq<seq<Line>>)
    ensures |blocks| == |runs| && forall i :: 0 <= i < |blocks| ==> blocks[i] == RunLines(runs[i])
  {
    seq(|runs|, i requires 0 <= i < |runs| => RunLines(runs[i]))
  }

  /** Numbers from `from` on, modulo 2^32. */
  ghost predicate Numbered(blocks: seq<seq<Line>>, from: nat) {
    forall i :: 0 <= i < |blocks| ==> blocks[i] != [] && blocks[i][0].a == (from + i) % 0x1_0000_0000
  }

  lemma {:induction false} NumberedConsecutive(blocks: seq<seq<Line>>, from: nat)
    requires Numbered(blocks, from)
    ensures Consecutive(blocks, Some(from % 0x1_0000_0000))
    decreases |blocks|
  {
    if blocks == [] {
    } else {
      NextNumber(from);
      assert Numbered(blocks[1..], from + 1) by {
        forall i | 0 <= i < |blocks[1..]|
          ensures blocks[1..][i] != [] && blocks[1..][i][0].a == (from + 1 + i) % 0x1_0000_0000 {
          assert blocks[1..][i] == blocks[i + 1];
        }
      }
      NumberedConsecutive(blocks[1..], from + 1);
      assert blocks[0][0].a == (from + 0) % 0x1_0000_0000;
    }
  }

  lemma NextNumber(n: nat)
    ensures (n % 0x1_0000_0000 + 1) % 0x1_0000_0000 == (n + 1) % 0x1_0000_0000
  {
  }

  /** Passes reported in order, from round 0, are decoded as they were, with no problem. */
  lemma {:induction false} PassesDecode(head: Line, passes: seq<Pass>)
    requires head.tag == 'G'
    requires forall i :: 0 <= i < |passes| ==> SayablePass(passes[i]) && PassNumber(passes[i]) == i % 0x1_0000_0000
    ensures var t := Decoded(Pattern, Initial(Pattern), [head] + Flatten(PassBlocks(passes)));
      && t.problems == [] && t.seen == [] && |t.blocks| == |passes|
      && forall i :: 0 <= i < |passes| ==> |t.blocks[i]| == 5 && ReadPass(t.blocks[i]) == passes[i]
  {
    hide Decoded, PassLines, ReadPass, PassNumber, SayablePass;
    var blocks := PassBlocks(passes);
    forall i | 0 <= i < |passes|
      ensures IsBlock(Pattern, PASS_ORDER, blocks[i]) && blocks[i][0].a == PassNumber(passes[i])
        && ReadPass(blocks[i]) == passes[i]
    {
      PassIsBlock(passes[i]);
      PassRoundTrip(passes[i]);
    }
    hide IsBlock;
    assert AllBlocks(Pattern, PASS_ORDER, blocks);
    assert Numbered(blocks, 0);
    NumberedConsecutive(blocks, 0);
    ReportDecodes(Pattern, head, blocks);
  }

  lemma PassIsBlock(p: Pass)
    ensures IsBlock(Pattern, PASS_ORDER, PassLines(p)) && PassLines(p)[0].a == PassNumber(p)
  {
  }

  /** Runs reported in order, from run 0, are decoded as they were, with no problem. */
  lemma {:induction false} RunsDecode(head: Line, runs: seq<Run>)
    requires head.tag == 'q'
    requires forall i :: 0 <= i < |runs| ==> SayableRun(runs[i]) && runs[i].run == i % 0x1_0000_0000
    requires forall i :: 0 <= i < |runs| ==> (runs[i].acks.Some? <==> head.b / 0x1_0000_0000 >= 2)
    ensures var t := Decoded(Reader, Initial(Reader), [head] + Flatten(RunBlocks(runs)));
      && t.problems == [] && t.seen == [] && |t.blocks| == |runs|
      && forall i :: 0 <= i < |runs| ==> (|t.blocks[i]| == 13 || |t.blocks[i]| == 14) && ReadRun(t.blocks[i]) == runs[i]
  {
    hide Decoded, RunLines, ReadRun, SayableRun;
    var blocks, order := RunBlocks(runs), OrderAfter(Reader, head.b);
    forall i | 0 <= i < |runs|
      ensures IsBlock(Reader, order, blocks[i]) && blocks[i][0].a == runs[i].run && ReadRun(blocks[i]) == runs[i]
    {
      RunIsBlock(runs[i]);
      RunRoundTrip(runs[i]);
    }
    hide IsBlock;
    assert AllBlocks(Reader, order, blocks);
    assert Numbered(blocks, 0);
    NumberedConsecutive(blocks, 0);
    ReportDecodes(Reader, head, blocks);
  }

  lemma RunIsBlock(r: Run)
    ensures IsBlock(Reader, if r.acks.Some? then RUN_ORDER_2 else RUN_ORDER, RunLines(r)) && RunLines(r)[0].a == r.run
  {
  }

  // ---- The clock ----

  function Low40(count: int): int {
    count % 0x100_0000_0000
  }

  /** What the unwrapping adds from one reading to the next: a drop of more than half the range is
      a wrap. */
  function Rise(prev: int, next: int): int {
    if prev - next > 0x80_0000_0000 then next - prev + 0x100_0000_0000 else next - prev
  }

  /** The unwrapping loop: readings with a multiple of 2^40 that grows at each wrap. */
  method Unwrap(readings: seq<int>) returns (unwrapped: seq<int>, wraps: nat)
    ensures |unwrapped| == |readings|
    ensures |readings| > 0
      ==> unwrapped[0] == readings[0] && unwrapped[|readings| - 1] == readings[|readings| - 1] + wraps * 0x100_0000_0000
    ensures forall i :: 0 < i < |readings| ==> unwrapped[i] - unwrapped[i - 1] == Rise(readings[i - 1], readings[i])
  {
    unwrapped := [];
    var add := 0;
    wraps := 0;
    for i := 0 to |readings|
      invariant |unwrapped| == i && add == wraps * 0x100_0000_0000
      invariant i > 0 ==> unwrapped[0] == readings[0] && unwrapped[i - 1] == readings[i - 1] + add
      invariant i == 0 ==> add == 0
      invariant forall k :: 0 < k < i ==> unwrapped[k] - unwrapped[k - 1] == Rise(readings[k - 1], readings[k])
    {
      if i > 0 && readings[i - 1] - readings[i] > 0x80_0000_0000 {
        add := add + 0x100_0000_0000;
        wraps := wraps + 1;
      }
      unwrapped := unwrapped + [readings[i] + add];
    }
  }

  /** A gap the unwrapping recovers: below 2^39, or below 2^40 with no multiple of 2^40 crossed. */
  predicate Recovered(prev: int, next: int) {
    next - prev < 0x100_0000_0000 && (next - prev < 0x80_0000_0000 || Low40(prev) <= Low40(next))
  }

  /** Between two rising counts the unwrapping rises by the true gap exactly when the gap is
      recovered. */
  lemma RiseExact(prev: int, next: int)
    requires prev <= next
    ensures Rise(Low40(prev), Low40(next)) == next - prev <==> Recovered(prev, next)
  {
    var q := prev / 0x100_0000_0000;
    var r := next / 0x100_0000_0000;
    assert prev == q * 0x100_0000_0000 + Low40(prev) && next == r * 0x100_0000_0000 + Low40(next);
    LowRange(prev);
    LowRange(next);
    hide Low40;
    if next - prev < 0x100_0000_0000 {
      assert r == q || r == q + 1;
    }
  }

  lemma LowRange(count: int)
    ensures 0 <= Low40(count) < 0x100_0000_0000
  {
  }

  /** Rising counts, their low 40 bits unwrapped. */
  ghost predicate Follows(unwrapped: seq<int>, counts: seq<int>) {
    && |unwrapped| == |counts| > 0 && unwrapped[0] == Low40(counts[0])
    && (forall i :: 0 < i < |counts| ==> counts[i - 1] <= counts[i])
    && forall i :: 0 < i < |counts| ==> unwrapped[i] - unwrapped[i - 1] == Rise(Low40(counts[i - 1]), Low40(counts[i]))
  }

  ghost predicate AllRecovered(counts: seq<int>) {
    forall i :: 0 < i < |counts| ==> Recovered(counts[i - 1], counts[i])
  }

  lemma GapKept(unwrapped: seq<int>, counts: seq<int>, i: nat)
    requires Follows(unwrapped, counts) && 0 < i < |counts|
    ensures counts[i] - unwrapped[i] == counts[i - 1] - unwrapped[i - 1] <==> Recovered(counts[i - 1], counts[i])
  {
    hide Low40, Rise, Recovered;
    RiseExact(counts[i - 1], counts[i]);
    assert unwrapped[i] - unwrapped[i - 1] == Rise(Low40(counts[i - 1]), Low40(counts[i]));
  }

  lemma {:induction false} RecoveredKeeps(unwrapped: seq<int>, counts: seq<int>, i: nat)
    requires Follows(unwrapped, counts) && AllRecovered(counts) && i < |counts|
    ensures counts[i] - unwrapped[i] == counts[0] - unwrapped[0]
    decreases i
  {
    if i == 0 {
    } else {
      GapKept(unwrapped, counts, i);
      RecoveredKeeps(unwrapped, counts, i - 1);
    }
  }

  /** Over a whole run of rising counts the unwrapping recovers every count, up to one multiple of
      2^40, exactly when every gap is recovered. */
  lemma {:induction false} UnwrapExact(counts: seq<int>, unwrapped: seq<int>)
    requires Follows(unwrapped, counts)
    ensures (forall i :: 0 <= i < |counts| ==> counts[i] - unwrapped[i] == counts[0] - unwrapped[0])
      <==> AllRecovered(counts)
    ensures (counts[0] - unwrapped[0]) % 0x100_0000_0000 == 0
  {
    WholeWraps(counts[0]);
    hide Low40, Rise, Recovered;
    if AllRecovered(counts) {
      forall i | 0 <= i < |counts| ensures counts[i] - unwrapped[i] == counts[0] - unwrapped[0] {
        RecoveredKeeps(unwrapped, counts, i);
      }
    }
    if forall i :: 0 <= i < |counts| ==> counts[i] - unwrapped[i] == counts[0] - unwrapped[0] {
      forall i | 0 < i < |counts| ensures Recovered(counts[i - 1], counts[i]) {
        GapKept(unwrapped, counts, i);
        assert counts[i - 1] - unwrapped[i - 1] == counts[0] - unwrapped[0];
      }
    }
  }

  lemma WholeWraps(count: int)
    ensures (count - Low40(count)) % 0x100_0000_0000 == 0
  {
    assert count - Low40(count) == count / 0x100_0000_0000 * 0x100_0000_0000;
  }

  /** A gap of 2^40 - 1 that crosses a wrap: the low bits fall by one only, which is no wrap to the
      loop, and the second count comes out 2^40 too low. */
  lemma GapLost()
    ensures Follows([1, 0], [1, 0x100_0000_0000]) && !AllRecovered([1, 0x100_0000_0000])
  {
    var counts := [1, 0x100_0000_0000];
    assert Rise(Low40(counts[0]), Low40(counts[1])) == -1;
    assert !Recovered(counts[0], counts[1]);
  }

  /** A burst number of thirty-two ones stands for no failure, any other for the first failing burst. */
  lemma FirstFailRead(block: seq<Line>)
    requires |block| == 5
    ensures ReadPass(block).firstFail == NoFail <==> block[4].a == 0xFFFF_FFFF
    ensures block[4].a != 0xFFFF_FFFF ==> ReadPass(block).firstFail.burst == block[4].a
  {
  }
}
