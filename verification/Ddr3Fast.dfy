/** The report of a read run over whole arrays: every step changes all blocks in place before the
    next, and the checksum has no running value. */
module Ddr3Fast {
  import opened Digits
  import opened Bits
  import opened TritCodec
  import opened Ddr3Codec
  import opened Ddr3Pattern
  import opened RotXor
  import opened Ddr3Read
  import opened Ddr3Runs

  /** One elementwise operation on an array of words. */
  method Each(x: array<seq<bool>>, f: seq<bool> -> seq<bool>)
    modifies x
    ensures forall b :: 0 <= b < x.Length ==> x[b] == f(old(x[b]))
  {
    for i := 0 to x.Length
      invariant forall b :: 0 <= b < i ==> x[b] == f(old(x[b]))
      invariant forall b :: i <= b < x.Length ==> x[b] == old(x[b])
    {
      x[i] := f(x[i]);
    }
  }

  /** All block words, step by step over the array. */
  method BlockWords(count: nat) returns (x: array<seq<bool>>)
    ensures fresh(x) && x.Length == count
    ensures forall b :: 0 <= b < count ==> x[b] == BlockWord(b)
  {
    hide Mix, Post, Lin, StepLeft, StepRight, ToBits, Wrapped;
    x := new seq<bool>[count](b requires 0 <= b < count => ToBits(Wrapped(b), 64));
    Each(x, Mix);
    assert forall b :: 0 <= b < count ==> x[b] == Mix(ToBits(Wrapped(b), 64));
    LinAll(x);
    Each(x, Post);
  }

  /** The nine xorshifts over the array. */
  method LinAll(x: array<seq<bool>>)
    modifies x
    ensures forall b :: 0 <= b < x.Length ==> x[b] == Lin(old(x[b]))
  {
    hide StepLeft, StepRight;
    for k := 0 to 3
      invariant forall b :: 0 <= b < x.Length ==> Mixed(x[b], TRIPLES[k..]) == Mixed(old(x[b]), TRIPLES)
    {
      hide Mixed;
      ghost var was := x[..];
      var left, right, last := TRIPLES[k].0, TRIPLES[k].1, TRIPLES[k].2;
      Each(x, z => StepLeft(z, left));
      Each(x, z => StepRight(z, right));
      Each(x, z => StepLeft(z, last));
      forall b | 0 <= b < x.Length ensures Mixed(x[b], TRIPLES[k + 1..]) == Mixed(was[b], TRIPLES[k..]) {
        MixedStep(was[b], k);
      }
    }
    assert TRIPLES[3..] == [];
  }

  lemma MixedStep(x: seq<bool>, k: nat)
    requires k < 3
    ensures Mixed(x, TRIPLES[k..])
      == Mixed(StepLeft(StepRight(StepLeft(x, TRIPLES[k].0), TRIPLES[k].1), TRIPLES[k].2), TRIPLES[k + 1..])
  {
    hide StepLeft, StepRight;
    assert TRIPLES[k..][1..] == TRIPLES[k + 1..];
  }

  /** The lane codes of all blocks in one array, those past the region overwritten with zero. */
  method LaneArray(key: seq<bool>, blocks: nat, trits: nat) returns (codes: array<nat>)
    requires |key| == 64
    ensures fresh(codes) && codes.Length == 16 * blocks
    ensures codes[..] == RegionCodes(key, trits, 0, 16 * blocks)
  {
    hide BlockWord, Clean, Low32, StreamCode;
    var x := BlockWords(blocks);
    var raw := seq(blocks, b requires 0 <= b < blocks reads x => Raw(key, x[b]));
    codes := new nat[16 * blocks];
    for i := 0 to codes.Length
      invariant forall k :: 0 <= k < i ==> codes[k] == StreamCode(key, k)
    {
      CodeOfRaw(key, i);
      codes[i] := CodeAt(raw[i / 16], i % 16);
    }
    var cut := if trits < codes.Length then trits else codes.Length;
    for i := cut to codes.Length
      invariant forall k :: 0 <= k < codes.Length ==> codes[k] == if trits <= k < i then 0 else StreamCode(key, k)
    {
      codes[i] := 0;
    }
  }

  /** One block's word xored with the key, cut to 32 bits and cleaned. */
  function Raw(key: seq<bool>, x: seq<bool>): (raw: seq<bool>)
    requires |key| == 64
  {
    if |x| == 64 then Clean(Low32(Xor(key, x))) else x
  }

  lemma CodeOfRaw(key: seq<bool>, i: nat)
    requires |key| == 64
    ensures CodeAt(Raw(key, BlockWord(i / 16)), i % 16) == StreamCode(key, i)
  {
    hide Clean, Low32, BlockWord, CodeAt;
  }

  /** Masked counts and masked activation sums over the code array. */
  method MaskedSums(codes: seq<nat>) returns (plus: nat, minus: nat, dot: int)
    requires Below(3, codes)
    ensures Tallied(plus, minus, dot, Trits(codes))
  {
    hide Count, Dot;
    var plusActs, minusActs := 0, 0;
    plus, minus := 0, 0;
    EmptySums(codes[..0]);
    for i := 0 to |codes|
      invariant Tallied(plus, minus, plusActs - minusActs, Trits(codes[..i]))
    {
      assert Trits(codes[..i + 1]) == Trits(codes[..i]) + [TritOfLane(codes[i])];
      TallyAppend(Trits(codes[..i]), 1, TritOfLane(codes[i]));
      TallyAppend(Trits(codes[..i]), -1, TritOfLane(codes[i]));
      if codes[i] == 1 {
        plus, plusActs := plus + 1, plusActs + Activation(i);
      }
      if codes[i] == 2 {
        minus, minusActs := minus + 1, minusActs + Activation(i);
      }
    }
    assert codes[..|codes|] == codes;
    dot := plusActs - minusActs;
  }

  lemma EmptySums(codes: seq<nat>)
    requires codes == []
    ensures Tallied(0, 0, 0, Trits(codes))
  {
  }

  /** run_results_fast: the same report as the word-by-word run, for every layout, key and
      length. */
  method RunResultsFast(fmt: Layout, key: seq<bool>, trits: nat) returns (r: Report)
    requires |key| == 64
    ensures r == Expected(fmt, key, trits)
  {
    hide RegionCode, PackedBytes, Summary, Tallied, HalvesOf, Checksum;
    var words := WordsOf(fmt, trits);
    var blocks := words * (LanesIn(fmt) / 16);
    BlocksCover(fmt, words);
    hide WordsOf;
    var codes := LaneArray(key, blocks, trits);
    RegionBelow(key, trits, 0, 16 * blocks);
    var plus, minus, dot := MaskedSums(codes[..]);
    var chk := TurnedReduce(HalvesOf(PackedBytes(fmt, codes[..])));
    Reported(fmt, key, trits, plus, minus, dot);
    r := Summary(fmt, trits, plus, minus, dot, chk);
  }

  lemma BlocksCover(fmt: Layout, words: nat)
    ensures 16 * (words * (LanesIn(fmt) / 16)) == words * LanesIn(fmt)
  {
  }

  /** The runs of one pair, one in each layout under one key, computed either way: the reports of
      a layout are equal, and across layouts the counts and the dot product are. */
  method PairRuns(seed: nat, pair: nat, trits: nat, fast: bool) returns (first: Report, second: Report)
    ensures first == Expected(Baseline2, PairKey(seed, pair), trits)
    ensures second == Expected(Dense5, PairKey(seed, pair), trits)
    ensures (first.plus, first.minus, first.dot) == (second.plus, second.minus, second.dot)
  {
    hide StoredChecksum, RegionTrits, PairKey, Count, Dot, WordsOf, PayloadBytes;
    var key := PairKey(seed, pair);
    if fast {
      first := RunResultsFast(Baseline2, key, trits);
      second := RunResultsFast(Dense5, key, trits);
    } else {
      first := RunResults(Baseline2, key, trits);
      second := RunResults(Dense5, key, trits);
    }
  }
}
