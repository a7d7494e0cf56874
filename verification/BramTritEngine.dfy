/** What an engine reports after writing and reading a stretch of the trit stream, and the paired
    words of the read-only store. */
module BramTritEngine {
  import opened Arithmetic
  import opened Results
  import opened Digits
  import opened TritCodec
  import opened Lfsr
  import opened BramTrit
  import opened Bits
  import opened RotXor

  datatype Report = Report(plus: nat, minus: nat, dot: int, checksum: seq<bool>)

  /** A word as the checksum takes it. */
  function WordBits(word: nat): (x: seq<bool>)
    ensures |x| == 64
  {
    ToBits(word, 64)
  }

  /** The first trits of the stream. */
  function FirstTrits(seed: seq<bool>, count: nat): (ts: seq<int>)
    requires |seed| == 64
    ensures |ts| == count
  {
    Trits(StreamCodes(seed, 0, count))
  }

  /** The word that holds the stream's trits from `from` on. */
  function StoredWord(fmt: Format, seed: seq<bool>, from: nat): nat
    requires |seed| == 64
  {
    match EncodeWord(fmt, Num(4, StreamCodes(seed, from, Lanes(fmt))))
    case Some(word) => word
    case None => 0
  }

  /** The stream index of word w's first trit. */
  function FirstOf(fmt: Format, w: nat): nat {
    w * Lanes(fmt)
  }

  lemma NextFirst(fmt: Format, w: nat)
    ensures FirstOf(fmt, w + 1) == FirstOf(fmt, w) + Lanes(fmt)
    ensures FirstOf(fmt, 0) == 0
  {
  }

  function StoredWords(fmt: Format, seed: seq<bool>, count: nat): (ws: seq<seq<bool>>)
    requires |seed| == 64
    ensures |ws| == count && Words(ws)
  {
    if count == 0 then []
      else StoredWords(fmt, seed, count - 1) + [WordBits(StoredWord(fmt, seed, FirstOf(fmt, count - 1)))]
  }

  /** The lane codes cut from a state. */
  function CodesFrom(state: seq<bool>, k: nat): (codes: seq<nat>)
    ensures |codes| == k && forall j :: 0 <= j < k ==> codes[j] == LaneCode(Bit(state, 2 * j), Bit(state, 2 * j + 1))
  {
    seq<nat>(k, j requires 0 <= j < k => LaneCode(Bit(state, 2 * j), Bit(state, 2 * j + 1)))
  }

  method LanesFrom(state: seq<bool>, k: nat) returns (lanes: nat)
    ensures lanes == Num(4, CodesFrom(state, k))
  {
    hide Num, Pow, LaneCode, Bit;
    lanes := 0;
    NumNothing();
    for j := 0 to k
      invariant lanes == Num(4, CodesFrom(state, j))
    {
      var v := TwoBits(Bit(state, 2 * j), Bit(state, 2 * j + 1));
      var code := if v == 3 then 0 else v;
      NumAppend(4, CodesFrom(state, j), code);
      assert CodesFrom(state, j + 1) == CodesFrom(state, j) + [code];
      lanes := lanes + Mul(code, Pow(4, j));
    }
  }

  /** Two bits as a number, and as the lane code that number is read as. */
  method TwoBits(lo: bool, hi: bool) returns (v: nat)
    ensures v < 4 && v == BitDigit(lo) + 2 * BitDigit(hi)
    ensures LaneCode(lo, hi) == if v == 3 then 0 else v
  {
    v := (if lo then 1 else 0) + (if hi then 2 else 0);
  }

  lemma NumNothing()
    ensures forall b: nat :: Num(b, []) == 0
  {
  }

  lemma CodesOfState(seed: seq<bool>, n: nat, k: nat)
    requires |seed| == 64 && k <= 32
    ensures CodesFrom(Steps(seed, 2 * n), k) == StreamCodes(seed, n, k)
  {
    hide Steps, Stream, LaneCode;
    forall j: nat | j < k
      ensures LaneCode(Bit(Steps(seed, 2 * n), 2 * j), Bit(Steps(seed, 2 * n), 2 * j + 1)) == StreamCode(seed, n + j)
    {
      LanesOfState(seed, n, j);
    }
  }

  lemma StreamBelow(seed: seq<bool>, from: nat, k: nat)
    requires |seed| == 64
    ensures Below(3, StreamCodes(seed, from, k))
  {
    hide StreamCode;
  }

  /** One engine over `words` words. Whatever the format, the counts and the dot product are those
      of the first words * lanes trits of the stream, so two formats agree whenever their trit
      totals do; the round trip the engine asserts holds for every word. */
  method EngineResults(fmt: Format, words: nat, seed: seq<bool>) returns (r: Report)
    requires |seed| == 64
    ensures r.plus == Count(FirstTrits(seed, FirstOf(fmt, words)), 1)
    ensures r.minus == Count(FirstTrits(seed, FirstOf(fmt, words)), -1)
    ensures r.dot == Dot(FirstTrits(seed, FirstOf(fmt, words)))
    ensures r.checksum == Checksum(StoredWords(fmt, seed, words))
  {
    hide Steps, Advance, Num, Count, Dot, FirstTrits, RotL, Xor, WordBits, Checksum, EncodeWord, LanesOf, BadIn,
         StoredWords, StreamCodes;
    var k := Lanes(fmt);
    assert k <= 22;
    hide Lanes, StoredWord, CodesFrom, FirstOf;
    var state, index := seed, 0;
    NextFirst(fmt, 0);
    r := Report(0, 0, 0, Zeroes(64));
    var chk := Zeroes(64);
    StepsNone(seed);
    NothingRead(fmt, seed);
    hide Tallied;
    for w := 0 to words
      invariant index == FirstOf(fmt, w)
      invariant |state| == 64 && state == Steps(seed, 2 * index)
      invariant Tallied(r, FirstTrits(seed, index))
      invariant |chk| == 64 && chk == Checksum(StoredWords(fmt, seed, w))
    {
      var lanes := LanesFrom(state, k);
      CodesOfState(seed, index, k);
      var word := WordOfLanes(fmt, seed, index, lanes);
      r := Tally(r, k, lanes, seed, index);
      GrowWords(fmt, seed, w);
      chk := Xor(RotL(chk, 1), WordBits(word));
      AdvanceStream(seed, index, k);
      state := Advance(state, 2 * k);
      NextFirst(fmt, w);
      index := index + k;
    }
    TalliedIs(r, FirstTrits(seed, index), chk);
    r := r.(checksum := chk);
  }

  lemma AdvanceStream(seed: seq<bool>, index: nat, k: nat)
    requires |seed| == 64 && k <= 22
    ensures Advance(Steps(seed, 2 * index), 2 * k) == Steps(seed, 2 * (index + k))
  {
    hide Steps, Advance;
    AdvanceExact(Steps(seed, 2 * index), 2 * k);
    StepsCompose(seed, 2 * index, 2 * k);
  }

  lemma TalliedIs(r: Report, trits: seq<int>, chk: seq<bool>)
    requires Tallied(r, trits)
    ensures Tallied(r.(checksum := chk), trits)
    ensures r.plus == Count(trits, 1) && r.minus == Count(trits, -1) && r.dot == Dot(trits)
  {
  }

  /** The counts and the dot product are those of the trits. */
  ghost predicate Tallied(r: Report, trits: seq<int>) {
    r.plus == Count(trits, 1) && r.minus == Count(trits, -1) && r.dot == Dot(trits)
  }

  lemma NothingRead(fmt: Format, seed: seq<bool>)
    requires |seed| == 64
    ensures Tallied(Report(0, 0, 0, Zeroes(64)), FirstTrits(seed, 0))
    ensures Checksum(StoredWords(fmt, seed, 0)) == Zeroes(64)
  {
  }

  lemma GrowWords(fmt: Format, seed: seq<bool>, w: nat)
    requires |seed| == 64
    ensures Checksum(StoredWords(fmt, seed, w + 1))
      == Xor(RotL(Checksum(StoredWords(fmt, seed, w)), 1), WordBits(StoredWord(fmt, seed, FirstOf(fmt, w))))
  {
    hide StoredWord, RotL, Xor, WordBits;
    assert StoredWords(fmt, seed, w + 1)[..w] == StoredWords(fmt, seed, w);
  }

  lemma GrowTrits(seed: seq<bool>, n: nat)
    requires |seed| == 64
    ensures FirstTrits(seed, n + 1) == FirstTrits(seed, n) + [TritOfLane(StreamCode(seed, n))]
  {
    hide StreamCode, TritOfLane;
  }

  /** Encode one word and check that it decodes. */
  method WordOfLanes(fmt: Format, seed: seq<bool>, from: nat, lanes: nat) returns (word: nat)
    requires |seed| == 64 && lanes == Num(4, StreamCodes(seed, from, Lanes(fmt)))
    ensures word == StoredWord(fmt, seed, from)
  {
    hide Num, EncodeWord, LanesOf, BadIn;
    StreamBelow(seed, from, Lanes(fmt));
    hide StreamCodes;
    RoundTrip(fmt, StreamCodes(seed, from, Lanes(fmt)));
    word := EncodeWord(fmt, lanes).value;
    var back, bad := DecodeWord(fmt, word);
    assert back == lanes && bad == 0;
  }

  /** One word's lanes added to the counts and the dot product. */
  method Tally(before: Report, k: nat, lanes: nat, ghost seed: seq<bool>, index: nat) returns (r: Report)
    requires |seed| == 64 && lanes == Num(4, StreamCodes(seed, index, k))
    requires Tallied(before, FirstTrits(seed, index))
    ensures Tallied(r, FirstTrits(seed, index + k))
  {
    hide Num, Count, Dot, FirstTrits, StreamCode, Digit;
    r := before;
    ghost var codes := StreamCodes(seed, index, k);
    StreamBelow(seed, index, k);
    PackedLanes(codes);
    for j := 0 to k
      invariant Tallied(r, FirstTrits(seed, index + j))
    {
      var code := Digit(4, lanes, j);
      assert code == DigitsOf(4, lanes, k)[j] == StreamCode(seed, index + j);
      GrowTrits(seed, index + j);
      TallyAppend(FirstTrits(seed, index + j), 1, TritOfLane(code));
      TallyAppend(FirstTrits(seed, index + j), -1, TritOfLane(code));
      if code == 1 {
        r := r.(plus := r.plus + 1, dot := r.dot + ((index + j) % 8 + 1));
      } else if code == 2 {
        r := r.(minus := r.minus + 1, dot := r.dot - ((index + j) % 8 + 1));
      }
    }
  }

  /** The bench generator's comparison: over any trit total that is a whole number of words in
      every format, the three engines report the same counts and dot product. */
  method Bench(trits: nat, seed: seq<bool>) returns (b2: Report, d5: Report, d5d2: Report)
    requires |seed| == 64 && trits % 1980 == 0
    ensures (b2.plus, b2.minus, b2.dot) == (d5.plus, d5.minus, d5.dot) == (d5d2.plus, d5d2.minus, d5d2.dot)
    ensures b2.plus == Count(FirstTrits(seed, trits), 1) && b2.minus == Count(FirstTrits(seed, trits), -1)
    ensures b2.dot == Dot(FirstTrits(seed, trits))
  {
    hide Count, Dot, FirstTrits, Checksum, StoredWords;
    var units := trits / 1980;
    assert units * 110 * 18 == trits && units * 99 * 20 == trits && units * 90 * 22 == trits;
    b2 := EngineResults(B2, units * 110, seed);
    d5 := EngineResults(D5, units * 99, seed);
    d5d2 := EngineResults(D5D2, units * 90, seed);
  }

  // ---- Paired words ----

  datatype Failure = NotWholePairs | NotATrit

  function LaneCodes(trits: seq<int>): (codes: seq<nat>)
    ensures |codes| == |trits| && forall i :: 0 <= i < |codes| ==> codes[i] == LaneOfTrit(trits[i])
    ensures Below(3, codes)
  {
    seq(|trits|, i requires 0 <= i < |trits| => LaneOfTrit(trits[i]))
  }

  /** dense5 of trits plus one. */
  function Dense5(trits: seq<int>): nat
    requires AllTrits(trits)
  {
    Num(3, seq(|trits|, i requires 0 <= i < |trits| => trits[i] + 1))
  }

  lemma Dense5IsGroup(trits: seq<int>)
    requires AllTrits(trits)
    ensures Dense5(trits) == GroupCode(LaneCodes(trits))
  {
    hide Num;
    assert LaneDigits(LaneCodes(trits)) == seq(|trits|, i requires 0 <= i < |trits| => trits[i] + 1);
  }

  datatype Pair = Pair(lanesA: nat, wordA: nat, lanesB: nat, wordB: nat)

  /** The two words of 45 trits: twenty in each word's bytes and five in the two top nibbles. */
  function PairOf(group: seq<int>): Option<Pair>
    requires |group| == 45 && AllTrits(group)
  {
    var lanesA := Num(4, LaneCodes(group[..20]));
    var lanesB := Num(4, LaneCodes(group[20..45]));
    var parity := Dense5(group[40..45]);
    var wordA :- EncodeWord(D5, lanesA);
    var wordB :- EncodeWord(D5, lanesB % 0x100_0000_0000);
    Some(Pair(lanesA, wordA + 0x1_0000_0000 * (parity % 16), lanesB, wordB + 0x1_0000_0000 * (parity / 16)))
  }

  /** decode_pair: the lanes of both words and the invalid groups. */
  method DecodePair(wordA: nat, wordB: nat) returns (lanesA: nat, lanesB: nat, bad: nat)
    ensures lanesA == Num(4, DenseLanes(WordBytes(wordA % 0x1_0000_0000)))
    ensures lanesB
      == Num(4, DenseLanes(WordBytes(wordB % 0x1_0000_0000)) + GroupLanes(Nibble(wordB) * 16 + Nibble(wordA), 5))
    ensures bad == BadBytes(WordBytes(wordA % 0x1_0000_0000)) + BadBytes(WordBytes(wordB % 0x1_0000_0000))
      + if Nibble(wordB) * 16 + Nibble(wordA) < 243 then 0 else 1
  {
    hide Num, DenseLanes, BadBytes, Digit, Pow, GroupLanes;
    var badA, badB;
    lanesA, badA := DecodeWord(D5, wordA % 0x1_0000_0000);
    lanesB, badB := DecodeWord(D5, wordB % 0x1_0000_0000);
    var parity := wordB / 0x1_0000_0000 % 16 * 16 + wordA / 0x1_0000_0000 % 16;
    bad := badA + badB;
    Pow35();
    if parity < 243 {
      lanesB := DecodeGroup(parity, 5, lanesB, 20, DenseLanes(WordBytes(wordB % 0x1_0000_0000)));
    } else {
      NoLanes(DenseLanes(WordBytes(wordB % 0x1_0000_0000)), parity, 5);
      bad := bad + 1;
    }
  }

  /** Twenty lanes and a nibble in one word: the bytes decode to the lanes, the nibble stays. */
  lemma HalfOfPair(codes: seq<nat>, nib: nat)
    requires |codes| == 20 && Below(3, codes) && nib < 16
    ensures EncodeWord(D5, Num(4, codes)).Some?
    ensures var word := EncodeWord(D5, Num(4, codes)).value + 0x1_0000_0000 * nib;
      Nibble(word) == nib
      && DenseLanes(WordBytes(word % 0x1_0000_0000)) == codes && BadBytes(WordBytes(word % 0x1_0000_0000)) == 0
  {
    hide Num, Digit, DenseBytes, DenseLanes, BadBytes, GroupCode, GroupLanes, Pow;
    PackedLanes(codes);
    DenseRoundTrip(codes);
    NoBadBytes(DenseBytes(codes));
    assert codes[..20] == codes;
    DenseWord(DenseBytes(codes), 0);
    BelowWider(243, 256, DenseBytes(codes));
    NumBound(256, DenseBytes(codes));
    Pow256();
  }

  /** A pair decodes to the lanes it was made of, all 45 trits, with no invalid group. */
  lemma {:induction false} PairRoundTrip(group: seq<int>)
    requires |group| == 45 && AllTrits(group)
    ensures PairOf(group).Some?
    ensures var p := PairOf(group).value; var parity := Nibble(p.wordB) * 16 + Nibble(p.wordA);
      && DenseLanes(WordBytes(p.wordA % 0x1_0000_0000)) == LaneCodes(group[..20])
      && DenseLanes(WordBytes(p.wordB % 0x1_0000_0000)) + GroupLanes(parity, 5) == LaneCodes(group[20..45])
      && BadBytes(WordBytes(p.wordA % 0x1_0000_0000)) == 0 == BadBytes(WordBytes(p.wordB % 0x1_0000_0000))
      && parity < 243
  {
    hide Num, Digit, DenseBytes, DenseLanes, BadBytes, GroupCode, GroupLanes, Pow, EncodeWord, Dense5;
    var tail := LaneCodes(group[40..45]);
    var parity := Dense5(group[40..45]);
    Dense5IsGroup(group[40..45]);
    GroupRoundTrip(tail);
    Pow35();
    HalfOfPair(LaneCodes(group[..20]), parity % 16);
    HalfOfPair(LaneCodes(group[20..40]), parity / 16);
    LowLanes(group);
    assert LaneCodes(group[20..45]) == LaneCodes(group[20..40]) + tail;
  }

  lemma LowLanes(group: seq<int>)
    requires |group| == 45
    ensures Num(4, LaneCodes(group[20..45])) % 0x100_0000_0000 == Num(4, LaneCodes(group[20..40]))
  {
    hide Num, Pow;
    var codes := LaneCodes(group[20..45]);
    BelowWider(3, 4, codes);
    NumSplit(4, codes, 20);
    Pow4At20();
    assert codes[..20] == LaneCodes(group[20..40]);
  }

  /** pair_words: all pairs of a trit list, or the error the code raises. */
  method PairWords(trits: seq<int>) returns (r: Result<seq<Pair>, Failure>)
    ensures |trits| % 45 != 0 ==> r == Err(NotWholePairs)
    ensures |trits| % 45 == 0 && !AllTrits(trits) ==> r == Err(NotATrit)
    ensures |trits| % 45 == 0 && AllTrits(trits) ==> r.Ok? && |r.value| == |trits| / 45
    ensures r.Ok? ==> forall g :: 0 <= g < |r.value| ==> PairOf(trits[45 * g..45 * g + 45]) == Some(r.value[g])
  {
    hide PairOf;
    if |trits| % 45 != 0 {
      return Err(NotWholePairs);
    }
    if !AllTrits(trits) {
      return Err(NotATrit);
    }
    var out := [];
    while 45 * |out| < |trits|
      invariant 45 * |out| <= |trits|
      invariant forall g :: 0 <= g < |out| ==> PairOf(trits[45 * g..45 * g + 45]) == Some(out[g])
      decreases |trits| - 45 * |out|
    {
      var group := trits[45 * |out|..45 * |out| + 45];
      PairRoundTrip(group);
      var pair := PairOf(group).value;
      out := out + [pair];
    }
    r := Ok(out);
  }
}
