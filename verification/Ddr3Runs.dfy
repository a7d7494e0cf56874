/** The report of a read run: word by word, and over whole arrays. */
module Ddr3Runs {
  import opened Arithmetic
  import opened Digits
  import opened Bits
  import opened TritCodec
  import opened Ddr3Codec
  import opened RotXor
  import opened Ddr3Read

  datatype Report = Report(words: nat, busBytes: nat, payloadBytes: nat, paddingBytes: int,
                           plus: nat, minus: nat, dot: int, checksum: seq<bool>)

  function CeilDiv(n: nat, d: nat): (q: nat)
    requires d > 0
  {
    (n + d - 1) / d
  }

  function WordsOf(fmt: Layout, trits: nat): nat {
    CeilDiv(trits, LanesIn(fmt))
  }

  function PayloadBytes(fmt: Layout, trits: nat): nat {
    match fmt
    case Baseline2 => CeilDiv(trits, 4)
    case Dense5 => CeilDiv(trits, 5)
  }

  function Summary(fmt: Layout, trits: nat, plus: nat, minus: nat, dot: int, chk: seq<bool>): Report {
    var words := WordsOf(fmt, trits);
    Report(words, words * 16, PayloadBytes(fmt, trits), words * 16 - PayloadBytes(fmt, trits), plus, minus, dot, chk)
  }

  /** The trits of a region with no layout: the stream cut at its length. */
  function RegionTrits(key: seq<bool>, trits: nat): (ts: seq<int>)
    requires |key| == 64
    ensures |ts| == trits
  {
    Trits(RegionCodes(key, trits, 0, trits))
  }

  // ---- Bytes and halves ----

  /** A 64-bit half as its word. */
  function HalfBits(bytes: seq<nat>): (h: seq<bool>)
    ensures |h| == 64
  {
    ToBits(Num(256, bytes), 64)
  }

  /** Bytes read as 64-bit little-endian words. */
  function HalvesOf(bytes: seq<nat>): (hs: seq<seq<bool>>)
    ensures Words(hs)
  {
    if |bytes| < 8 then [] else [HalfBits(bytes[..8])] + HalvesOf(bytes[8..])
  }

  lemma {:induction false} HalvesConcat(x: seq<nat>, y: seq<nat>)
    requires |x| % 8 == 0
    ensures HalvesOf(x + y) == HalvesOf(x) + HalvesOf(y)
    decreases |x|
  {
    hide HalfBits;
    if x == [] {
      NoHalves();
      assert x + y == y;
    } else {
      HalvesStep(x[..8], x[8..] + y);
      HalvesStep(x[..8], x[8..]);
      assert x == x[..8] + x[8..] && x + y == x[..8] + (x[8..] + y);
      hide HalvesOf;
      HalvesConcat(x[8..], y);
    }
  }

  lemma NoHalves()
    ensures HalvesOf([]) == []
  {
  }

  lemma HalvesStep(first: seq<nat>, rest: seq<nat>)
    requires |first| == 8
    ensures HalvesOf(first + rest) == [HalfBits(first)] + HalvesOf(rest)
  {
    hide HalfBits;
    assert (first + rest)[..8] == first && (first + rest)[8..] == rest;
  }

  /** Lanes a byte holds. */
  function PerByte(fmt: Layout): nat {
    match fmt
    case Baseline2 => 4
    case Dense5 => 5
  }

  lemma BytesConcat(fmt: Layout, x: seq<nat>, y: seq<nat>)
    requires |x| % PerByte(fmt) == 0
    ensures PackedBytes(fmt, x + y) == PackedBytes(fmt, x) + PackedBytes(fmt, y)
  {
    match fmt
    case Baseline2 => CodeBytesConcat(x, y);
    case Dense5 => DenseBytesConcat(x, y);
  }

  lemma {:induction false} CodeBytesConcat(x: seq<nat>, y: seq<nat>)
    requires |x| % 4 == 0
    ensures CodeBytes(x + y) == CodeBytes(x) + CodeBytes(y)
    decreases |x|
  {
    if x == [] {
      assert CodeBytes(x) == [] && x + y == y;
    } else {
      CodeBytesStep(x[..4], x[4..] + y);
      CodeBytesStep(x[..4], x[4..]);
      assert x == x[..4] + x[4..] && x + y == x[..4] + (x[4..] + y);
      hide CodeBytes, Num;
      CodeBytesConcat(x[4..], y);
    }
  }

  lemma CodeBytesStep(first: seq<nat>, rest: seq<nat>)
    requires |first| == 4
    ensures CodeBytes(first + rest) == [Num(4, first)] + CodeBytes(rest)
  {
    hide Num;
    assert (first + rest)[..4] == first && (first + rest)[4..] == rest;
  }

  lemma {:induction false} DenseBytesConcat(x: seq<nat>, y: seq<nat>)
    requires |x| % 5 == 0
    ensures DenseBytes(x + y) == DenseBytes(x) + DenseBytes(y)
    decreases |x|
  {
    if x == [] {
      assert DenseBytes(x) == [] && x + y == y;
    } else {
      DenseBytesStep(x[..5], x[5..] + y);
      DenseBytesStep(x[..5], x[5..]);
      assert x == x[..5] + x[5..] && x + y == x[..5] + (x[5..] + y);
      hide DenseBytes, GroupCode;
      DenseBytesConcat(x[5..], y);
    }
  }

  lemma DenseBytesStep(first: seq<nat>, rest: seq<nat>)
    requires |first| == 5
    ensures DenseBytes(first + rest) == [GroupCode(first)] + DenseBytes(rest)
  {
    hide GroupCode;
    assert (first + rest)[..5] == first && (first + rest)[5..] == rest;
  }

  /** The two halves of a 128-bit word are its low and high eight bytes. */
  lemma HalvesOfWord(bytes: seq<nat>)
    requires |bytes| == 16 && Below(256, bytes)
    ensures HalvesOf(bytes)
      == [ToBits(Num(256, bytes) % 0x1_0000_0000_0000_0000, 64), ToBits(Num(256, bytes) / 0x1_0000_0000_0000_0000, 64)]
  {
    hide Num, ToBits, Pow;
    NumSplit(256, bytes, 8);
    Pow128();
    assert bytes[8..][..8] == bytes[8..] && bytes[8..][8..] == [];
    assert HalvesOf(bytes) == [HalfBits(bytes[..8])] + HalvesOf(bytes[8..]);
    assert HalvesOf(bytes[8..]) == [HalfBits(bytes[8..])] + HalvesOf([]);
  }

  // ---- What both computations report ----

  /** The checksum of the first `count` lanes of a region as stored bytes. */
  function StoredChecksum(fmt: Layout, key: seq<bool>, trits: nat, count: nat): (chk: seq<bool>)
    requires |key| == 64
    ensures |chk| == 64
  {
    Checksum(HalvesOf(PackedBytes(fmt, RegionCodes(key, trits, 0, count))))
  }

  function Total(fmt: Layout, trits: nat): nat {
    WordsOf(fmt, trits) * LanesIn(fmt)
  }

  /** The report by its meaning: counts and dot product of the region's trits, and the checksum of
      its stored bytes. */
  function Expected(fmt: Layout, key: seq<bool>, trits: nat): Report
    requires |key| == 64
  {
    var ts := RegionTrits(key, trits);
    Summary(fmt, trits, Count(ts, 1), Count(ts, -1), Dot(ts), StoredChecksum(fmt, key, trits, Total(fmt, trits)))
  }

  ghost predicate Tallied(plus: nat, minus: nat, dot: int, ts: seq<int>) {
    plus == Count(ts, 1) && minus == Count(ts, -1) && dot == Dot(ts)
  }

  /** Lanes past the end of the region are zeros and change no count. */
  lemma {:induction false} PaddingCountsNothing(key: seq<bool>, trits: nat, n: nat)
    requires |key| == 64 && trits <= n
    ensures Count(Trits(RegionCodes(key, trits, 0, n)), 1) == Count(RegionTrits(key, trits), 1)
    ensures Count(Trits(RegionCodes(key, trits, 0, n)), -1) == Count(RegionTrits(key, trits), -1)
    ensures Dot(Trits(RegionCodes(key, trits, 0, n))) == Dot(RegionTrits(key, trits))
    decreases n - trits
  {
    hide StreamCode, Count, Dot;
    if trits >= n {
    } else {
      PaddingCountsNothing(key, trits, n - 1);
      GrowRegion(key, trits, n - 1);
      var front := Trits(RegionCodes(key, trits, 0, n - 1));
      TallyAppend(front, 1, 0);
      TallyAppend(front, -1, 0);
    }
  }

  lemma GrowRegion(key: seq<bool>, trits: nat, n: nat)
    requires |key| == 64
    ensures Trits(RegionCodes(key, trits, 0, n + 1))
      == Trits(RegionCodes(key, trits, 0, n)) + [TritOfLane(RegionCode(key, trits, n))]
  {
    hide RegionCode, TritOfLane;
  }

  lemma TotalCovers(fmt: Layout, trits: nat)
    ensures trits <= Total(fmt, trits)
  {
    match fmt {
      case Baseline2 => assert Total(fmt, trits) == 64 * ((trits + 63) / 64);
      case Dense5 => assert Total(fmt, trits) == 80 * ((trits + 79) / 80);
    }
  }

  // ---- Word by word ----

  /** The codes of a block as a number: a word read two bits at a time. */
  lemma {:induction false} BitsAsCodes(x: seq<bool>, n: nat)
    requires |x| == 2 * n
    ensures FromBits(x) == Num(4, CodesIn(x, n))
    decreases n
  {
    if n == 0 {
    } else {
      hide Mul;
      var rest := x[2..];
      BitsAsCodes(rest, n - 1);
      var ds := BitDigits(x);
      assert ds[1..][1..] == BitDigits(rest);
      assert Num(2, ds) == ds[0] + Mul(2, ds[1] + Mul(2, Num(2, BitDigits(rest))));
      assert CodesIn(x, n)[1..] == CodesIn(rest, n - 1) by {
        forall j: nat | j < n - 1 ensures CodeAt(x, j + 1) == CodeAt(rest, j) {
          assert Bit(x, 2 * (j + 1)) == Bit(rest, 2 * j) && Bit(x, 2 * (j + 1) + 1) == Bit(rest, 2 * j + 1);
        }
      }
      FourIsTwoTwos(Num(2, BitDigits(rest)), ds[0], ds[1]);
      assert CodesIn(x, n)[0] == ds[0] + 2 * ds[1];
    }
  }

  lemma FourIsTwoTwos(n: nat, a: nat, b: nat)
    ensures a + Mul(2, b + Mul(2, n)) == a + 2 * b + Mul(4, n)
  {
  }

  function CodesIn(x: seq<bool>, n: nat): (cs: seq<nat>)
    ensures |cs| == n && forall j :: 0 <= j < n ==> cs[j] == CodeAt(x, j)
  {
    seq<nat>(n, j requires 0 <= j < n => CodeAt(x, j))
  }

  /** The uncut stream. */
  function StreamCodes(key: seq<bool>, from: nat, count: nat): (cs: seq<nat>)
    requires |key| == 64
    ensures |cs| == count
  {
    RegionCodes(key, from + count, from, count)
  }

  lemma StreamCodesAt(key: seq<bool>, from: nat, count: nat)
    requires |key| == 64
    ensures forall i :: 0 <= i < count ==> StreamCodes(key, from, count)[i] == StreamCode(key, from + i)
  {
    hide StreamCode;
  }

  lemma BlockNumber(key: seq<bool>, b: nat)
    requires |key| == 64
    ensures FromBits(BlockRaw(key, b)) == Num(4, StreamCodes(key, 16 * b, 16))
  {
    var x := BlockRaw(key, b);
    StreamCodesAt(key, 16 * b, 16);
    BitsAsCodes(x, 32);
    hide Num, FromBits;
    var codes := CodesIn(x, 32);
    forall j: nat | 16 <= j < 32 ensures codes[j] == 0 {
      UpperClear(Low32(Xor(key, BlockWord(b))), j);
    }
    forall j: nat | j < 16 ensures codes[j] == StreamCode(key, 16 * b + j) {
      assert (16 * b + j) / 16 == b && (16 * b + j) % 16 == j;
    }
    assert codes == StreamCodes(key, 16 * b, 16) + seq(16, _ => 0);
    NumZeros(4, StreamCodes(key, 16 * b, 16), 16);
  }

  lemma UpperClear(x: seq<bool>, j: nat)
    requires |x| == 64 && x[32..] == Zeroes(32) && 16 <= j < 32
    ensures CodeAt(Clean(x), j) == 0
  {
    CleanLane(x, j);
    assert x[2 * j] == x[32..][2 * j - 32] && x[2 * j + 1] == x[32..][2 * j + 1 - 32];
  }

  method WordLanes(fmt: Layout, key: seq<bool>, trits: nat, w: nat) returns (lanes: nat)
    requires |key| == 64
    ensures lanes == Num(4, RegionCodes(key, trits, LanesIn(fmt) * w, LanesIn(fmt)))
  {
    hide Num, Pow, FromBits, BlockRaw, StreamCode;
    var size := LanesIn(fmt);
    var blocks := size / 16;
    lanes := 0;
    assert StreamCodes(key, size * w, 0) == [];
    NumNothing();
    for k := 0 to blocks
      invariant lanes == Num(4, StreamCodes(key, size * w, 16 * k))
    {
      BlockNumber(key, blocks * w + k);
      BlockStart(fmt, w, k);
      NumConcat(4, StreamCodes(key, size * w, 16 * k), StreamCodes(key, size * w + 16 * k, 16));
      StreamCodesAt(key, size * w, 16 * k);
      StreamCodesAt(key, size * w + 16 * k, 16);
      StreamCodesAt(key, size * w, 16 * (k + 1));
      assert StreamCodes(key, size * w, 16 * k) + StreamCodes(key, size * w + 16 * k, 16)
        == StreamCodes(key, size * w, 16 * (k + 1));
      lanes := lanes + Mul(Pow(4, 16 * k), FromBits(BlockRaw(key, blocks * w + k)));
    }
    var keep := if trits <= size * w then 0 else if trits - size * w < size then trits - size * w else size;
    CutLanes(key, trits, size * w, size, keep);
    lanes := lanes % Pow(4, keep);
  }

  lemma NumNothing()
    ensures Num(4, []) == 0
  {
  }

  lemma BlockStart(fmt: Layout, w: nat, k: nat)
    ensures 16 * (LanesIn(fmt) / 16 * w + k) == LanesIn(fmt) * w + 16 * k
  {
  }

  lemma CutLanes(key: seq<bool>, trits: nat, from: nat, size: nat, keep: nat)
    requires |key| == 64
    requires keep == if trits <= from then 0 else if trits - from < size then trits - from else size
    ensures Pow(4, keep) > 0
    ensures Num(4, StreamCodes(key, from, size)) % Pow(4, keep) == Num(4, RegionCodes(key, trits, from, size))
  {
    hide Num, Pow, StreamCode;
    var all := StreamCodes(key, from, size);
    StreamCodesAt(key, from, size);
    StreamBelow(key, from, size);
    NumSplit(4, all, keep);
    NumZeros(4, all[..keep], size - keep);
    assert RegionCodes(key, trits, from, size) == all[..keep] + seq(size - keep, _ => 0);
  }

  lemma StreamBelow(key: seq<bool>, from: nat, count: nat)
    requires |key| == 64
    ensures Below(4, StreamCodes(key, from, count))
  {
    hide StreamCode;
  }

  /** One word's lanes added to the counts, the activation taken from the lane's place in the
      word. */
  method Tally(size: nat, lanes: nat, plus0: nat, minus0: nat, dot0: int, ghost key: seq<bool>, ghost trits: nat,
               ghost from: nat)
    returns (plus: nat, minus: nat, dot: int)
    requires |key| == 64 && from % 8 == 0
    requires lanes == Num(4, RegionCodes(key, trits, from, size))
    requires Tallied(plus0, minus0, dot0, Trits(RegionCodes(key, trits, 0, from)))
    ensures Tallied(plus, minus, dot, Trits(RegionCodes(key, trits, 0, from + size)))
  {
    hide Num, Digit, Count, Dot, RegionCode;
    plus, minus, dot := plus0, minus0, dot0;
    ghost var codes := RegionCodes(key, trits, from, size);
    RegionBelow(key, trits, from, size);
    PackedLanes(codes);
    for j := 0 to size
      invariant Tallied(plus, minus, dot, Trits(RegionCodes(key, trits, 0, from + j)))
    {
      var code := Digit(4, lanes, j);
      assert code == DigitsOf(4, lanes, size)[j] == RegionCode(key, trits, from + j);
      var act := j % 8 + 1;
      assert act == Activation(from + j);
      GrowRegion(key, trits, from + j);
      TallyAppend(Trits(RegionCodes(key, trits, 0, from + j)), 1, TritOfLane(code));
      TallyAppend(Trits(RegionCodes(key, trits, 0, from + j)), -1, TritOfLane(code));
      if code == 1 {
        plus := plus + 1;
        dot := dot + act;
      } else if code == 2 {
        minus := minus + 1;
        dot := dot - act;
      }
    }
  }

  /** Encode one word's lanes and check that they decode. */
  method WordData(fmt: Layout, lanes: nat, ghost codes: seq<nat>) returns (data: nat)
    requires Below(3, codes) && |codes| == LanesIn(fmt) && lanes == Num(4, codes)
    ensures data == Num(256, PackedBytes(fmt, codes))
  {
    hide Num, EncodeWord, LanesOf, BadIn, PackedBytes;
    WordRoundTrip(fmt, codes);
    assert codes[..LanesIn(fmt)] == codes;
    WordIsBytes(fmt, codes);
    data := EncodeWord(fmt, lanes).value;
    var back, bad := DecodeWord(fmt, data);
    assert back == lanes && bad == 0;
  }

  /** The checksum after one more word. */
  lemma ChecksumNext(fmt: Layout, key: seq<bool>, trits: nat, from: nat, data: nat)
    requires |key| == 64 && from % LanesIn(fmt) == 0
    requires data == Num(256, PackedBytes(fmt, RegionCodes(key, trits, from, LanesIn(fmt))))
    ensures StoredChecksum(fmt, key, trits, from + LanesIn(fmt))
      == Xor(RotL(Xor(RotL(StoredChecksum(fmt, key, trits, from), 1), ToBits(data % 0x1_0000_0000_0000_0000, 64)), 1),
             ToBits(data / 0x1_0000_0000_0000_0000, 64))
  {
    hide Num, RegionCode, Xor, RotL, PackedBytes, HalvesOf, ToBits, Checksum;
    var before, added := RegionCodes(key, trits, 0, from), RegionCodes(key, trits, from, LanesIn(fmt));
    assert RegionCodes(key, trits, 0, from + LanesIn(fmt)) == before + added;
    RegionBelow(key, trits, from, LanesIn(fmt));
    WordIsBytes(fmt, added);
    WholeBytes(fmt, before);
    BytesConcat(fmt, before, added);
    HalvesConcat(PackedBytes(fmt, before), PackedBytes(fmt, added));
    HalvesOfWord(PackedBytes(fmt, added));
    ChecksumTwo(HalvesOf(PackedBytes(fmt, before)), ToBits(data % 0x1_0000_0000_0000_0000, 64),
                ToBits(data / 0x1_0000_0000_0000_0000, 64));
  }

  lemma ChecksumTwo(hs: seq<seq<bool>>, a: seq<bool>, b: seq<bool>)
    requires Words(hs) && |a| == |b| == 64
    ensures Words(hs + [a, b])
    ensures Checksum(hs + [a, b]) == Xor(RotL(Xor(RotL(Checksum(hs), 1), a), 1), b)
  {
    hide Xor, RotL, Checksum;
    ChecksumNextWord(hs, a);
    ChecksumNextWord(hs + [a], b);
    assert hs + [a, b] == hs + [a] + [b];
  }

  lemma ChecksumNextWord(hs: seq<seq<bool>>, a: seq<bool>)
    requires Words(hs) && |a| == 64
    ensures Words(hs + [a]) && Checksum(hs + [a]) == Xor(RotL(Checksum(hs), 1), a)
  {
    hide Xor, RotL;
    assert (hs + [a])[..|hs|] == hs;
  }

  /** Whole words of lanes make whole words of bytes. */
  lemma {:induction false} WholeBytes(fmt: Layout, codes: seq<nat>)
    requires |codes| % LanesIn(fmt) == 0
    ensures |codes| % PerByte(fmt) == 0 && |PackedBytes(fmt, codes)| % 8 == 0
  {
    ByteCount(fmt, codes);
    WordShape(fmt, |codes|);
  }

  lemma WordShape(fmt: Layout, n: nat)
    requires n % LanesIn(fmt) == 0
    ensures n % PerByte(fmt) == 0 && n / PerByte(fmt) % 8 == 0 && n % 8 == 0
  {
    match fmt
    case Baseline2 => SixteenBytes(n, n / 64, 4);
    case Dense5 => SixteenBytes(n, n / 80, 5);
  }

  lemma SixteenBytes(n: nat, words: nat, perByte: nat)
    requires perByte > 0 && n == 16 * words * perByte
    ensures n % perByte == 0 && n / perByte % 8 == 0 && n % 8 == 0
  {
    MultipleOf(n, perByte, 16 * words);
    MultipleOf(16 * words, 8, 2 * words);
    assert n == 2 * words * perByte * 8;
    MultipleOf(n, 8, 2 * words * perByte);
  }

  lemma {:induction false} ByteCount(fmt: Layout, codes: seq<nat>)
    ensures |PackedBytes(fmt, codes)| == |codes| / PerByte(fmt)
    decreases |codes|
  {
    hide Num, GroupCode;
    if |codes| >= PerByte(fmt) {
      ByteCount(fmt, codes[PerByte(fmt)..]);
    }
  }

  method RunResults(fmt: Layout, key: seq<bool>, trits: nat) returns (r: Report)
    requires |key| == 64
    ensures r == Expected(fmt, key, trits)
  {
    hide Num, RegionCode, Xor, RotL, StoredChecksum, PackedBytes, Tallied, Summary, WordsOf;
    var size := LanesIn(fmt);
    var words := WordsOf(fmt, trits);
    var plus: nat, minus: nat, dot: int, chk, from := 0, 0, 0, Zeroes(64), 0;
    NothingRead(fmt, key, trits);
    for w := 0 to words
      invariant |chk| == 64 && from == size * w
      invariant Tallied(plus, minus, dot, Trits(RegionCodes(key, trits, 0, from)))
      invariant chk == StoredChecksum(fmt, key, trits, from)
    {
      var lanes := WordLanes(fmt, key, trits, w);
      RegionBelow(key, trits, from, size);
      var data := WordData(fmt, lanes, RegionCodes(key, trits, from, size));
      WordStart(fmt, w);
      plus, minus, dot := Tally(size, lanes, plus, minus, dot, key, trits, from);
      ChecksumNext(fmt, key, trits, from, data);
      chk := Xor(RotL(chk, 1), ToBits(data % 0x1_0000_0000_0000_0000, 64));
      chk := Xor(RotL(chk, 1), ToBits(data / 0x1_0000_0000_0000_0000, 64));
      from := from + size;
    }
    Reported(fmt, key, trits, plus, minus, dot);
    r := Summary(fmt, trits, plus, minus, dot, chk);
  }

  lemma WordStart(fmt: Layout, w: nat)
    ensures LanesIn(fmt) * w % 8 == 0 && LanesIn(fmt) * w % LanesIn(fmt) == 0
    ensures LanesIn(fmt) * (w + 1) == LanesIn(fmt) * w + LanesIn(fmt)
  {
    match fmt
    case Baseline2 =>
      MultipleOf(64 * w, 8, 8 * w);
      MultipleOf(64 * w, 64, w);
    case Dense5 =>
      MultipleOf(80 * w, 8, 10 * w);
      MultipleOf(80 * w, 80, w);
  }

  lemma NothingRead(fmt: Layout, key: seq<bool>, trits: nat)
    requires |key| == 64
    ensures Tallied(0, 0, 0, Trits(RegionCodes(key, trits, 0, 0)))
    ensures StoredChecksum(fmt, key, trits, 0) == Zeroes(64)
  {
    assert PackedBytes(fmt, []) == [];
  }

  lemma Reported(fmt: Layout, key: seq<bool>, trits: nat, plus: nat, minus: nat, dot: int)
    requires |key| == 64
    requires Tallied(plus, minus, dot, Trits(RegionCodes(key, trits, 0, Total(fmt, trits))))
    ensures Tallied(plus, minus, dot, RegionTrits(key, trits))
    ensures Summary(fmt, trits, plus, minus, dot, StoredChecksum(fmt, key, trits, Total(fmt, trits)))
      == Expected(fmt, key, trits)
  {
    hide Count, Dot, StoredChecksum, Total, Summary, RegionCodes;
    TotalCovers(fmt, trits);
    PaddingCountsNothing(key, trits, Total(fmt, trits));
  }

  lemma CeilDivLeast(n: nat, d: nat)
    requires d > 0
    ensures n <= Mul(CeilDiv(n, d), d) < n + d
  {
    var m := n + d - 1;
    assert m == m / d * d + m % d;
  }

  /** The sizes in a report: the least number of words for the trits, sixteen bytes each, the least
      number of bytes for the trits, and what is left of the last word. */
  lemma SizesReported(fmt: Layout, key: seq<bool>, trits: nat)
    requires |key| == 64
    ensures var r := Expected(fmt, key, trits);
      && trits <= r.words * LanesIn(fmt) < trits + LanesIn(fmt) && r.busBytes == 16 * r.words
      && trits <= r.payloadBytes * PerByte(fmt) < trits + PerByte(fmt)
      && r.paddingBytes == r.busBytes - r.payloadBytes && 0 <= r.paddingBytes < 16
  {
    hide StoredChecksum, Count, Dot, RegionTrits, CeilDiv;
    CeilDivLeast(trits, LanesIn(fmt));
    CeilDivLeast(trits, PerByte(fmt));
  }
}
