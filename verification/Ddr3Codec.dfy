/** The two payload layouts of the DDR3 trit store: a 128-bit word of 64 two-bit lanes, or of 16
    dense5 bytes holding 80 trits. */
module Ddr3Codec {
  import opened Arithmetic
  import opened Results
  import opened Digits
  import opened TritCodec

  datatype Layout = Baseline2 | Dense5

  function LanesIn(fmt: Layout): nat {
    match fmt
    case Baseline2 => 64
    case Dense5 => 80
  }

  /** The bytes of a word's lanes, byte 0 lowest. */
  function PackedBytes(fmt: Layout, codes: seq<nat>): seq<nat> {
    match fmt
    case Baseline2 => CodeBytes(codes)
    case Dense5 => DenseBytes(codes)
  }

  /** Four lane codes a byte. */
  function CodeBytes(codes: seq<nat>): seq<nat> {
    if |codes| < 4 then [] else [Num(4, codes[..4])] + CodeBytes(codes[4..])
  }

  /** The 128-bit word of packed lanes; None where a base-three digit is looked up for the lane
      code 3. */
  function EncodeWord(fmt: Layout, lanes: nat): Option<nat> {
    match fmt
    case Baseline2 => Some(lanes % 0x1_0000_0000_0000_0000_0000_0000_0000_0000)
    case Dense5 =>
      var codes := DigitsOf(4, lanes, 80);
      if Below(3, codes) then Some(Num(256, DenseBytes(codes))) else None
  }

  function LanesOf(fmt: Layout, word: nat): seq<nat> {
    match fmt
    case Baseline2 => ClearedAll(DigitsOf(4, word, 64))
    case Dense5 => DenseLanes(DigitsOf(256, word, 16))
  }

  function BadIn(fmt: Layout, word: nat): nat {
    match fmt
    case Baseline2 => BadLanes(DigitsOf(4, word, 64))
    case Dense5 => BadBytes(DigitsOf(256, word, 16))
  }

  method DecodeWord(fmt: Layout, word: nat) returns (lanes: nat, bad: nat)
    ensures lanes == Num(4, LanesOf(fmt, word)) && bad == BadIn(fmt, word)
  {
    match fmt
    case Baseline2 => lanes, bad := DecodePairsOfBits(word, 64);
    case Dense5 => lanes, bad := DecodeBytes(word, 16);
  }

  lemma Pow128()
    ensures Pow(4, 64) == 0x1_0000_0000_0000_0000_0000_0000_0000_0000 == Pow(256, 16)
    ensures Pow(4, 32) == 0x1_0000_0000_0000_0000 == Pow(256, 8)
  {
    assert Pow(4, 4) == 256;
    PowAdd(4, 4, 4);
    PowAdd(4, 8, 8);
    PowAdd(4, 16, 16);
    PowAdd(4, 32, 32);
    assert Pow(256, 2) == 0x1_0000;
    PowAdd(256, 2, 2);
    PowAdd(256, 4, 4);
    PowAdd(256, 8, 8);
  }

  /** Valid lanes are decoded from their word, with no invalid group. Baseline2 keeps only the
      first 64 of the lanes it is given. */
  lemma {:induction false} WordRoundTrip(fmt: Layout, codes: seq<nat>)
    requires Below(3, codes) && |codes| >= LanesIn(fmt) && (fmt == Dense5 ==> |codes| == 80)
    ensures EncodeWord(fmt, Num(4, codes)).Some?
    ensures var word := EncodeWord(fmt, Num(4, codes)).value;
      && word < 0x1_0000_0000_0000_0000_0000_0000_0000_0000
      && LanesOf(fmt, word) == codes[..LanesIn(fmt)] && BadIn(fmt, word) == 0
  {
    hide Num, Digit, DenseBytes, DenseLanes, BadBytes, BadLanes, Pow;
    Pow128();
    if fmt == Baseline2 {
      BelowWider(3, 4, codes);
      NumSplit(4, codes, 64);
      BelowParts(3, codes, 64);
      PackedLanes(codes[..64]);
      BelowParts(4, codes, 64);
      NoBadLanes(codes[..64]);
    } else {
      PackedLanes(codes);
      DenseRoundTrip(codes);
      var bytes := DenseBytes(codes);
      NoBadBytes(bytes);
      BelowWider(243, 256, bytes);
      NumBound(256, bytes);
      DigitsOfNum(256, bytes);
      assert codes[..80] == codes;
    }
  }

  /** A word with no invalid group is the encoding of its lanes. */
  lemma {:induction false} WordRoundTripBack(fmt: Layout, word: nat)
    requires word < 0x1_0000_0000_0000_0000_0000_0000_0000_0000 && BadIn(fmt, word) == 0
    ensures EncodeWord(fmt, Num(4, LanesOf(fmt, word))) == Some(word)
  {
    hide Num, Digit, DenseBytes, DenseLanes, BadBytes, BadLanes, Pow;
    Pow128();
    if fmt == Baseline2 {
      NumOfDigits(4, word, 64);
      NoBadLanes(DigitsOf(4, word, 64));
    } else {
      var bytes := DigitsOf(256, word, 16);
      NumOfDigits(256, word, 16);
      NoBadBytes(bytes);
      DenseBack(bytes);
      DenseBelow(bytes);
      PackedLanes(DenseLanes(bytes));
    }
  }

  /** The stored word of either layout is the number its bytes make. */
  lemma {:induction false} WordIsBytes(fmt: Layout, codes: seq<nat>)
    requires Below(3, codes) && |codes| == LanesIn(fmt)
    ensures EncodeWord(fmt, Num(4, codes)) == Some(Num(256, PackedBytes(fmt, codes)))
    ensures |PackedBytes(fmt, codes)| == 16 && Below(256, PackedBytes(fmt, codes))
  {
    hide Num, Digit, DenseBytes, CodeBytes, Pow;
    BelowWider(3, 4, codes);
    if fmt == Baseline2 {
      CodeBytesWord(codes);
      NumBound(4, codes);
      Pow128();
    } else {
      PackedLanes(codes);
      DenseRoundTrip(codes);
      BelowWider(243, 256, DenseBytes(codes));
    }
  }

  lemma {:induction false} CodeBytesWord(codes: seq<nat>)
    requires Below(4, codes) && |codes| % 4 == 0
    ensures Num(256, CodeBytes(codes)) == Num(4, codes)
    ensures |CodeBytes(codes)| == |codes| / 4 && Below(256, CodeBytes(codes))
    decreases |codes|
  {
    if codes == [] {
    } else {
      assert Pow(4, 4) == 256;
      hide Pow;
      BelowParts(4, codes, 4);
      CodeBytesWord(codes[4..]);
      NumBound(4, codes[..4]);
      NumConcat(4, codes[..4], codes[4..]);
      assert codes[..4] + codes[4..] == codes;
      assert CodeBytes(codes)[1..] == CodeBytes(codes[4..]);
      NumCons(256, CodeBytes(codes));
      hide Num;
    }
  }

  lemma NumCons(b: nat, ds: seq<nat>)
    requires ds != []
    ensures Num(b, ds) == ds[0] + Mul(b, Num(b, ds[1..]))
  {
  }

  /** Encoding fails exactly where dense5 looks up the digit of a lane code 3. */
  lemma EncodeFails(fmt: Layout, lanes: nat)
    ensures EncodeWord(fmt, lanes).None? <==> fmt == Dense5 && exists i: nat :: i < 80 && Digit(4, lanes, i) == 3
  {
    hide Digit, DenseBytes;
    CodesValid(lanes, 80);
  }
}
