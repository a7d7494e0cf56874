/** The block-RAM trit packing experiment: three 36-bit word formats, the paired format of the
    read-only store, and what one engine reports. */
module BramTrit {
  import opened Results
  import opened Digits
  import opened TritCodec

  datatype Format = B2 | D5 | D5D2

  function Lanes(fmt: Format): nat {
    match fmt
    case B2 => 18
    case D5 => 20
    case D5D2 => 22
  }

  /** The stored word of a packed lane list; None where a base-three digit is looked up for the
      lane code 3. */
  function EncodeWord(fmt: Format, lanes: nat): Option<nat> {
    if fmt == B2 then Some(lanes % 0x10_0000_0000) else
      var codes := DigitsOf(4, lanes, Lanes(fmt));
      if !Below(3, codes) then None else
        var low := Num(256, DenseBytes(codes[..20]));
        Some(if fmt == D5 then low else low + 0x1_0000_0000 * GroupCode(codes[20..22]))
  }

  // ---- Decoding ----

  function WordBytes(word: nat): (bytes: seq<nat>)
    ensures |bytes| == 4
  {
    DigitsOf(256, word, 4)
  }

  function Nibble(word: nat): nat {
    word / 0x1_0000_0000 % 16
  }

  /** The lanes of a 36-bit word. */
  function LanesOf(fmt: Format, word: nat): (codes: seq<nat>)
    ensures |codes| == Lanes(fmt)
  {
    match fmt
    case B2 => ClearedAll(DigitsOf(4, word, 18))
    case D5 => DenseLanes(WordBytes(word))
    case D5D2 => DenseLanes(WordBytes(word)) + GroupLanes(Nibble(word), 2)
  }

  /** How many groups of a 36-bit word are not codes. */
  function BadIn(fmt: Format, word: nat): nat {
    match fmt
    case B2 => BadLanes(DigitsOf(4, word, 18))
    case D5 => BadBytes(WordBytes(word))
    case D5D2 => BadBytes(WordBytes(word)) + if Nibble(word) < 9 then 0 else 1
  }

  /** decode_word: the packed lanes and the invalid groups, as the device decoder reports them. */
  method DecodeWord(fmt: Format, stored: nat) returns (lanes: nat, bad: nat)
    ensures lanes == Num(4, LanesOf(fmt, stored % 0x10_0000_0000))
    ensures bad == BadIn(fmt, stored % 0x10_0000_0000)
  {
    var word := stored % 0x10_0000_0000;
    if fmt == B2 {
      lanes, bad := DecodePairsOfBits(word, 18);
    } else {
      lanes, bad := DecodeBytes(word, 4);
      if fmt == D5D2 {
        hide DenseLanes, Num, Digit;
        Pow4At20();
        hide Pow;
        var nib := word / 0x1_0000_0000 % 16;
        if nib < 9 {
          TwoLanes(DenseLanes(WordBytes(word)), nib);
          lanes := lanes + LaneOfDigit(nib % 3) * 0x100_0000_0000;
          lanes := lanes + LaneOfDigit(nib / 3 % 3) * 0x400_0000_0000;
        } else {
          NoLanes(DenseLanes(WordBytes(word)), nib, 2);
          bad := bad + 1;
        }
      }
    }
  }

  lemma Pow4At20()
    ensures Pow(4, 20) == 0x100_0000_0000 && Pow(4, 21) == 0x400_0000_0000 && Pow(3, 2) == 9
  {
    assert Pow(4, 5) == 1024;
    PowAdd(4, 5, 5);
    PowAdd(4, 10, 10);
    assert Pow(4, 1) == 4;
    PowAdd(4, 20, 1);
  }

  lemma TwoLanes(prefix: seq<nat>, nib: nat)
    requires |prefix| == 20 && nib < 9
    ensures Num(4, prefix + GroupLanes(nib, 2))
      == Num(4, prefix) + LaneOfDigit(nib % 3) * 0x100_0000_0000 + LaneOfDigit(nib / 3 % 3) * 0x400_0000_0000
  {
    Pow4At20();
    hide Num, Pow;
    var d, e := LaneOfDigit(nib % 3), LaneOfDigit(nib / 3 % 3);
    assert Digit(3, nib, 0) == nib % 3 && Digit(3, nib, 1) == Digit(3, nib / 3, 0);
    hide Digit;
    NumAppend(4, prefix, d);
    NumAppend(4, prefix + [d], e);
    assert prefix + [d] + [e] == prefix + GroupLanes(nib, 2);
  }

  // ---- Round trips ----

  ghost predicate ValidLanes(fmt: Format, codes: seq<nat>) {
    |codes| == Lanes(fmt) && Below(3, codes)
  }

  lemma Pow256()
    ensures Pow(256, 4) == 0x1_0000_0000 && Pow(4, 18) == 0x10_0000_0000
  {
    Pow4At20();
    assert Pow(4, 2) == 16;
    PowAdd(4, 18, 2);
  }

  /** Every list of valid lanes has a stored word of 36 bits, which decodes to it with no invalid
      group: the asserts inside the engine and the store never fail. */
  lemma {:induction false} RoundTrip(fmt: Format, codes: seq<nat>)
    requires ValidLanes(fmt, codes)
    ensures EncodeWord(fmt, Num(4, codes)).Some?
    ensures var word := EncodeWord(fmt, Num(4, codes)).value;
      word < 0x10_0000_0000 && LanesOf(fmt, word) == codes && BadIn(fmt, word) == 0
  {
    hide Num, Digit, DenseBytes, DenseLanes, BadBytes, BadLanes, GroupCode, GroupLanes, Pow;
    PackedLanes(codes);
    var n := Num(4, codes);
    if fmt == B2 {
      BelowWider(3, 4, codes);
      NumBound(4, codes);
      Pow256();
      NoBadLanes(codes);
    } else {
      BelowParts(3, codes, 20);
      var low := codes[..20];
      DenseRoundTrip(low);
      NoBadBytes(DenseBytes(low));
      if fmt == D5 {
        assert codes[..20] == codes;
        DenseWord(DenseBytes(low), 0);
      } else {
        assert codes[20..22] == codes[20..];
        GroupRoundTrip(codes[20..22]);
        Pow4At20();
        DenseWord(DenseBytes(low), GroupCode(codes[20..22]));
        assert codes == low + codes[20..22];
      }
    }
  }

  /** Four bytes and a nibble above them are read back from the word they make. */
  lemma DenseWord(bytes: seq<nat>, nib: nat)
    requires |bytes| == 4 && Below(243, bytes) && nib < 16
    ensures var word := Num(256, bytes) + 0x1_0000_0000 * nib;
      word < 0x10_0000_0000 && WordBytes(word) == bytes && Nibble(word) == nib
  {
    hide Num, Digit, Pow;
    BelowWider(243, 256, bytes);
    var all := bytes + [nib];
    BelowWider(16, 256, [nib]);
    BelowConcat(256, bytes, [nib]);
    NumAppend(256, bytes, nib);
    Pow256();
    NumBound(256, bytes);
    var word := Num(256, bytes) + 0x1_0000_0000 * nib;
    assert word == Num(256, all);
    forall i: nat | i < 4 ensures Digit(256, word, i) == bytes[i] {
      DigitOfNum(256, all, i);
    }
  }

  /** The part of a 36-bit word its format uses: dense5 alone leaves the top nibble unread. */
  function Used(fmt: Format, word: nat): nat {
    if fmt == D5 then word % 0x1_0000_0000 else word
  }

  /** A word with no invalid group is the encoding of what it decodes to, so the format has
      exactly one valid word for each lane list. */
  lemma {:induction false} RoundTripBack(fmt: Format, word: nat)
    requires word < 0x10_0000_0000 && BadIn(fmt, word) == 0
    ensures ValidLanes(fmt, LanesOf(fmt, word))
    ensures EncodeWord(fmt, Num(4, LanesOf(fmt, word))) == Some(Used(fmt, word))
  {
    hide Num, Digit, DenseBytes, DenseLanes, BadBytes, BadLanes, GroupCode, GroupLanes, Pow;
    var codes := LanesOf(fmt, word);
    Pow256();
    if fmt == B2 {
      NumOfDigits(4, word, 18);
      NoBadLanes(DigitsOf(4, word, 18));
    } else {
      var bytes := WordBytes(word);
      NoBadBytes(bytes);
      DenseBack(bytes);
      DenseBelow(bytes);
      LowBytes(word);
      assert codes[..20] == DenseLanes(bytes);
      if fmt == D5D2 {
        Pow4At20();
        GroupBack(Nibble(word), 2);
        BelowConcat(3, DenseLanes(bytes), GroupLanes(Nibble(word), 2));
        assert codes[20..22] == GroupLanes(Nibble(word), 2);
      }
      PackedLanes(codes);
    }
  }

  lemma LowBytes(word: nat)
    requires word < 0x10_0000_0000
    ensures Num(256, WordBytes(word)) == word % 0x1_0000_0000
    ensures word == word % 0x1_0000_0000 + 0x1_0000_0000 * Nibble(word)
  {
    hide Num, Digit, Pow;
    var low, high := word % 0x1_0000_0000, word / 0x1_0000_0000;
    Pow256();
    NumOfDigits(256, low, 4);
    BelowWider(16, 256, [high]);
    var all := DigitsOf(256, low, 4) + [high];
    BelowConcat(256, DigitsOf(256, low, 4), [high]);
    NumAppend(256, DigitsOf(256, low, 4), high);
    assert word == Num(256, all);
    forall i: nat | i < 4 ensures Digit(256, word, i) == Digit(256, low, i) {
      DigitOfNum(256, all, i);
    }
    assert WordBytes(word) == DigitsOf(256, low, 4);
  }

  /** Encoding fails exactly where a base-three format looks up the digit of a lane code 3. */
  lemma EncodeFails(fmt: Format, lanes: nat)
    ensures EncodeWord(fmt, lanes).None?
      <==> fmt != B2 && exists i: nat :: i < Lanes(fmt) && Digit(4, lanes, i) == 3
  {
    hide Digit, DenseBytes, GroupCode;
    CodesValid(lanes, Lanes(fmt));
  }
}
