/** The bytes that decode as UTF-8 are exactly the encodings of lists of characters (RFC 3629, sections
    3 and 4). */
module GgufUtf8 {
  import opened GgufBytes

  /** A character: any code point but the surrogates. */
  predicate Character(c: nat) {
    c < 0xD800 || 0xE000 <= c <= 0x10FFFF
  }

  ghost predicate Characters(cs: seq<nat>) {
    forall i :: 0 <= i < |cs| ==> Character(cs[i])
  }

  /** The shortest form of a character: six bits in each byte after the first. */
  function Encoded(c: nat): seq<nat> {
    if c < 0x80 then [c]
    else if c < 0x800 then [0xC0 + c / 0x40, 0x80 + c % 0x40]
    else if c < 0x1_0000 then [0xE0 + c / 0x1000, 0x80 + c / 0x40 % 0x40, 0x80 + c % 0x40]
    else [0xF0 + c / 0x4_0000, 0x80 + c / 0x1000 % 0x40, 0x80 + c / 0x40 % 0x40, 0x80 + c % 0x40]
  }

  function EncodedAll(cs: seq<nat>): seq<nat> {
    if cs == [] then [] else Encoded(cs[0]) + EncodedAll(cs[1..])
  }

  /** An encoded character is read whole, whatever follows it. */
  lemma LengthOfEncoded(c: nat, rest: seq<nat>)
    requires Character(c)
    ensures Encoded(c) != [] && CharLength(Encoded(c) + rest) == |Encoded(c)|
  {
    if c < 0x80 {
      assert (Encoded(c) + rest)[0] == c;
    } else if c < 0x800 {
      LengthTwo(0xC0 + c / 0x40, 0x80 + c % 0x40, rest);
    } else if c < 0x1_0000 {
      RangeThree(c);
      LengthThree(0xE0 + c / 0x1000, 0x80 + c / 0x40 % 0x40, 0x80 + c % 0x40, rest);
    } else {
      RangeFour(c);
      LengthFour(0xF0 + c / 0x4_0000, 0x80 + c / 0x1000 % 0x40, 0x80 + c / 0x40 % 0x40, 0x80 + c % 0x40, rest);
    }
  }

  lemma RangeThree(c: nat)
    requires 0x800 <= c < 0x1_0000 && Character(c)
    ensures 0xE0 <= 0xE0 + c / 0x1000 <= 0xEF
    ensures c / 0x1000 == 0 ==> 0x80 + c / 0x40 % 0x40 >= 0xA0
    ensures c / 0x1000 == 0xD ==> 0x80 + c / 0x40 % 0x40 <= 0x9F
  {
  }

  lemma RangeFour(c: nat)
    requires 0x1_0000 <= c <= 0x10FFFF
    ensures 0xF0 <= 0xF0 + c / 0x4_0000 <= 0xF4
    ensures c / 0x4_0000 == 0 ==> 0x80 + c / 0x1000 % 0x40 >= 0x90
    ensures c / 0x4_0000 == 4 ==> 0x80 + c / 0x1000 % 0x40 <= 0x8F
  {
  }

  lemma LengthTwo(a: nat, b: nat, rest: seq<nat>)
    requires 0xC2 <= a <= 0xDF && 0x80 <= b <= 0xBF
    ensures CharLength([a, b] + rest) == 2
  {
  }

  lemma LengthThree(a: nat, b: nat, d: nat, rest: seq<nat>)
    requires 0xE0 <= a <= 0xEF && 0x80 <= b <= 0xBF && 0x80 <= d <= 0xBF
    requires (a == 0xE0 ==> b >= 0xA0) && (a == 0xED ==> b <= 0x9F)
    ensures CharLength([a, b, d] + rest) == 3
  {
  }

  lemma LengthFour(a: nat, b: nat, d: nat, e: nat, rest: seq<nat>)
    requires 0xF0 <= a <= 0xF4 && 0x80 <= b <= 0xBF && 0x80 <= d <= 0xBF && 0x80 <= e <= 0xBF
    requires (a == 0xF0 ==> b >= 0x90) && (a == 0xF4 ==> b <= 0x8F)
    ensures CharLength([a, b, d, e] + rest) == 4
  {
  }

  /** Whatever is read as a character is the encoding of one. */
  lemma CharacterRead(bytes: seq<nat>) returns (c: nat)
    requires bytes != [] && CharLength(bytes) > 0
    ensures Character(c) && bytes[..CharLength(bytes)] == Encoded(c)
  {
    var n := CharLength(bytes);
    if n == 1 {
      c := bytes[0];
    } else if n == 2 {
      c := TwoBytes(bytes[0], bytes[1]);
    } else if n == 3 {
      c := ThreeBytes(bytes[0], bytes[1], bytes[2]);
    } else {
      c := FourBytes(bytes[0], bytes[1], bytes[2], bytes[3]);
    }
  }

  lemma TwoBytes(a: nat, b: nat) returns (c: nat)
    requires 0xC2 <= a <= 0xDF && 0x80 <= b <= 0xBF
    ensures Character(c) && Encoded(c) == [a, b]
  {
    c := (a - 0xC0) * 0x40 + (b - 0x80);
  }

  lemma ThreeBytes(a: nat, b: nat, d: nat) returns (c: nat)
    requires 0xE0 <= a <= 0xEF && 0x80 <= b <= 0xBF && 0x80 <= d <= 0xBF
    requires (a == 0xE0 ==> b >= 0xA0) && (a == 0xED ==> b <= 0x9F)
    ensures Character(c) && Encoded(c) == [a, b, d]
  {
    c := (a - 0xE0) * 0x1000 + (b - 0x80) * 0x40 + (d - 0x80);
    assert c / 0x40 == (a - 0xE0) * 0x40 + (b - 0x80);
  }

  lemma FourBytes(a: nat, b: nat, d: nat, e: nat) returns (c: nat)
    requires 0xF0 <= a <= 0xF4 && 0x80 <= b <= 0xBF && 0x80 <= d <= 0xBF && 0x80 <= e <= 0xBF
    requires (a == 0xF0 ==> b >= 0x90) && (a == 0xF4 ==> b <= 0x8F)
    ensures Character(c) && Encoded(c) == [a, b, d, e]
  {
    c := (a - 0xF0) * 0x4_0000 + (b - 0x80) * 0x1000 + (d - 0x80) * 0x40 + (e - 0x80);
    assert c / 0x40 == (a - 0xF0) * 0x1000 + (b - 0x80) * 0x40 + (d - 0x80);
    assert c / 0x1000 == (a - 0xF0) * 0x40 + (b - 0x80);
  }

  lemma {:induction false} EncodedDecodes(cs: seq<nat>)
    requires Characters(cs)
    ensures Utf8(EncodedAll(cs))
  {
    hide CharLength, Encoded;
    if cs == [] {
    } else {
      var rest := EncodedAll(cs[1..]);
      LengthOfEncoded(cs[0], rest);
      assert (Encoded(cs[0]) + rest)[|Encoded(cs[0])|..] == rest;
      EncodedDecodes(cs[1..]);
    }
  }

  lemma {:induction false} DecodedIsEncoded(bytes: seq<nat>) returns (cs: seq<nat>)
    requires Utf8(bytes)
    ensures Characters(cs) && EncodedAll(cs) == bytes
    decreases |bytes|
  {
    hide CharLength, Encoded;
    if bytes == [] {
      cs := [];
    } else {
      var n := CharLength(bytes);
      var c := CharacterRead(bytes);
      var rest := DecodedIsEncoded(bytes[n..]);
      cs := [c] + rest;
      assert cs[1..] == rest && bytes == bytes[..n] + bytes[n..];
    }
  }

  /** Bytes are UTF-8 exactly when they are the encoding of some characters. */
  lemma Utf8Exactly(bytes: seq<nat>)
    ensures Utf8(bytes) <==> exists cs :: Characters(cs) && EncodedAll(cs) == bytes
  {
    hide Utf8, EncodedAll;
    if Utf8(bytes) {
      var cs := DecodedIsEncoded(bytes);
    }
    forall cs | Characters(cs) ensures Utf8(EncodedAll(cs)) {
      EncodedDecodes(cs);
    }
  }
}
