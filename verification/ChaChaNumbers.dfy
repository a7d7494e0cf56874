/** The ChaCha20 block on 32-bit integers: the quarter round, the order of the rounds and the layout of
    the state and the block (RFC 8439, sections 2.1 to 2.3). */
module ChaChaNumbers {
  import opened Arithmetic
  import opened Digits
  import opened Bitwise
  import opened Bits
  import opened WordNumbers
  import opened ChaCha

  /** (x << n) | (x >> (32 - n)) within 32 bits. */
  function RotOf(x: nat, n: nat): nat
    requires n <= 32
  {
    PositivePow(32 - n);
    hide Pow, Mul;
    Mul(x, Pow(2, n)) % 0x1_0000_0000 + x / Pow(2, 32 - n)
  }

  function Sum32(a: nat, b: nat): nat {
    (a + b) % 0x1_0000_0000
  }

  lemma PlusNumber(a: seq<bool>, b: seq<bool>)
    ensures FromBits(Plus(a, b)) == Sum32(FromBits(a), FromBits(b))
  {
    hide FromBits;
    NumberOf(FromBits(a) + FromBits(b));
  }

  lemma XorWideNumber(a: seq<bool>, b: seq<bool>)
    requires |a| == |b|
    ensures FromBits(XorWide(a, b)) == BitXor(FromBits(a), FromBits(b))
  {
    hide FromBits, BitXor;
    assert XorWide(a, b) == Xor(a, b);
    XorNumber(a, b);
  }

  lemma RotlNumber(w: seq<bool>, n: nat)
    requires |w| == 32 && n <= 32
    ensures FromBits(Rotl(w, n)) == RotOf(FromBits(w), n)
  {
    hide FromBits, Pow, Mul;
    var k := 32 - n;
    assert Rotl(w, n) == w[k..] + w[..k];
    PartsNumber(w, k);
    ConcatNumber(w[k..], w[..k]);
    PowAdd(2, k, n);
    Pow2To32();
    PositivePow(n);
    ShiftedResidue(FromBits(w), Pow(2, k), Pow(2, n));
  }

  /** One addition, xor and rotation on integers. */
  lemma TurnNumber(x: seq<seq<bool>>, a: nat, b: nat, d: nat, n: nat)
    requires Words32(x) && a < |x| && b < |x| && d < |x| && a != d && n <= 32
    ensures var y := Turn(x, a, b, d, n);
      && |y| == |x| && Words32(y)
      && FromBits(y[a]) == Sum32(FromBits(x[a]), FromBits(x[b]))
      && FromBits(y[d]) == RotOf(BitXor(FromBits(x[d]), FromBits(y[a])), n)
      && forall i :: 0 <= i < |x| && i != a && i != d ==> y[i] == x[i]
  {
    hide FromBits, Plus, XorWide, Rotl, RotOf, Sum32, BitXor;
    PlusNumber(x[a], x[b]);
    XorWideNumber(x[d], Plus(x[a], x[b]));
    RotlNumber(XorWide(x[d], Plus(x[a], x[b])), n);
  }

  /** The quarter round of RFC 8439, section 2.1, on four integers. */
  function QuarterOf(a: nat, b: nat, c: nat, d: nat): (nat, nat, nat, nat) {
    var a1 := Sum32(a, b);
    var d1 := RotOf(BitXor(d, a1), 16);
    var c1 := Sum32(c, d1);
    var b1 := RotOf(BitXor(b, c1), 12);
    var a2 := Sum32(a1, b1);
    var d2 := RotOf(BitXor(d1, a2), 8);
    var c2 := Sum32(c1, d2);
    var b2 := RotOf(BitXor(b1, c2), 7);
    (a2, b2, c2, d2)
  }

  /** A quarter round of the state is that of its four numbers, the other twelve untouched. */
  lemma QuarterNumbers(x: seq<seq<bool>>, q: Four)
    requires Words32(x) && |x| == 16 && Distinct(q)
    ensures var y := Quarter(x, q);
      && (FromBits(y[q.0]), FromBits(y[q.1]), FromBits(y[q.2]), FromBits(y[q.3]))
         == QuarterOf(FromBits(x[q.0]), FromBits(x[q.1]), FromBits(x[q.2]), FromBits(x[q.3]))
      && forall i :: 0 <= i < 16 && i != q.0 && i != q.1 && i != q.2 && i != q.3 ==> y[i] == x[i]
  {
    hide FromBits, Turn, RotOf, Sum32, BitXor, Words32;
    var t1 := Turn(x, q.0, q.1, q.3, 16);
    var t2 := Turn(t1, q.2, q.3, q.1, 12);
    var t3 := Turn(t2, q.0, q.1, q.3, 8);
    TurnNumber(x, q.0, q.1, q.3, 16);
    TurnNumber(t1, q.2, q.3, q.1, 12);
    TurnNumber(t2, q.0, q.1, q.3, 8);
    TurnNumber(t3, q.2, q.3, q.1, 7);
  }

  /** Of every eight quarter rounds the first four take the columns of the four-by-four state and the
      last four its diagonals. */
  lemma ColumnsAndDiagonals(double: nat, k: nat)
    requires k < 4
    ensures QuarterAt(8 * double + k) == (k, k + 4, k + 8, k + 12)
    ensures QuarterAt(8 * double + 4 + k) == (k, 4 + (k + 1) % 4, 8 + (k + 2) % 4, 12 + (k + 3) % 4)
  {
    WhichQuarter(double, k);
    WhichQuarter(double, 4 + k);
  }

  // ---- Layout ----

  lemma {:induction false} LeWordsAt(bytes: seq<nat>, i: nat)
    requires 4 * i + 4 <= |bytes|
    ensures i < |LeWords(bytes)| && LeWords(bytes)[i] == Word(Num(256, bytes[4 * i..4 * i + 4]))
    decreases i
  {
    hide Num, Word;
    if i == 0 {
      assert bytes[..4] == bytes[4 * i..4 * i + 4];
    } else {
      LeWordsAt(bytes[4..], i - 1);
      assert bytes[4..][4 * (i - 1)..4 * (i - 1) + 4] == bytes[4 * i..4 * i + 4];
    }
  }

  /** The state: the text "expand 32-byte k", eight key words, the counter, three nonce words. */
  lemma StateLayout(key: seq<nat>, counter: nat, nonce: seq<nat>)
    requires |key| == 32 && |nonce| == 12
    ensures var x := BlockState(key, counter, nonce);
      && (forall i :: 0 <= i < 4 ==> x[i] == LeWords(Text("expand 32-byte k"))[i])
      && (forall i :: 0 <= i < 8 ==> x[4 + i] == Word(Num(256, key[4 * i..4 * i + 4])))
      && FromBits(x[12]) == counter
      && (forall i :: 0 <= i < 3 ==> x[13 + i] == Word(Num(256, nonce[4 * i..4 * i + 4])))
  {
    ConstantsText();
    CounterWord(key, counter, nonce);
    hide Num, Word, LeWords, CounterBits, FromBits;
    forall i: nat | i < 8 ensures LeWords(key)[i] == Word(Num(256, key[4 * i..4 * i + 4])) {
      LeWordsAt(key, i);
    }
    forall i: nat | i < 3 ensures LeWords(nonce)[i] == Word(Num(256, nonce[4 * i..4 * i + 4])) {
      LeWordsAt(nonce, i);
    }
  }

  /** A text as its character codes. */
  function Text(s: string): (bytes: seq<nat>)
    ensures |bytes| == |s|
  {
    seq(|s|, i requires 0 <= i < |s| => s[i] as nat)
  }

  lemma FourBytes(a: nat, b: nat, c: nat, d: nat)
    ensures Num(256, [a, b, c, d]) == a + 0x100 * b + 0x1_0000 * c + 0x100_0000 * d
  {
    assert [a, b, c, d][1..] == [b, c, d] && [b, c, d][1..] == [c, d] && [c, d][1..] == [d];
    assert Num(256, [d]) == d;
    assert Num(256, [c, d]) == c + 0x100 * d;
    assert Num(256, [b, c, d]) == b + 0x100 * (c + 0x100 * d);
  }

  lemma ConstantsText()
    ensures LeWords(Text("expand 32-byte k"))
      == [Word(0x61707865), Word(0x3320646E), Word(0x79622D32), Word(0x6B206574)]
  {
    hide Num, Word;
    var t := Text("expand 32-byte k");
    assert t[0..4] == [101, 120, 112, 97];
    assert t[4..8] == [110, 100, 32, 51];
    assert t[8..12] == [50, 45, 98, 121];
    assert t[12..16] == [116, 101, 32, 107];
    FourBytes(101, 120, 112, 97);
    FourBytes(110, 100, 32, 51);
    FourBytes(50, 45, 98, 121);
    FourBytes(116, 101, 32, 107);
    LeWordsAt(t, 0);
    LeWordsAt(t, 1);
    LeWordsAt(t, 2);
    LeWordsAt(t, 3);
  }

  lemma {:induction false} AllBytesAt(ws: seq<seq<bool>>, i: nat, j: nat)
    requires i < |ws| && j < 4
    ensures 4 * i + j < |AllBytes(ws)| && AllBytes(ws)[4 * i + j] == Digit(256, FromBits(ws[i]), j)
    decreases i
  {
    hide FromBits, Digit;
    if i == 0 {
    } else {
      AllBytesAt(ws[1..], i - 1, j);
    }
  }

  /** Byte j of word i of a block: the word after eighty quarter rounds plus the word before them,
      little-endian. */
  lemma BlockBytes(key: seq<nat>, counter: nat, nonce: seq<nat>, i: nat, j: nat)
    requires |key| == 32 && |nonce| == 12 && i < 16 && j < 4
    ensures var x := BlockState(key, counter, nonce);
      Block(key, counter, nonce)[4 * i + j] == Digit(256, Sum32(FromBits(Rounds(x, 80)[i]), FromBits(x[i])), j)
  {
    hide FromBits, Digit, Plus, AllBytes, BlockState, Rounds, Sum32;
    var x := BlockState(key, counter, nonce);
    AllBytesAt(Sums(Rounds(x, 80), x), i, j);
    PlusNumber(Rounds(x, 80)[i], x[i]);
  }

  /** The stream's xor of two bytes is that of their numbers. */
  lemma XorByteNumber(a: nat, b: nat)
    requires a < 256 && b < 256
    ensures XorByte(a, b) == BitXor(a, b)
  {
    hide FromBits, ToBits, Xor, BitXor;
    assert Pow(2, 8) == 256;
    hide Pow;
    FromToBits(a, 8);
    FromToBits(b, 8);
    XorNumber(ToBits(a, 8), ToBits(b, 8));
  }
}
