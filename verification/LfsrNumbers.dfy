/** The shift register on integers. */
module LfsrNumbers {
  import opened Digits
  import opened Bits
  import opened WordNumbers
  import opened Lfsr

  lemma BitNumber(s: seq<bool>, k: nat)
    requires k < |s|
    ensures Pow(2, k) > 0 && FromBits(s) / Pow(2, k) % 2 == BitDigit(s[k])
  {
    hide FromBits, Pow;
    PartsNumber(s, k);
    FirstBit(s[k..]);
  }

  lemma SmallPowers()
    ensures Pow(2, 0) == 1 && Pow(2, 1) == 2 && Pow(2, 3) == 8 && Pow(2, 4) == 16
    ensures Pow(2, 63) == 0x8000_0000_0000_0000
  {
    assert Pow(2, 64) == 2 * Pow(2, 63);
    Pow2To32();
    hide Pow;
    SmallestPowers();
  }

  lemma SmallestPowers()
    ensures Pow(2, 0) == 1 && Pow(2, 1) == 2 && Pow(2, 3) == 8 && Pow(2, 4) == 16
  {
  }

  /** One step: s >> 1, with the parity of bits 0, 1, 3 and 4 as the new top bit. */
  lemma StepNumber(s: seq<bool>)
    requires |s| == 64
    ensures var n := FromBits(s);
      FromBits(Step(s)) == n / 2 + 0x8000_0000_0000_0000 * ((n + n / 2 + n / 8 + n / 16) % 2)
  {
    SmallPowers();
    hide FromBits, Pow;
    BitNumber(s, 0);
    BitNumber(s, 1);
    BitNumber(s, 3);
    BitNumber(s, 4);
    PartsNumber(s, 1);
    var bit := Xor4(s[0], s[1], s[3], s[4]);
    ConcatNumber(s[1..], [bit]);
    OneBitNumber(bit);
    Parity(FromBits(s), FromBits(s) / 2, FromBits(s) / 8, FromBits(s) / 16);
  }

  lemma OneBitNumber(b: bool)
    ensures FromBits([b]) == BitDigit(b)
  {
    FirstBit([b]);
    NoBits();
  }

  lemma Parity(a: nat, b: nat, c: nat, d: nat)
    ensures (a + b + c + d) % 2 == (a % 2 + b % 2 + c % 2 + d % 2) % 2
  {
  }

  /** Feedback bit k of a multi-step advance: the parity of bits k, k + 1, k + 3 and k + 4. */
  lemma FeedbackNumber(s: seq<bool>, k: nat)
    requires |s| == 64 && k < 60
    ensures Feedback(s, k)
      <==> (BitDigit(s[k]) + BitDigit(s[k + 1]) + BitDigit(s[k + 3]) + BitDigit(s[k + 4])) % 2 == 1
  {
  }
}
