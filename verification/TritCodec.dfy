/** Trits in lanes and in base three: the codec both trit stores use. A lane code is 0 for a zero
    trit, 1 for +1 and 2 for -1; its base-three digit is the trit plus one. */
module TritCodec {
  import opened Arithmetic
  import opened Digits

  function TritOfLane(code: nat): int {
    if code == 1 then 1 else if code == 2 then -1 else 0
  }

  function LaneOfTrit(trit: int): (code: nat)
    ensures code < 3
  {
    if trit == 1 then 1 else if trit == -1 then 2 else 0
  }

  predicate AllTrits(trits: seq<int>) {
    forall i :: 0 <= i < |trits| ==> -1 <= trits[i] <= 1
  }

  function Trits(codes: seq<nat>): (ts: seq<int>)
    ensures |ts| == |codes| && forall i :: 0 <= i < |ts| ==> ts[i] == TritOfLane(codes[i])
  {
    seq(|codes|, i requires 0 <= i < |codes| => TritOfLane(codes[i]))
  }

  function DigitOfLane(code: nat): nat {
    if code == 0 then 1 else if code == 1 then 2 else 0
  }

  function LaneOfDigit(digit: nat): nat {
    if digit == 0 then 2 else if digit == 1 then 0 else 1
  }

  /** The codes of a trit: the lane code is the trit modulo three, the digit the trit plus one, and
      both are read back. */
  lemma CodesOfTrit(t: int)
    requires -1 <= t <= 1
    ensures LaneOfTrit(t) == t % 3 && TritOfLane(LaneOfTrit(t)) == t
    ensures DigitOfLane(LaneOfTrit(t)) == t + 1 && LaneOfDigit(t + 1) == LaneOfTrit(t)
  {
  }

  // ---- One group: a few trits as one base-three number ----

  function LaneDigits(codes: seq<nat>): (ds: seq<nat>)
    ensures |ds| == |codes| && forall i :: 0 <= i < |ds| ==> ds[i] == DigitOfLane(codes[i])
  {
    seq(|codes|, i requires 0 <= i < |codes| => DigitOfLane(codes[i]))
  }

  function GroupCode(codes: seq<nat>): nat {
    Num(3, LaneDigits(codes))
  }

  function Zeros(n: nat): (z: seq<nat>)
    ensures |z| == n && forall i :: 0 <= i < n ==> z[i] == 0
  {
    seq(n, _ => 0)
  }

  /** The lanes a decoder makes of a group: none set when the code is not a base-three number of
      n digits. */
  function GroupLanes(code: nat, n: nat): (codes: seq<nat>)
    ensures |codes| == n && Below(3, codes)
  {
    if code < Pow(3, n) then seq(n, i requires 0 <= i < n => LaneOfDigit(Digit(3, code, i))) else Zeros(n)
  }

  lemma DigitsBelow(codes: seq<nat>)
    ensures Below(3, LaneDigits(codes))
  {
  }

  lemma GroupRoundTrip(codes: seq<nat>)
    requires Below(3, codes)
    ensures GroupCode(codes) < Pow(3, |codes|)
    ensures GroupLanes(GroupCode(codes), |codes|) == codes
  {
    DigitsBelow(codes);
    NumBound(3, LaneDigits(codes));
    hide Num, Pow, Digit;
    var lanes := GroupLanes(GroupCode(codes), |codes|);
    forall i: nat | i < |codes| ensures lanes[i] == codes[i] {
      DigitOfNum(3, LaneDigits(codes), i);
    }
  }

  lemma GroupBack(code: nat, n: nat)
    requires code < Pow(3, n)
    ensures GroupCode(GroupLanes(code, n)) == code
  {
    hide Num, Digit, Pow;
    NumOfDigits(3, code, n);
    assert LaneDigits(GroupLanes(code, n)) == DigitsOf(3, code, n) by {
      forall i: nat | i < n ensures DigitOfLane(LaneOfDigit(Digit(3, code, i))) == Digit(3, code, i) {
        DigitBound(3, code, i);
      }
    }
  }

  // ---- dense5: five trits in a byte ----

  function DenseBytes(codes: seq<nat>): seq<nat> {
    if |codes| < 5 then [] else [GroupCode(codes[..5])] + DenseBytes(codes[5..])
  }

  function DenseLanes(bytes: seq<nat>): (codes: seq<nat>)
    ensures |codes| == 5 * |bytes|
  {
    if bytes == [] then [] else GroupLanes(bytes[0], 5) + DenseLanes(bytes[1..])
  }

  function BadBytes(bytes: seq<nat>): nat {
    if bytes == [] then 0 else BadBytes(bytes[..|bytes| - 1]) + if bytes[|bytes| - 1] < 243 then 0 else 1
  }

  lemma Pow35()
    ensures Pow(3, 5) == 243
  {
  }

  lemma {:induction false} NoBadBytes(bytes: seq<nat>)
    ensures BadBytes(bytes) == 0 <==> Below(243, bytes)
  {
    if bytes == [] {
    } else {
      var n := |bytes| - 1;
      NoBadBytes(bytes[..n]);
      assert bytes == bytes[..n] + [bytes[n]];
    }
  }

  lemma {:induction false} DenseRoundTrip(codes: seq<nat>)
    requires Below(3, codes) && |codes| % 5 == 0
    ensures |DenseBytes(codes)| == |codes| / 5 && Below(243, DenseBytes(codes))
    ensures DenseLanes(DenseBytes(codes)) == codes
    decreases |codes|
  {
    hide GroupCode, GroupLanes;
    if |codes| == 0 {
    } else {
      BelowParts(3, codes, 5);
      GroupRoundTrip(codes[..5]);
      Pow35();
      DenseRoundTrip(codes[5..]);
      hide Pow;
      assert codes[..5] + codes[5..] == codes;
      assert DenseBytes(codes)[1..] == DenseBytes(codes[5..]);
    }
  }

  lemma BelowParts(b: nat, ds: seq<nat>, k: nat)
    requires Below(b, ds) && k <= |ds|
    ensures Below(b, ds[..k]) && Below(b, ds[k..])
  {
  }

  lemma {:induction false} DenseBack(bytes: seq<nat>)
    requires Below(243, bytes)
    ensures DenseBytes(DenseLanes(bytes)) == bytes
    decreases |bytes|
  {
    hide GroupCode, GroupLanes;
    if bytes == [] {
    } else {
      BelowParts(243, bytes, 1);
      DenseBack(bytes[1..]);
      Pow35();
      GroupBack(bytes[0], 5);
      hide Pow;
      var codes := DenseLanes(bytes);
      assert codes[..5] == GroupLanes(bytes[0], 5) && codes[5..] == DenseLanes(bytes[1..]);
    }
  }

  lemma {:induction false} DenseBelow(bytes: seq<nat>)
    ensures Below(3, DenseLanes(bytes))
  {
    if bytes == [] {
    } else {
      DenseBelow(bytes[1..]);
      BelowConcat(3, GroupLanes(bytes[0], 5), DenseLanes(bytes[1..]));
    }
  }

  lemma BelowConcat(b: nat, x: seq<nat>, y: seq<nat>)
    requires Below(b, x) && Below(b, y)
    ensures Below(b, x + y)
  {
  }

  lemma {:induction false} DenseLanesAppend(bytes: seq<nat>, last: nat)
    ensures DenseLanes(bytes + [last]) == DenseLanes(bytes) + GroupLanes(last, 5)
  {
    hide GroupLanes;
    if bytes != [] {
      DenseLanesAppend(bytes[1..], last);
      assert (bytes + [last])[1..] == bytes[1..] + [last];
    } else {
      assert (bytes + [last])[1..] == [];
    }
  }

  // ---- Two bits a trit ----

  /** A lane as the two-bit decoder reads it: 11 is cleared. */
  function Cleared(code: nat): nat {
    if code == 3 then 0 else code
  }

  function ClearedAll(codes: seq<nat>): (out: seq<nat>)
    ensures |out| == |codes| && forall i :: 0 <= i < |out| ==> out[i] == Cleared(codes[i])
  {
    seq(|codes|, i requires 0 <= i < |codes| => Cleared(codes[i]))
  }

  function BadLanes(codes: seq<nat>): nat {
    if codes == [] then 0 else BadLanes(codes[..|codes| - 1]) + if codes[|codes| - 1] == 3 then 1 else 0
  }

  lemma {:induction false} NoBadLanes(codes: seq<nat>)
    requires Below(4, codes)
    ensures BadLanes(codes) == 0 <==> Below(3, codes)
    ensures Below(3, codes) ==> ClearedAll(codes) == codes
  {
    if codes == [] {
    } else {
      var n := |codes| - 1;
      BelowParts(4, codes, n);
      NoBadLanes(codes[..n]);
      assert codes == codes[..n] + [codes[n]];
    }
  }

  // ---- The decoding loops ----

  /** Two-bit codes one after another, 11 left out and counted. */
  method DecodePairsOfBits(word: nat, count: nat) returns (lanes: nat, bad: nat)
    ensures lanes == Num(4, ClearedAll(DigitsOf(4, word, count)))
    ensures bad == BadLanes(DigitsOf(4, word, count))
  {
    lanes, bad := 0, 0;
    for j := 0 to count
      invariant lanes == Num(4, ClearedAll(DigitsOf(4, word, j)))
      invariant bad == BadLanes(DigitsOf(4, word, j))
    {
      hide Num, Digit, Pow;
      var code := Digit(4, word, j);
      DigitsAppend(4, word, j);
      var done := DigitsOf(4, word, j);
      assert ClearedAll(done + [code]) == ClearedAll(done) + [Cleared(code)];
      assert (done + [code])[..j] == done;
      NumAppend(4, ClearedAll(done), Cleared(code));
      if code == 3 {
        bad := bad + 1;
      } else {
        lanes := lanes + Mul(code, Pow(4, j));
      }
    }
  }

  lemma DigitsAppend(b: nat, n: nat, j: nat)
    requires b > 0
    ensures DigitsOf(b, n, j + 1) == DigitsOf(b, n, j) + [Digit(b, n, j)]
  {
    hide Digit;
  }

  /** dense5 bytes one after another, those that are not codes left out and counted. */
  method DecodeBytes(word: nat, count: nat) returns (lanes: nat, bad: nat)
    ensures lanes == Num(4, DenseLanes(DigitsOf(256, word, count)))
    ensures bad == BadBytes(DigitsOf(256, word, count))
  {
    lanes, bad := 0, 0;
    for g := 0 to count
      invariant lanes == Num(4, DenseLanes(DigitsOf(256, word, g)))
      invariant bad == BadBytes(DigitsOf(256, word, g))
    {
      hide Num, Digit, Pow, DenseLanes, GroupLanes;
      var code := Digit(256, word, g);
      ghost var done := DigitsOf(256, word, g);
      DigitsAppend(256, word, g);
      DenseLanesAppend(done, code);
      assert (done + [code])[..g] == done;
      Pow35();
      if code < 243 {
        lanes := DecodeGroup(code, 5, lanes, 5 * g, DenseLanes(done));
      } else {
        NoLanes(DenseLanes(done), code, 5);
        bad := bad + 1;
      }
    }
  }

  /** The digits of one valid group placed as lanes from position `at` on. */
  method DecodeGroup(code: nat, n: nat, start: nat, at: nat, ghost prefix: seq<nat>) returns (lanes: nat)
    requires code < Pow(3, n) && |prefix| == at && start == Num(4, prefix)
    ensures lanes == Num(4, prefix + GroupLanes(code, n))
  {
    hide Num, Digit, Pow;
    lanes := start;
    ghost var group := GroupLanes(code, n);
    assert prefix + group[..0] == prefix;
    for i := 0 to n
      invariant lanes == Num(4, prefix + group[..i])
    {
      NumAppend(4, prefix + group[..i], group[i]);
      assert prefix + group[..i] + [group[i]] == prefix + group[..i + 1];
      lanes := lanes + Mul(LaneOfDigit(Digit(3, code, i)), Pow(4, at + i));
    }
    assert group[..n] == group;
  }

  /** An invalid group sets no lane. */
  lemma NoLanes(prefix: seq<nat>, code: nat, n: nat)
    requires code >= Pow(3, n)
    ensures Num(4, prefix + GroupLanes(code, n)) == Num(4, prefix)
  {
    hide Num, Pow;
    NumZeros(4, prefix, n);
    assert GroupLanes(code, n) == seq(n, _ => 0);
  }

  lemma BelowWider(b: nat, c: nat, ds: seq<nat>)
    requires Below(b, ds) && b <= c
    ensures Below(c, ds)
  {
  }

  lemma PackedLanes(codes: seq<nat>)
    requires Below(3, codes)
    ensures DigitsOf(4, Num(4, codes), |codes|) == codes
  {
    hide Num, Digit;
    BelowWider(3, 4, codes);
    DigitsOfNum(4, codes);
  }

  /** Packed codes are lane codes exactly where none of them is 3. */
  lemma CodesValid(lanes: nat, n: nat)
    ensures Below(3, DigitsOf(4, lanes, n)) <==> !exists i: nat :: i < n && Digit(4, lanes, i) == 3
  {
    hide Digit;
    var codes := DigitsOf(4, lanes, n);
    forall i: nat | i < n ensures codes[i] == Digit(4, lanes, i) && codes[i] < 4 {
      DigitBound(4, lanes, i);
    }
    if !Below(3, codes) {
      var k: nat :| k < |codes| && codes[k] >= 3;
      assert Digit(4, lanes, k) == 3;
    }
  }

  // ---- What a reader reports about trits ----

  function Activation(index: nat): nat {
    index % 8 + 1
  }

  /** How many of the trits equal t. */
  function Count(trits: seq<int>, t: int): nat {
    if trits == [] then 0 else Count(trits[..|trits| - 1], t) + if trits[|trits| - 1] == t then 1 else 0
  }

  /** The dot product of the trits with the activations of their indices. */
  function Dot(trits: seq<int>): int {
    if trits == [] then 0 else Dot(trits[..|trits| - 1]) + trits[|trits| - 1] * Activation(|trits| - 1)
  }

  lemma TallyAppend(trits: seq<int>, t: int, u: int)
    ensures Count(trits + [u], t) == Count(trits, t) + if u == t then 1 else 0
    ensures Dot(trits + [u]) == Dot(trits) + u * Activation(|trits|)
  {
    assert (trits + [u])[..|trits|] == trits;
  }
}
