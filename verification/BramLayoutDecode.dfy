/** The decoder of any layout: groups from bit 0 up, each a base-three number of as many trits as
    its bits hold. */
module BramLayoutDecode {
  import opened Arithmetic
  import opened Bitwise
  import opened Digits
  import opened TritCodec
  import opened BramLayout

  function Low(word: nat, bits: nat): nat {
    word % Pow(2, bits)
  }

  function High(word: nat, bits: nat): nat {
    word / Pow(2, bits)
  }

  /** The lanes of a word under a layout. */
  function LayoutLanes(layout: seq<nat>, word: nat): (codes: seq<nat>)
    ensures |codes| == SumTrits(layout)
  {
    if layout == [] then [] else
      GroupLanes(Low(word, layout[0]), NStar(layout[0])) + LayoutLanes(layout[1..], High(word, layout[0]))
  }

  /** How many groups of a word are not codes. */
  function LayoutBad(layout: seq<nat>, word: nat): nat {
    if layout == [] then 0 else
      (if Low(word, layout[0]) < Pow(3, NStar(layout[0])) then 0 else 1) + LayoutBad(layout[1..], High(word, layout[0]))
  }

  /** Below bit k and from bit k up an or is a sum. */
  lemma {:induction false} OrOfParts(a: nat, b: nat, k: nat)
    requires a < Pow(2, k)
    ensures BitOr(a, Mul(Pow(2, k), b)) == a + Mul(Pow(2, k), b)
    decreases k
  {
    if k == 0 {
      assert Pow(2, 0) == 1;
    } else if a > 0 && b > 0 {
      var c := Mul(Pow(2, k - 1), b);
      Associate(2, Pow(2, k - 1), b);
      assert Mul(Pow(2, k), b) == 2 * c;
      hide Mul, Pow;
      OrOfParts(a / 2, b, k - 1);
      EvenHigh(a, c);
    }
  }

  lemma EvenHigh(a: nat, c: nat)
    requires a > 0 && BitOr(a / 2, c) == a / 2 + c
    ensures BitOr(a, 2 * c) == a + 2 * c
  {
    assert 2 * c / 2 == c && 2 * c % 2 == 0;
  }

  /** py_decode: the packed lanes with the count of invalid groups from bit 48 up. */
  method Decode(layout: seq<nat>, word: nat) returns (r: nat)
    ensures r == BitOr(Num(4, LayoutLanes(layout, word)), Mul(Pow(2, 48), LayoutBad(layout, word)))
  {
    hide Num, Pow, LayoutLanes, LayoutBad, BitOr, Mul;
    var lanes, bad := DecodeParts(layout, word);
    r := BitOr(lanes, Mul(Pow(2, 48), bad));
  }

  /** Up to 24 trits the two parts of a result do not meet: both are read back from it. */
  lemma JoinedParts(layout: seq<nat>, word: nat)
    requires SumTrits(layout) <= 24
    ensures var r := BitOr(Num(4, LayoutLanes(layout, word)), Mul(Pow(2, 48), LayoutBad(layout, word)));
      r % Pow(2, 48) == Num(4, LayoutLanes(layout, word)) && r / Pow(2, 48) == LayoutBad(layout, word)
  {
    hide Num, LayoutLanes, LayoutBad, BitOr, Mul, Pow;
    var codes := LayoutLanes(layout, word);
    LanesBelow4(layout, word);
    NumBound(4, codes);
    FourIsTwice(|codes|);
    PowMonotone(2, 2 * |codes|, 48);
    OrOfParts(Num(4, codes), LayoutBad(layout, word), 48);
    DivMod(Pow(2, 48), LayoutBad(layout, word), Num(4, codes));
  }

  lemma {:induction false} LanesBelow4(layout: seq<nat>, word: nat)
    ensures Below(4, LayoutLanes(layout, word))
  {
    hide GroupLanes, NStar, Low, High;
    if layout == [] {
      assert LayoutLanes(layout, word) == [];
    } else {
      LanesBelow4(layout[1..], High(word, layout[0]));
      BelowWider(3, 4, GroupLanes(Low(word, layout[0]), NStar(layout[0])));
      BelowConcat(4, GroupLanes(Low(word, layout[0]), NStar(layout[0])),
                  LayoutLanes(layout[1..], High(word, layout[0])));
    }
  }

  lemma {:induction false} FourIsTwice(n: nat)
    ensures Pow(4, n) == Pow(2, 2 * n)
  {
    if n == 0 {
      assert Pow(2, 0) == 1;
    } else {
      FourIsTwice(n - 1);
      assert Pow(2, 2 * n) == 2 * Pow(2, 2 * n - 1) && Pow(2, 2 * n - 1) == 2 * Pow(2, 2 * (n - 1));
    }
  }

  /** The loop over the groups. */
  method DecodeParts(layout: seq<nat>, word: nat) returns (lanes: nat, bad: nat)
    ensures lanes == Num(4, LayoutLanes(layout, word)) && bad == LayoutBad(layout, word)
  {
    hide Num, Pow, NStar, GroupLanes, LayoutLanes, LayoutBad;
    var bit, lane := 0, 0;
    lanes, bad := 0, 0;
    ghost var done: seq<nat> := [];
    Start(layout, word);
    for g := 0 to |layout|
      invariant lanes == Num(4, done) && lane == |done| && Pow(2, bit) > 0
      invariant done + LayoutLanes(layout[g..], word / Pow(2, bit)) == LayoutLanes(layout, word)
      invariant bad + LayoutBad(layout[g..], word / Pow(2, bit)) == LayoutBad(layout, word)
    {
      var b := layout[g];
      var m := NStar(b);
      var code := word / Pow(2, bit) % Pow(2, b);
      GroupStep(layout[g..], word / Pow(2, bit));
      assert layout[g..][1..] == layout[g + 1..];
      NextGroup(word, bit, b);
      if code < Pow(3, m) {
        lanes := DecodeGroup(code, m, lanes, lane, done);
      } else {
        NoLanes(done, code, m);
        bad := bad + 1;
      }
      done := done + GroupLanes(code, m);
      bit, lane := bit + b, lane + m;
    }
    Finish(layout[|layout|..], word / Pow(2, bit));
    assert done + [] == done;
  }

  lemma Start(layout: seq<nat>, word: nat)
    ensures Num(4, []) == 0 && Pow(2, 0) == 1 && word / Pow(2, 0) == word
    ensures layout[0..] == layout && [] + LayoutLanes(layout, word) == LayoutLanes(layout, word)
  {
    hide LayoutLanes;
  }

  lemma Finish(layout: seq<nat>, word: nat)
    requires layout == []
    ensures LayoutLanes(layout, word) == [] && LayoutBad(layout, word) == 0
  {
  }

  lemma GroupStep(layout: seq<nat>, word: nat)
    requires layout != []
    ensures Pow(2, layout[0]) > 0
    ensures LayoutLanes(layout, word)
      == GroupLanes(Low(word, layout[0]), NStar(layout[0])) + LayoutLanes(layout[1..], High(word, layout[0]))
    ensures LayoutBad(layout, word)
      == (if Low(word, layout[0]) < Pow(3, NStar(layout[0])) then 0 else 1)
        + LayoutBad(layout[1..], High(word, layout[0]))
  {
    hide GroupLanes, NStar, Pow;
  }

  lemma NextGroup(word: nat, bit: nat, b: nat)
    ensures Pow(2, bit) > 0 && Pow(2, b) > 0 && Pow(2, bit + b) > 0
    ensures word / Pow(2, bit) / Pow(2, b) == word / Pow(2, bit + b)
  {
    hide Pow;
    PowAdd(2, bit, b);
    DivDiv(word, Pow(2, bit), Pow(2, b));
  }

  // ---- Packing ----

  /** The word of a list of lanes under a layout. */
  function LayoutWord(layout: seq<nat>, codes: seq<nat>): nat
    requires |codes| == SumTrits(layout)
  {
    if layout == [] then 0 else
      var m := NStar(layout[0]);
      GroupCode(codes[..m]) + Mul(Pow(2, layout[0]), LayoutWord(layout[1..], codes[m..]))
  }

  /** Every layout stores every list of trits: the word fits the layout's bits and decodes to the
      lanes it was made of, with no invalid group. */
  lemma {:induction false} LayoutRoundTrip(layout: seq<nat>, codes: seq<nat>)
    requires |codes| == SumTrits(layout) && Below(3, codes)
    ensures LayoutWord(layout, codes) < Pow(2, SumBits(layout))
    ensures LayoutLanes(layout, LayoutWord(layout, codes)) == codes
    ensures LayoutBad(layout, LayoutWord(layout, codes)) == 0
    decreases |layout|
  {
    hide NStar, GroupLanes, GroupCode, LayoutLanes, LayoutBad;
    if layout == [] {
      Finish(layout, 0);
    } else {
      hide Pow;
      var b := layout[0];
      var m := NStar(b);
      var rest := codes[m..];
      BelowParts(3, codes, m);
      LayoutRoundTrip(layout[1..], rest);
      GroupRoundTrip(codes[..m]);
      var w := LayoutWord(layout[1..], rest);
      DivMod(Pow(2, b), w, GroupCode(codes[..m]));
      GroupStep(layout, LayoutWord(layout, codes));
      assert codes[..m] + rest == codes;
      TwoParts(b, SumBits(layout[1..]), GroupCode(codes[..m]), w);
    }
  }

  lemma TwoParts(a: nat, b: nat, x: nat, y: nat)
    requires x < Pow(2, a) && y < Pow(2, b)
    ensures x + Mul(Pow(2, a), y) < Pow(2, a + b)
  {
    hide Pow;
    PowAdd(2, a, b);
    MulOrder(Pow(2, a), y + 1, Pow(2, b));
    Distribute(Pow(2, a), y, 1);
  }
}
