/** The trit stream of the block-RAM experiment: a 64-bit Fibonacci LFSR advanced many steps at
    once, two stream bits per trit. A state is its 64 bits, bit 0 first. */
module Lfsr {
  import opened TritCodec
  import opened Bits

  function Xor4(a: bool, b: bool, c: bool, d: bool): bool {
    (a != b) != (c != d)
  }

  /** The feedback bit `advance` computes for its step k. */
  function Feedback(s: seq<bool>, k: nat): bool {
    Xor4(Bit(s, k), Bit(s, k + 1), Bit(s, k + 3), Bit(s, k + 4))
  }

  /** The state after n steps as `advance` computes it, every feedback bit read from the
      original state. */
  function Advance(s: seq<bool>, n: nat): (t: seq<bool>)
    requires |s| == 64 && n <= 64
    ensures |t| == 64
  {
    s[n..] + seq(n, k requires 0 <= k < n => Feedback(s, k))
  }

  method AdvanceLoop(s: seq<bool>, n: nat) returns (next: seq<bool>)
    requires |s| == 64 && n <= 64
    ensures next == Advance(s, n)
  {
    hide Feedback;
    next := s[n..] + seq(n, _ => false);
    var k := 0;
    while k < n
      invariant k <= n && |next| == 64
      invariant forall i :: 0 <= i < 64 - n ==> next[i] == s[n + i]
      invariant forall i :: 0 <= i < k ==> next[64 - n + i] == Feedback(s, i)
    {
      next := next[64 - n + k := Feedback(s, k)];
      k := k + 1;
    }
    assert forall i :: 64 - n <= i < 64 ==> next[i] == Feedback(s, i - (64 - n)) by {
      forall i | 64 - n <= i < 64 ensures next[i] == Feedback(s, i - (64 - n)) {
        assert next[64 - n + (i - (64 - n))] == Feedback(s, i - (64 - n));
      }
    }
    assert next == Advance(s, n);
  }

  // ---- One step at a time ----

  function Step(s: seq<bool>): (t: seq<bool>)
    requires |s| == 64
    ensures |t| == 64
  {
    s[1..] + [Xor4(s[0], s[1], s[3], s[4])]
  }

  function Steps(s: seq<bool>, n: nat): (t: seq<bool>)
    requires |s| == 64
    ensures |t| == 64
  {
    if n == 0 then s else Step(Steps(s, n - 1))
  }

  /** Bit i of the output stream that starts at state s. */
  function Stream(s: seq<bool>, i: nat): bool
    requires |s| == 64
  {
    if i < 64 then s[i] else
      Xor4(Stream(s, i - 64), Stream(s, i - 63), Stream(s, i - 61), Stream(s, i - 60))
  }

  lemma StepBit(s: seq<bool>, i: nat)
    requires |s| == 64 && i < 64
    ensures Step(s)[i] == if i < 63 then s[i + 1] else Xor4(s[0], s[1], s[3], s[4])
  {
    hide Xor4;
  }

  /** After n steps the state is the stream's window [n, n + 64). */
  lemma {:induction false} StepsWindow(s: seq<bool>, n: nat, i: nat)
    requires |s| == 64 && i < 64
    ensures Steps(s, n)[i] == Stream(s, n + i)
    decreases n
  {
    hide Xor4;
    if n == 0 {
    } else {
      StepBit(Steps(s, n - 1), i);
      hide Step;
      if i < 63 {
        hide Stream;
        StepsWindow(s, n - 1, i + 1);
      } else {
        StepsWindow(s, n - 1, 0);
        StepsWindow(s, n - 1, 1);
        StepsWindow(s, n - 1, 3);
        StepsWindow(s, n - 1, 4);
      }
    }
  }

  /** The first n - 60 feedback bits vanish: vacuous up to 60 steps. */
  predicate EarlyFeedbackZero(s: seq<bool>, n: nat)
    requires |s| == 64
  {
    forall k :: 0 <= k < n - 60 ==> !Feedback(s, k)
  }

  lemma FeedbackInside(s: seq<bool>, k: nat)
    requires |s| == 64 && k < 60
    ensures Feedback(s, k) == Stream(s, 64 + k)
  {
    assert Stream(s, k) == s[k] && Stream(s, k + 1) == s[k + 1] && Stream(s, k + 3) == s[k + 3]
      && Stream(s, k + 4) == s[k + 4];
  }

  /** Past bit 60 the feedback misses the feedback bits it should have read. */
  lemma FeedbackLate(s: seq<bool>, j: nat)
    requires |s| == 64 && j < 4
    requires forall i :: 0 <= i < j ==> !Feedback(s, i)
    ensures Feedback(s, 60 + j) == Stream(s, 124 + j) <==> !Feedback(s, j)
  {
    FeedbackInside(s, 0);
    FeedbackInside(s, 1);
    FeedbackInside(s, 2);
    FeedbackInside(s, 3);
    assert forall i :: 60 <= i < 64 ==> Stream(s, i) == s[i];
    assert Stream(s, 124) == Xor4(Stream(s, 60), Stream(s, 61), Stream(s, 63), Stream(s, 64));
    assert Stream(s, 125) == Xor4(Stream(s, 61), Stream(s, 62), Stream(s, 64), Stream(s, 65));
    assert Stream(s, 126) == Xor4(Stream(s, 62), Stream(s, 63), Stream(s, 65), Stream(s, 66));
    assert Stream(s, 127) == Xor4(Stream(s, 63), Stream(s, 64), Stream(s, 66), Stream(s, 67));
    hide Stream;
  }

  lemma AdvanceAt(s: seq<bool>, n: nat, k: nat)
    requires |s| == 64 && k < n <= 64
    ensures Advance(s, n)[64 - n + k] == Feedback(s, k)
  {
    hide Feedback;
  }

  /** One call of `advance` is n single steps exactly when the first n - 60 feedback bits are
      zero; for every n up to 60, so for all the strides in use, always. */
  lemma {:induction false} AdvanceExact(s: seq<bool>, n: nat)
    requires |s| == 64 && n <= 64
    ensures Advance(s, n) == Steps(s, n) <==> EarlyFeedbackZero(s, n)
    ensures n <= 60 ==> Advance(s, n) == Steps(s, n)
  {
    hide Feedback, Stream, Steps;
    if EarlyFeedbackZero(s, n) {
      forall i: nat | i < 64 ensures Advance(s, n)[i] == Steps(s, n)[i] {
        StepsWindow(s, n, i);
        if i < 64 - n {
          StreamStart(s, n + i);
        } else if i < 124 - n {
          FeedbackInside(s, i - (64 - n));
        } else {
          FeedbackLate(s, i - (124 - n));
        }
      }
      assert Advance(s, n) == Steps(s, n);
    } else {
      var k := FirstFeedback(s, n);
      FeedbackLate(s, k);
      StepsWindow(s, n, 124 - n + k);
      AdvanceAt(s, n, 60 + k);
    }
  }

  lemma StreamStart(s: seq<bool>, i: nat)
    requires |s| == 64 && i < 64
    ensures Stream(s, i) == s[i]
  {
  }

  lemma FirstFeedback(s: seq<bool>, n: nat) returns (k: nat)
    requires |s| == 64 && 60 < n <= 64 && !EarlyFeedbackZero(s, n)
    ensures k < n - 60 && Feedback(s, k)
    ensures forall i :: 0 <= i < k ==> !Feedback(s, i)
  {
    hide Feedback;
    k := if Feedback(s, 0) then 0 else if Feedback(s, 1) then 1 else if Feedback(s, 2) then 2 else 3;
  }

  lemma {:induction false} StepsCompose(s: seq<bool>, m: nat, n: nat)
    requires |s| == 64
    ensures Steps(Steps(s, m), n) == Steps(s, m + n)
    decreases n
  {
    hide Step;
    if n == 0 {
    } else {
      StepsCompose(s, m, n - 1);
    }
  }

  /** Advances compose by addition. */
  lemma AdvanceCompose(s: seq<bool>, m: nat, n: nat)
    requires |s| == 64 && m <= 60 && n <= 60
    ensures Advance(Advance(s, m), n) == Steps(s, m + n)
    ensures m + n <= 60 ==> Advance(Advance(s, m), n) == Advance(s, m + n)
  {
    hide Advance, Steps;
    AdvanceExact(s, m);
    AdvanceExact(Steps(s, m), n);
    StepsCompose(s, m, n);
    if m + n <= 60 {
      AdvanceExact(s, m + n);
    }
  }

  /** No two states step to the same one: the stream never merges, so no seed but zero
      reaches zero. */
  lemma {:induction false} StepsInjective(s: seq<bool>, t: seq<bool>, n: nat)
    requires |s| == |t| == 64 && Steps(s, n) == Steps(t, n)
    ensures s == t
    decreases n
  {
    if n == 0 {
    } else {
      hide Steps;
      assert Steps(s, n) == Step(Steps(s, n - 1)) && Steps(t, n) == Step(Steps(t, n - 1)) by {
        StepsCompose(s, n - 1, 1);
        StepsCompose(t, n - 1, 1);
        OneStep(Steps(s, n - 1));
        OneStep(Steps(t, n - 1));
      }
      StepInjective(Steps(s, n - 1), Steps(t, n - 1));
      StepsInjective(s, t, n - 1);
    }
  }

  lemma OneStep(s: seq<bool>)
    requires |s| == 64
    ensures Steps(s, 1) == Step(s)
  {
    assert Steps(s, 0) == s;
  }

  lemma StepInjective(s: seq<bool>, t: seq<bool>)
    requires |s| == |t| == 64 && Step(s) == Step(t)
    ensures s == t
  {
    hide Xor4;
    forall i | 1 <= i < 64 ensures s[i] == t[i] {
      assert Step(s)[i - 1] == s[i] && Step(t)[i - 1] == t[i];
    }
    assert Step(s)[63] == Xor4(s[0], s[1], s[3], s[4]) && Step(t)[63] == Xor4(t[0], t[1], t[3], t[4]);
    XorCancel(s[0], t[0], s[1], s[3], s[4]);
  }

  lemma XorCancel(a: bool, b: bool, c: bool, d: bool, e: bool)
    requires Xor4(a, c, d, e) == Xor4(b, c, d, e)
    ensures a == b
  {
  }

  // ---- Trits ----

  /** Two stream bits as a lane code, the pair 11 read as zero. */
  function LaneCode(lo: bool, hi: bool): (c: nat)
    ensures c < 3
  {
    if lo && hi then 0 else if lo then 1 else if hi then 2 else 0
  }

  /** The lane code of trit i of the stream. */
  function StreamCode(s: seq<bool>, i: nat): (c: nat)
    requires |s| == 64
    ensures c < 3
  {
    LaneCode(Stream(s, 2 * i), Stream(s, 2 * i + 1))
  }

  function StreamCodes(s: seq<bool>, from: nat, count: nat): (cs: seq<nat>)
    requires |s| == 64
    ensures |cs| == count && forall i :: 0 <= i < count ==> cs[i] == StreamCode(s, from + i)
  {
    seq<nat>(count, i requires 0 <= i < count => StreamCode(s, from + i))
  }

  /** The lanes of a word cut from a state are the next trits of the stream. */
  lemma LanesOfState(seed: seq<bool>, n: nat, j: nat)
    requires |seed| == 64 && j < 32
    ensures LaneCode(Steps(seed, 2 * n)[2 * j], Steps(seed, 2 * n)[2 * j + 1]) == StreamCode(seed, n + j)
  {
    hide Steps, Stream;
    StepsWindow(seed, 2 * n, 2 * j);
    StepsWindow(seed, 2 * n, 2 * j + 1);
  }

  /** The reference list: one trit at a time, two steps each. */
  method StreamTrits(count: nat, seed: seq<bool>) returns (out: seq<int>)
    requires |seed| == 64
    ensures out == Trits(StreamCodes(seed, 0, count))
  {
    hide Steps, Stream, Advance, LaneCode;
    var state := seed;
    out := [];
    StepsNone(seed);
    for n := 0 to count
      invariant |state| == 64 && state == Steps(seed, 2 * n)
      invariant out == Trits(StreamCodes(seed, 0, n))
    {
      LanesOfState(seed, n, 0);
      out := out + [TritOfLane(LaneCode(state[0], state[1]))];
      AdvanceExact(state, 2);
      StepsCompose(seed, 2 * n, 2);
      state := Advance(state, 2);
    }
  }

  lemma StepsNone(s: seq<bool>)
    requires |s| == 64
    ensures Steps(s, 0) == s
  {
  }
}
