/** The unnormalised Walsh-Hadamard transform: the in-place butterfly, the sign matrix it
    must equal, and the rotation built on it. Values are reals, which hold the integers and
    the exact fractions the code uses. */
module Hadamard {
  import opened Arithmetic
  import opened Results
  import opened Bitwise

  // ---- Bits ----

  function PopCount(a: nat): nat {
    if a == 0 then 0 else PopCount(a / 2) + a % 2
  }

  /** (-1) to the number of common one bits. */
  function Sign(k: nat, j: nat): real {
    if PopCount(BitAnd(k, j)) % 2 == 1 then -1.0 else 1.0
  }

  predicate IsPow2(n: nat) {
    n > 0 && (n == 1 || (n % 2 == 0 && IsPow2(n / 2)))
  }

  // ---- The transform ----

  function Add(a: seq<real>, b: seq<real>): (c: seq<real>)
    requires |a| == |b|
    ensures |c| == |a| && forall i :: 0 <= i < |a| ==> c[i] == a[i] + b[i]
  {
    seq(|a|, i requires 0 <= i < |a| => a[i] + b[i])
  }

  function Sub(a: seq<real>, b: seq<real>): (c: seq<real>)
    requires |a| == |b|
    ensures |c| == |a| && forall i :: 0 <= i < |a| ==> c[i] == a[i] - b[i]
  {
    seq(|a|, i requires 0 <= i < |a| => a[i] - b[i])
  }

  /** One butterfly: sums of the two halves, then their differences. */
  function Mix(x: seq<real>, h: nat): (y: seq<real>)
    requires |x| == 2 * h
    ensures |y| == |x|
  {
    Add(x[..h], x[h..]) + Sub(x[..h], x[h..])
  }

  /** The transform by halving. */
  function Transform(x: seq<real>): (y: seq<real>)
    requires IsPow2(|x|)
    ensures |y| == |x|
    decreases |x|
  {
    if |x| == 1 then x else
      var h := |x| / 2;
      Mix(Transform(x[..h]) + Transform(x[h..]), h)
  }

  /** Every consecutive block of h values transformed on its own. */
  function Blockwise(x: seq<real>, h: nat): (y: seq<real>)
    requires IsPow2(h)
    ensures |y| == |x|
    decreases |x|
  {
    if |x| < h then x else Transform(x[..h]) + Blockwise(x[h..], h)
  }

  /** One level of butterflies over consecutive blocks of 2h values. */
  function Pass(x: seq<real>, h: nat): (y: seq<real>)
    requires h > 0
    ensures |y| == |x|
    decreases |x|
  {
    if |x| < 2 * h then x else Mix(x[..2 * h], h) + Pass(x[2 * h..], h)
  }

  /** n is a whole number of blocks. */
  predicate Multiple(n: nat, block: nat)
    requires block > 0
    decreases n
  {
    n == 0 || (n >= block && Multiple(n - block, block))
  }

  lemma {:induction false} PassBlockwise(x: seq<real>, h: nat)
    requires IsPow2(h) && Multiple(|x|, 2 * h)
    ensures IsPow2(2 * h) && Pass(Blockwise(x, h), h) == Blockwise(x, 2 * h)
    decreases |x|
  {
    Doubled(h);
    hide Mix, Transform, IsPow2;
    if x == [] {
      assert Pass(Blockwise(x, h), h) == [] == Blockwise(x, 2 * h);
    } else {
      var block, rest := x[..2 * h], x[2 * h..];
      PassBlockwise(rest, h);
      BlockJoined(block, rest, h);
      assert x == block + rest;
    }
  }

  /** From the rest of the list to the list with one more block before it. */
  lemma BlockJoined(block: seq<real>, rest: seq<real>, h: nat)
    requires IsPow2(h) && IsPow2(2 * h) && |block| == 2 * h
    requires Pass(Blockwise(rest, h), h) == Blockwise(rest, 2 * h)
    ensures Pass(Blockwise(block + rest, h), h) == Blockwise(block + rest, 2 * h)
  {
    assert h > 0;
    hide Mix, Transform, IsPow2, Pass, Blockwise;
    var x := block + rest;
    TwoBlocks(x, h);
    OneBlock(block, h);
    BlockFirst(block, rest, 2 * h);
    assert x[..h] == block[..h] && x[h..2 * h] == block[h..] && x[2 * h..] == rest;
    PassFirst(Transform(block[..h]) + Transform(block[h..]), Blockwise(rest, h), h);
  }

  lemma BlockFirst(block: seq<real>, rest: seq<real>, h: nat)
    requires IsPow2(h) && |block| == h
    ensures Blockwise(block + rest, h) == Transform(block) + Blockwise(rest, h)
  {
    hide Transform;
    assert (block + rest)[..h] == block && (block + rest)[h..] == rest;
  }

  lemma Doubled(h: nat)
    requires IsPow2(h)
    ensures IsPow2(2 * h)
  {
    assert (2 * h) / 2 == h;
  }

  lemma PassFirst(first: seq<real>, rest: seq<real>, h: nat)
    requires h > 0 && |first| == 2 * h
    ensures Pass(first + rest, h) == Mix(first, h) + Pass(rest, h)
  {
    hide Mix;
    assert (first + rest)[..2 * h] == first && (first + rest)[2 * h..] == rest;
  }

  lemma OneBlock(block: seq<real>, h: nat)
    requires IsPow2(h) && |block| == 2 * h && IsPow2(2 * h)
    ensures Transform(block) == Mix(Transform(block[..h]) + Transform(block[h..]), h)
  {
    hide Mix, IsPow2;
    assert |block| / 2 == h && |block| != 1;
  }

  lemma TwoBlocks(x: seq<real>, h: nat)
    requires IsPow2(h) && |x| >= 2 * h
    ensures Blockwise(x, h) == Transform(x[..h]) + Transform(x[h..2 * h]) + Blockwise(x[2 * h..], h)
  {
    hide Transform;
    assert h > 0;
    hide IsPow2;
    assert x[h..][..h] == x[h..2 * h];
    assert x[h..][h..] == x[2 * h..];
  }

  lemma PassNone(h: nat)
    requires h > 0
    ensures Pass([], h) == []
  {
  }

  lemma {:induction false} PassAppend(x: seq<real>, block: seq<real>, h: nat)
    requires h > 0 && |block| == 2 * h && Multiple(|x|, 2 * h)
    ensures Pass(x + block, h) == Pass(x, h) + Mix(block, h)
    decreases |x|
  {
    hide Pass, Mix;
    if |x| == 0 {
      PassNone(h);
      PassFirst(block, [], h);
      assert x + block == block + [];
    } else {
      var first, rest := x[..2 * h], x[2 * h..];
      PassAppend(rest, block, h);
      PassFirst(first, rest, h);
      PassFirst(first, rest + block, h);
      assert x == first + rest && x + block == first + (rest + block);
    }
  }

  lemma {:induction false} MultipleOfPow2(n: nat, h: nat)
    requires IsPow2(n) && IsPow2(h) && h <= n
    ensures Multiple(n, h)
    decreases n
  {
    if h == n {
      assert Multiple(0, h);
    } else {
      HalfAbove(n, h);
      MultipleOfPow2(n / 2, h);
      MultipleSum(n / 2, n / 2, h);
    }
  }

  lemma {:induction false} HalfAbove(n: nat, h: nat)
    requires IsPow2(n) && IsPow2(h) && h < n
    ensures n % 2 == 0 && IsPow2(n / 2) && h <= n / 2
    decreases n
  {
    if h > 1 && n > 2 {
      HalfAbove(n / 2, h / 2);
    }
  }

  lemma {:induction false} MultipleSum(a: nat, b: nat, h: nat)
    requires h > 0 && Multiple(a, h) && Multiple(b, h)
    ensures Multiple(a + b, h)
    decreases a
  {
    if a == 0 {
    } else {
      MultipleSum(a - h, b, h);
    }
  }

  lemma {:induction false} BlocksOfOne(x: seq<real>)
    ensures IsPow2(1) && Blockwise(x, 1) == x
    decreases |x|
  {
    if x == [] {
    } else {
      BlocksOfOne(x[1..]);
      assert x[..1] + x[1..] == x;
    }
  }

  lemma {:induction false} MultipleRoom(i: nat, n: nat, block: nat)
    requires block > 0 && Multiple(i, block) && Multiple(n, block) && i < n
    ensures i + block <= n
    decreases n
  {
    if i == 0 {
    } else {
      MultipleRoom(i - block, n - block, block);
    }
  }

  // ---- The in-place loops ----

  /** The innermost loop: one block of 2h values from i on is overwritten pair by pair. */
  method MixInPlace(a: array<real>, i: nat, h: nat)
    requires i + 2 * h <= a.Length
    modifies a
    ensures a[..] == old(a[..i]) + Mix(old(a[i..i + 2 * h]), h) + old(a[i + 2 * h..])
  {
    hide Mix;
    ghost var was := a[..];
    ghost var block := a[i..i + 2 * h];
    ghost var mixed := Mix(block, h);
    var j := i;
    while j < i + h
      invariant i <= j <= i + h
      invariant forall k :: 0 <= k < a.Length && !(i <= k < j) && !(i + h <= k < j + h) ==> a[k] == was[k]
      invariant forall k :: i <= k < j ==> a[k] == mixed[k - i]
      invariant forall k :: i + h <= k < j + h ==> a[k] == mixed[k - i]
    {
      MixAt(block, h, j - i);
      assert a[j] == block[j - i] && a[j + h] == block[j - i + h];
      a[j], a[j + h] := a[j] + a[j + h], a[j] - a[j + h];
      j := j + 1;
    }
    Spliced(a[..], was, mixed, i, h);
  }

  lemma MixAt(block: seq<real>, h: nat, t: nat)
    requires |block| == 2 * h && t < h
    ensures Mix(block, h)[t] == block[t] + block[t + h]
    ensures Mix(block, h)[t + h] == block[t] - block[t + h]
  {
  }

  lemma Spliced(now: seq<real>, was: seq<real>, mixed: seq<real>, i: nat, h: nat)
    requires |now| == |was| && i + 2 * h <= |was| && |mixed| == 2 * h
    requires forall k :: 0 <= k < |was| && !(i <= k < i + 2 * h) ==> now[k] == was[k]
    requires forall k :: i <= k < i + 2 * h ==> now[k] == mixed[k - i]
    ensures now == was[..i] + mixed + was[i + 2 * h..]
  {
  }

  /** fwht: butterflies of doubling size until the whole list is one block; None where a butterfly
      would reach past the end. It succeeds exactly on the empty list and on power-of-two
      lengths. */
  method Fwht(values: seq<real>) returns (r: Option<seq<real>>)
    ensures r.Some? <==> values == [] || IsPow2(|values|)
    ensures IsPow2(|values|) ==> r == Some(Transform(values))
    ensures values == [] ==> r == Some([])
  {
    hide Transform, Blockwise, Pass;
    var a := new real[|values|](i requires 0 <= i < |values| => values[i]);
    assert a[..] == values;
    var h := 1;
    BlocksOfOne(values);
    MultipleOfOne(a.Length);
    while h < a.Length
      invariant a.Length == |values| && IsPow2(h) && Multiple(a.Length, h)
      invariant a[..] == Blockwise(values, h)
      decreases a.Length - h
    {
      Doubled(h);
      WholeLevels(a.Length, h);
      var ok := Level(a, h);
      if !ok {
        return None;
      }
      PassBlockwise(values, h);
      h := 2 * h;
    }
    LastLevel(values, h);
    r := Some(a[..]);
  }

  lemma {:induction false} MultipleOfOne(n: nat)
    ensures Multiple(n, 1)
    decreases n
  {
    if n == 0 {
    } else {
      MultipleOfOne(n - 1);
    }
  }

  /** A list cut into blocks of h cannot be cut into blocks of 2h only if its length is no power of
      two. */
  lemma WholeLevels(n: nat, h: nat)
    requires IsPow2(h) && h < n
    ensures IsPow2(n) ==> Multiple(n, 2 * h)
  {
    if IsPow2(n) {
      HalfAbove(n, h);
      Doubled(h);
      MultipleOfPow2(n, 2 * h);
    }
  }

  lemma LastLevel(values: seq<real>, h: nat)
    requires IsPow2(h) && Multiple(|values|, h) && |values| <= h
    ensures values == [] || |values| == h
    ensures Blockwise(values, h) == if values == [] then [] else Transform(values)
  {
    hide Transform;
    if values != [] {
      assert values[..h] == values;
      assert Blockwise(values[h..], h) == [];
    }
  }

  /** One level: every block of 2h values in turn, false where the last block is cut short. */
  method Level(a: array<real>, h: nat) returns (ok: bool)
    requires h > 0
    modifies a
    ensures ok <==> Multiple(a.Length, 2 * h)
    ensures ok ==> a[..] == Pass(old(a[..]), h)
  {
    hide Multiple, Mix, Pass;
    ghost var was := a[..];
    var i := 0;
    MultipleZero(2 * h);
    PassNothing(h);
    assert was[..0] == [];
    while i < a.Length
      invariant i <= a.Length && Multiple(i, 2 * h)
      invariant a[..] == Pass(was[..i], h) + was[i..]
    {
      if i + 2 * h > a.Length {
        CutShort(i, a.Length, 2 * h);
        return false;
      }
      Cut(a[..], Pass(was[..i], h), was, i, h);
      MixInPlace(a, i, h);
      GrowPass(was, i, h);
      MultipleNext(i, 2 * h);
      i := i + 2 * h;
    }
    assert was[..i] == was;
    ok := true;
  }

  lemma CutShort(i: nat, n: nat, block: nat)
    requires block > 0 && Multiple(i, block) && i < n < i + block
    ensures !Multiple(n, block)
  {
    if Multiple(n, block) {
      MultipleRoom(i, n, block);
    }
  }

  lemma MultipleZero(block: nat)
    requires block > 0
    ensures Multiple(0, block)
  {
  }

  lemma MultipleNext(i: nat, block: nat)
    requires block > 0 && Multiple(i, block)
    ensures Multiple(i + block, block)
  {
  }

  lemma PassNothing(h: nat)
    requires h > 0
    ensures Pass([], h) == []
  {
  }

  lemma GrowPass(was: seq<real>, i: nat, h: nat)
    requires h > 0 && i + 2 * h <= |was| && Multiple(i, 2 * h)
    ensures Pass(was[..i + 2 * h], h) == Pass(was[..i], h) + Mix(was[i..i + 2 * h], h)
  {
    hide Mix, Pass, Multiple;
    PassAppend(was[..i], was[i..i + 2 * h], h);
    assert was[..i] + was[i..i + 2 * h] == was[..i + 2 * h];
  }

  lemma Cut(now: seq<real>, done: seq<real>, was: seq<real>, i: nat, h: nat)
    requires i + 2 * h <= |was| && |done| == i && now == done + was[i..]
    ensures now[..i] == done && now[i..i + 2 * h] == was[i..i + 2 * h] && now[i + 2 * h..] == was[i + 2 * h..]
  {
  }

  // ---- The sign matrix ----

  /** Row k of the sign matrix times the vector, over the first n lanes. */
  function RowSum(x: seq<real>, k: nat, n: nat): real
    requires n <= |x|
  {
    if n == 0 then 0.0 else RowSum(x, k, n - 1) + Sign(k, n - 1) * x[n - 1]
  }

  /** A top bit outside j does not change the sign; a top bit in both flips it. */
  lemma {:induction false} SignTopBit(h: nat, k: nat, j: nat)
    requires IsPow2(h) && k < h && j < h
    ensures Sign(h + k, j) == Sign(k, j) == Sign(k, h + j)
    ensures Sign(h + k, h + j) == -Sign(k, j)
  {
    CountTopBit(h, k, j);
  }

  /** How many one bits two numbers share. */
  function Common(k: nat, j: nat): nat {
    PopCount(BitAnd(k, j))
  }

  lemma CommonStep(k: nat, j: nat)
    ensures Common(k, j) == Common(k / 2, j / 2) + Both(k, j)
  {
    var p := BitAnd(k / 2, j / 2);
    var b := Both(k, j);
    if k > 0 && j > 0 {
      assert (2 * p + b) / 2 == p && (2 * p + b) % 2 == b;
    }
  }

  lemma {:induction false} CountTopBit(h: nat, k: nat, j: nat)
    requires IsPow2(h) && k < h && j < h
    ensures Common(h + k, j) == Common(k, j) == Common(k, h + j)
    ensures Common(h + k, h + j) == Common(k, j) + 1
    decreases h
  {
    hide Common;
    if h == 1 {
      CommonZero(0);
      CommonZero(1);
      CommonStep(1, 1);
    } else {
      var m := h / 2;
      assert IsPow2(m) && h == 2 * m;
      hide IsPow2;
      CountTopBit(m, k / 2, j / 2);
      Halves(h, k);
      Halves(h, j);
      CommonStep(k, j);
      CommonStep(h + k, j);
      CommonStep(k, h + j);
      CommonStep(h + k, h + j);
    }
  }

  lemma Halves(h: nat, k: nat)
    requires h % 2 == 0
    ensures (h + k) / 2 == h / 2 + k / 2 && (h + k) % 2 == k % 2
  {
  }

  lemma CommonZero(k: nat)
    ensures Common(0, k) == 0 == Common(k, 0)
  {
  }

  lemma {:induction false} RowSumPrefix(x: seq<real>, y: seq<real>, k: nat, n: nat)
    requires n <= |x| && n <= |y| && x[..n] == y[..n]
    ensures RowSum(x, k, n) == RowSum(y, k, n)
  {
    if n == 0 {
    } else {
      assert x[n - 1] == x[..n][n - 1] == y[n - 1];
      assert x[..n - 1] == x[..n][..n - 1] && y[..n - 1] == y[..n][..n - 1];
      RowSumPrefix(x, y, k, n - 1);
    }
  }

  /** The row of h + k repeats row k over the low lanes. */
  lemma {:induction false} RowSumLow(x: seq<real>, h: nat, k: nat, n: nat)
    requires IsPow2(h) && k < h && n <= h <= |x|
    ensures RowSum(x, h + k, n) == RowSum(x, k, n)
  {
    hide Sign, IsPow2;
    if n == 0 {
    } else {
      RowSumLow(x, h, k, n - 1);
      SignTopBit(h, k, n - 1);
    }
  }

  /** Over the high lanes row k repeats itself, and row h + k is its negative. */
  lemma {:induction false} RowSumHigh(x: seq<real>, h: nat, k: nat, n: nat)
    requires IsPow2(h) && k < h && n <= h && |x| == 2 * h
    ensures RowSum(x, k, h + n) == RowSum(x, k, h) + RowSum(x[h..], k, n)
    ensures RowSum(x, h + k, h + n) == RowSum(x, h + k, h) - RowSum(x[h..], k, n)
  {
    hide Sign, IsPow2;
    if n == 0 {
    } else {
      RowSumHigh(x, h, k, n - 1);
      SignTopBit(h, k, n - 1);
    }
  }

  /** The butterfly is the product with the sign matrix: lane k is the sum over j of
      (-1)^popcount(k & j) * x[j]. */
  lemma {:induction false} TransformIsMatrixProduct(x: seq<real>, k: nat)
    requires IsPow2(|x|) && k < |x|
    ensures Transform(x)[k] == RowSum(x, k, |x|)
    decreases |x|
  {
    hide RowSum, Transform, Mix, Sign;
    if |x| == 1 {
      SingleLane(x);
    } else {
      var h := |x| / 2;
      var t := if k < h then k else k - h;
      assert IsPow2(h) && 2 * h == |x|;
      hide IsPow2;
      TransformIsMatrixProduct(x[..h], t);
      TransformIsMatrixProduct(x[h..], t);
      var low, high := Transform(x[..h]), Transform(x[h..]);
      assert (low + high)[t] == low[t] && (low + high)[t + h] == high[t];
      assert x[..h][..h] == x[..h];
      RowSumPrefix(x[..h], x, t, h);
      RowSumLow(x, h, t, h);
      RowSumHigh(x, h, t, h);
      OneBlock(x, h);
      MixAt(low + high, h, t);
    }
  }

  lemma SingleLane(x: seq<real>)
    requires |x| == 1
    ensures IsPow2(|x|) && Transform(x)[0] == RowSum(x, 0, 1)
  {
    CommonZero(0);
    assert RowSum(x, 0, 1) == RowSum(x, 0, 0) + Sign(0, 0) * x[0];
  }

  // ---- Applied twice ----

  function Blend(c: real, a: real, d: real, b: real): real {
    c * a + d * b
  }

  /** The linear combination c * x + d * y. */
  function Comb(c: real, x: seq<real>, d: real, y: seq<real>): (z: seq<real>)
    requires |x| == |y|
    ensures |z| == |x| && forall i :: 0 <= i < |x| ==> z[i] == Blend(c, x[i], d, y[i])
  {
    seq(|x|, i requires 0 <= i < |x| => Blend(c, x[i], d, y[i]))
  }

  lemma CombConcat(c: real, x: seq<real>, x': seq<real>, d: real, y: seq<real>, y': seq<real>)
    requires |x| == |y| && |x'| == |y'|
    ensures Comb(c, x + x', d, y + y') == Comb(c, x, d, y) + Comb(c, x', d, y')
  {
    hide Blend;
  }

  lemma BlendSums(c: real, a: real, b: real, d: real, e: real, f: real)
    ensures Blend(c, a, d, e) + Blend(c, b, d, f) == Blend(c, a + b, d, e + f)
    ensures Blend(c, a, d, e) - Blend(c, b, d, f) == Blend(c, a - b, d, e - f)
  {
  }

  lemma MixLinear(c: real, p: seq<real>, d: real, q: seq<real>, h: nat)
    requires |p| == |q| == 2 * h
    ensures Mix(Comb(c, p, d, q), h) == Comb(c, Mix(p, h), d, Mix(q, h))
  {
    hide Mix, Blend;
    var z := Mix(Comb(c, p, d, q), h);
    var w := Comb(c, Mix(p, h), d, Mix(q, h));
    forall t | 0 <= t < 2 * h ensures z[t] == w[t] {
      var u := if t < h then t else t - h;
      MixAt(Comb(c, p, d, q), h, u);
      MixAt(p, h, u);
      MixAt(q, h, u);
      BlendSums(c, p[u], p[u + h], d, q[u], q[u + h]);
    }
  }

  /** The transform is linear. */
  lemma {:induction false} TransformLinear(c: real, x: seq<real>, d: real, y: seq<real>)
    requires IsPow2(|x|) && |x| == |y|
    ensures Transform(Comb(c, x, d, y)) == Comb(c, Transform(x), d, Transform(y))
    decreases |x|
  {
    if |x| == 1 {
      OneLaneLinear(c, x, d, y);
    } else {
      var h := |x| / 2;
      assert IsPow2(h) && |x| == 2 * h;
      hide Transform, IsPow2, Comb;
      var x0, x1, y0, y1 := x[..h], x[h..], y[..h], y[h..];
      TransformLinear(c, x0, d, y0);
      TransformLinear(c, x1, d, y1);
      LinearJoined(c, x0, x1, d, y0, y1, h);
      assert x == x0 + x1 && y == y0 + y1;
    }
  }

  lemma OneLaneLinear(c: real, x: seq<real>, d: real, y: seq<real>)
    requires |x| == |y| == 1
    ensures IsPow2(|x|) && Transform(Comb(c, x, d, y)) == Comb(c, Transform(x), d, Transform(y))
  {
    hide Mix, Comb, Blend;
  }

  /** From linearity on both halves to linearity on the whole. */
  lemma LinearJoined(c: real, x0: seq<real>, x1: seq<real>, d: real, y0: seq<real>, y1: seq<real>, h: nat)
    requires IsPow2(h) && IsPow2(2 * h) && |x0| == |x1| == |y0| == |y1| == h
    requires Transform(Comb(c, x0, d, y0)) == Comb(c, Transform(x0), d, Transform(y0))
    requires Transform(Comb(c, x1, d, y1)) == Comb(c, Transform(x1), d, Transform(y1))
    ensures Transform(Comb(c, x0 + x1, d, y0 + y1)) == Comb(c, Transform(x0 + x1), d, Transform(y0 + y1))
  {
    hide Mix, Comb, Transform, IsPow2;
    CombConcat(c, x0, x1, d, y0, y1);
    OneBlockOf(Comb(c, x0, d, y0), Comb(c, x1, d, y1), h);
    OneBlockOf(x0, x1, h);
    OneBlockOf(y0, y1, h);
    CombConcat(c, Transform(x0), Transform(x1), d, Transform(y0), Transform(y1));
    MixLinear(c, Transform(x0) + Transform(x1), d, Transform(y0) + Transform(y1), h);
  }

  lemma OneBlockOf(lo: seq<real>, hi: seq<real>, h: nat)
    requires IsPow2(h) && |lo| == |hi| == h && IsPow2(2 * h)
    ensures Transform(lo + hi) == Mix(Transform(lo) + Transform(hi), h)
  {
    hide Mix, Transform;
    OneBlock(lo + hi, h);
    assert (lo + hi)[..h] == lo && (lo + hi)[h..] == hi;
  }

  function Times(c: real, v: real): real {
    c * v
  }

  function Scale(c: real, x: seq<real>): (y: seq<real>)
    ensures |y| == |x| && forall i :: 0 <= i < |x| ==> y[i] == Times(c, x[i])
  {
    seq(|x|, i requires 0 <= i < |x| => Times(c, x[i]))
  }

  lemma TransformScale(c: real, x: seq<real>)
    requires IsPow2(|x|)
    ensures Transform(Scale(c, x)) == Scale(c, Transform(x))
  {
    hide Transform;
    TransformLinear(c, x, 0.0, x);
    assert Comb(c, x, 0.0, x) == Scale(c, x);
    assert Comb(c, Transform(x), 0.0, Transform(x)) == Scale(c, Transform(x));
  }

  lemma AddSubComb(a: seq<real>, b: seq<real>)
    requires |a| == |b|
    ensures Add(a, b) == Comb(1.0, a, 1.0, b) && Sub(a, b) == Comb(1.0, a, -1.0, b)
    ensures Add(Add(a, b), Sub(a, b)) == Scale(2.0, a) && Sub(Add(a, b), Sub(a, b)) == Scale(2.0, b)
  {
  }

  /** Applied twice the transform multiplies every lane by the length. */
  lemma {:induction false} TransformTwice(x: seq<real>)
    requires IsPow2(|x|)
    ensures Transform(Transform(x)) == Scale(Length(|x|), x)
    decreases |x|
  {
    if |x| == 1 {
      OneLaneTwice(x);
    } else {
      var h := |x| / 2;
      assert IsPow2(h) && |x| == 2 * h;
      hide Transform, IsPow2, Scale, Length;
      var lo, hi := x[..h], x[h..];
      TransformTwice(lo);
      TransformTwice(hi);
      TwiceJoined(lo, hi, h, Length(h));
      assert x == lo + hi;
    }
  }

  lemma OneLaneTwice(x: seq<real>)
    requires |x| == 1
    ensures IsPow2(|x|) && Transform(Transform(x)) == Scale(Length(|x|), x)
  {
    assert Scale(1.0, x) == x;
  }

  /** The length as the factor it becomes. */
  function Length(n: nat): real {
    n as real
  }

  lemma LengthDouble(h: nat)
    ensures Length(2 * h) == 2.0 * Length(h)
  {
  }

  lemma TwiceJoined(lo: seq<real>, hi: seq<real>, h: nat, n: real)
    requires IsPow2(h) && |lo| == |hi| == h && n == Length(h) && IsPow2(2 * h)
    requires Transform(Transform(lo)) == Scale(n, lo) && Transform(Transform(hi)) == Scale(n, hi)
    ensures Transform(Transform(lo + hi)) == Scale(Length(2 * h), lo + hi)
  {
    hide Transform, Scale, IsPow2, Mix, Length;
    OneBlockOf(lo, hi, h);
    TwiceHalves(Transform(lo), Transform(hi), h);
    ScaleTwice(n, lo);
    ScaleTwice(n, hi);
    ScaleConcat(2.0 * n, lo, hi);
    LengthDouble(h);
  }

  lemma TwiceHalves(a: seq<real>, b: seq<real>, h: nat)
    requires IsPow2(h) && |a| == |b| == h && IsPow2(2 * h)
    ensures Transform(Mix(a + b, h)) == Scale(2.0, Transform(a)) + Scale(2.0, Transform(b))
  {
    hide Transform, Comb, IsPow2, Scale, Add, Sub, Mix, Times, Blend;
    MixParts(a, b, h);
    OneBlockOf(Add(a, b), Sub(a, b), h);
    AddSubComb(a, b);
    TransformLinear(1.0, a, 1.0, b);
    TransformLinear(1.0, a, -1.0, b);
    AddSubComb(Transform(a), Transform(b));
    MixParts(Add(Transform(a), Transform(b)), Sub(Transform(a), Transform(b)), h);
  }

  lemma MixParts(a: seq<real>, b: seq<real>, h: nat)
    requires |a| == |b| == h
    ensures Mix(a + b, h) == Add(a, b) + Sub(a, b)
  {
    hide Add, Sub;
    assert (a + b)[..h] == a && (a + b)[h..] == b;
  }

  lemma ScaleTwice(c: real, x: seq<real>)
    ensures Scale(2.0, Scale(c, x)) == Scale(2.0 * c, x)
  {
  }

  lemma ScaleConcat(c: real, x: seq<real>, y: seq<real>)
    ensures Scale(c, x + y) == Scale(c, x) + Scale(c, y)
  {
    hide Times;
  }

  // ---- The rotation ----

  /** sqrt(block) when it is an integer and block a power of two, else 0. */
  function Divisor(block: int): nat {
    if block < 1 || BitAnd(block, block - 1) != 0 then 0 else
      var r := Isqrt(block);
      if Square(r) == block then r else 0
  }

  function Signed(signs: seq<real>, x: seq<real>): (y: seq<real>)
    requires |signs| == |x|
    ensures |y| == |x| && forall i :: 0 <= i < |x| ==> y[i] == signs[i] * x[i]
  {
    seq(|x|, i requires 0 <= i < |x| => signs[i] * x[i])
  }

  function Reciprocal(d: nat): real
    requires d > 0
  {
    1.0 / (d as real)
  }

  /** The rotation of one block; None where the code divides by a zero divisor. */
  function Rotate(x: seq<real>, signs: seq<real>): Option<seq<real>>
    requires IsPow2(|x|) && |signs| == |x|
  {
    var d := Divisor(|x|);
    if d == 0 then None else Some(Scale(Reciprocal(d), Transform(Signed(signs, x))))
  }

  lemma {:induction false} AndSelf(n: nat)
    ensures BitAnd(n, n) == n
  {
    if n == 0 {
    } else {
      AndSelf(n / 2);
    }
  }

  /** n & (n - 1) is zero exactly on powers of two. */
  lemma {:induction false} AndPredecessor(n: nat)
    requires n >= 1
    ensures BitAnd(n, n - 1) == 0 <==> IsPow2(n)
  {
    if n <= 1 {
    } else {
      if n % 2 == 0 {
        assert (n - 1) / 2 == n / 2 - 1;
        AndPredecessor(n / 2);
      } else {
        assert (n - 1) / 2 == n / 2;
        AndSelf(n / 2);
      }
    }
  }

  function Pow4(k: nat): (p: nat)
    ensures p >= 1
  {
    if k == 0 then 1 else 4 * Pow4(k - 1)
  }

  lemma SquareDouble(p: nat)
    ensures Square(2 * p) == 4 * Square(p)
  {
  }

  lemma {:induction false} SquareOfPow2(k: nat)
    ensures Square(Pow2(k)) == Pow4(k) && IsPow2(Pow4(k))
  {
    if k == 0 {
    } else {
      SquareOfPow2(k - 1);
      SquareDouble(Pow2(k - 1));
      hide Square, IsPow2;
      Doubled(Pow4(k - 1));
      Doubled(2 * Pow4(k - 1));
    }
  }

  lemma {:induction false} SquarePowersOfTwo(r: nat) returns (k: nat)
    requires IsPow2(Square(r))
    ensures r == Pow2(k) && Square(r) == Pow4(k)
  {
    if r == 1 {
      k := 0;
    } else {
      hide Square, IsPow2;
      EvenRoot(r);
      k := SquarePowersOfTwo(r / 2);
      k := k + 1;
    }
  }

  lemma EvenRoot(r: nat)
    requires IsPow2(Square(r)) && r != 1
    ensures r > 0 && r % 2 == 0 && IsPow2(Square(r / 2)) && Square(r) == 4 * Square(r / 2)
  {
    assert r > 0;
    if r % 2 == 1 {
      OddSquare(r);
    } else {
      SquareDouble(r / 2);
      PositiveSquare(r / 2);
      hide Square;
      QuarterOfPow2(Square(r / 2));
    }
  }

  lemma PositiveSquare(m: nat)
    requires m > 0
    ensures Square(m) > 0
  {
  }

  lemma OddSquare(r: nat)
    requires r % 2 == 1 && r != 1
    ensures Square(r) % 2 == 1 && Square(r) != 1
  {
    var m := r / 2;
    assert r == 2 * m + 1;
    assert r * r == 2 * (2 * (m * m) + 2 * m) + 1;
  }

  lemma QuarterOfPow2(n: nat)
    requires IsPow2(4 * n) && n > 0
    ensures IsPow2(n)
  {
    assert (4 * n) / 2 == 2 * n && (2 * n) / 2 == n;
  }

  lemma RootUnique(n: nat, r: nat, s: nat)
    requires IsRoot(n, r) && Square(s) == n
    ensures r == s
  {
    if r < s { SquareMonotone(r + 1, s); }
    if s < r { SquareMonotone(s + 1, r); }
  }

  /** The divisor is nonzero exactly on powers of four, where it is the square root: a block
      size of an odd power of two has no integer normalisation. */
  lemma DivisorExact(block: int)
    ensures Divisor(block) > 0 <==> exists k: nat :: block == Pow4(k)
    ensures Divisor(block) > 0 ==> Divisor(block) * Divisor(block) == block
    ensures forall k: nat :: block == Pow4(k) ==> Divisor(block) == Pow2(k)
  {
    hide BitAnd, Isqrt, IsRoot, IsPow2, Pow4, Pow2, Square;
    if block >= 1 {
      AndPredecessor(block);
      if Divisor(block) > 0 {
        var k := SquarePowersOfTwo(Divisor(block));
        DivisorSquare(block);
      }
      forall k: nat | block == Pow4(k) ensures Divisor(block) == Pow2(k) > 0 {
        SquareOfPow2(k);
        RootUnique(block, Isqrt(block), Pow2(k));
      }
    } else {
      forall k: nat ensures block != Pow4(k) {}
    }
  }

  lemma DivisorSquare(block: int)
    requires Divisor(block) > 0
    ensures Divisor(block) * Divisor(block) == block
  {
    hide BitAnd, Isqrt;
  }

  function AllOnes(n: nat): seq<real> {
    seq(n, _ => 1.0)
  }

  ghost predicate PlusMinus(signs: seq<real>) {
    forall i :: 0 <= i < |signs| ==> signs[i] == 1.0 || signs[i] == -1.0
  }

  /** Wherever the rotation is defined, rotating with identity signs undoes it up to the signs:
      rotate, rotate back, and apply the (+1/-1) signs again gives the input. */
  lemma RotationInverse(x: seq<real>, signs: seq<real>)
    requires IsPow2(|x|) && |signs| == |x| && Divisor(|x|) > 0 && PlusMinus(signs)
    ensures Rotate(x, signs).Some? && |Rotate(x, signs).value| == |x|
    ensures var back := Rotate(Rotate(x, signs).value, AllOnes(|x|));
      back.Some? && |back.value| == |x| && Signed(signs, back.value) == x
  {
    hide Rotate, Transform, Divisor, IsPow2, Scale, Signed, PlusMinus, AllOnes, Reciprocal, Length, Times;
    var c := Reciprocal(Divisor(|x|));
    var z := Signed(signs, x);
    var y := Scale(c, Transform(z));
    RotateIs(x, signs);
    SignedOnes(y);
    RotateIs(y, AllOnes(|x|));
    SignedTwice(signs, x);
    ReciprocalSquared(|x|);
    Undo(z, c, Length(|x|));
  }

  /** What the rotation computes: each lane, times the positive root of the length, is the row of the
      sign matrix times the signed input. */
  lemma RotationValue(x: seq<real>, signs: seq<real>, k: nat)
    requires IsPow2(|x|) && |signs| == |x| && Divisor(|x|) > 0 && k < |x|
    ensures Rotate(x, signs).Some? && |Rotate(x, signs).value| == |x|
    ensures Rotate(x, signs).value[k] * (Divisor(|x|) as real) == RowSum(Signed(signs, x), k, |x|)
    ensures Divisor(|x|) * Divisor(|x|) == |x|
  {
    hide Rotate, Transform, Divisor, IsPow2, Signed, RowSum, Reciprocal;
    var z := Signed(signs, x);
    RotateIs(x, signs);
    TransformIsMatrixProduct(z, k);
    DivisorSquare(|x|);
    TimesRoot(Transform(z)[k], Divisor(|x|));
  }

  lemma TimesRoot(v: real, d: nat)
    requires d > 0
    ensures Times(Reciprocal(d), v) * (d as real) == v
  {
    assert (1.0 / (d as real)) * (d as real) == 1.0;
    assert ((1.0 / (d as real)) * v) * (d as real) == ((1.0 / (d as real)) * (d as real)) * v;
  }

  lemma RotateIs(x: seq<real>, signs: seq<real>)
    requires IsPow2(|x|) && |signs| == |x| && Divisor(|x|) > 0
    ensures Rotate(x, signs) == Some(Scale(Reciprocal(Divisor(|x|)), Transform(Signed(signs, x))))
  {
    hide Transform, Divisor, IsPow2, Scale, Signed, Reciprocal;
  }

  lemma ReciprocalSquared(n: nat)
    requires Divisor(n) > 0
    ensures var c := Reciprocal(Divisor(n)); Times(c, Times(c, Length(n))) == 1.0
  {
    hide Divisor, Reciprocal;
    DivisorSquare(n);
    InverseScale(Reciprocal(Divisor(n)), Divisor(n), n);
  }

  lemma Undo(z: seq<real>, c: real, n: real)
    requires IsPow2(|z|) && n == Length(|z|) && Times(c, Times(c, n)) == 1.0
    ensures Scale(c, Transform(Scale(c, Transform(z)))) == z
  {
    hide Transform, Scale, IsPow2, Length, Times;
    TransformScale(c, Transform(z));
    TransformTwice(z);
    ScaleBack(c, n, z);
  }

  lemma SignedOnes(y: seq<real>)
    ensures |AllOnes(|y|)| == |y| && Signed(AllOnes(|y|), y) == y
  {
  }

  lemma SignedTwice(signs: seq<real>, x: seq<real>)
    requires |signs| == |x| && PlusMinus(signs)
    ensures Signed(signs, Signed(signs, x)) == x
  {
  }

  lemma ScaleBack(c: real, n: real, z: seq<real>)
    requires Times(c, Times(c, n)) == 1.0
    ensures Scale(c, Scale(c, Scale(n, z))) == z
  {
    var y := Scale(c, Scale(c, Scale(n, z)));
    hide Scale;
    forall i | 0 <= i < |z| ensures y[i] == z[i] {
      Cancel(c, n, z[i]);
    }
  }

  lemma InverseScale(c: real, d: nat, n: nat)
    requires d > 0 && d * d == n && c == Reciprocal(d)
    ensures c * (c * (n as real)) == 1.0
  {
    assert n as real == (d as real) * (d as real);
    assert c * (d as real) == 1.0;
    assert c * (n as real) == (c * (d as real)) * (d as real);
  }

  lemma Cancel(c: real, n: real, v: real)
    requires c * (c * n) == 1.0
    ensures Times(c, Times(c, Times(n, v))) == v
  {
    assert c * (n * v) == (c * n) * v;
    assert c * ((c * n) * v) == (c * (c * n)) * v;
  }

  /** With identity signs the rotation is its own inverse over the rationals. */
  lemma RotationInvolution(x: seq<real>)
    requires IsPow2(|x|) && Divisor(|x|) > 0
    ensures Rotate(x, AllOnes(|x|)).Some?
    ensures var y := Rotate(x, AllOnes(|x|)).value;
      |y| == |x| && Rotate(y, AllOnes(|y|)) == Some(x)
  {
    hide Transform, Divisor, IsPow2, Scale, Times, Rotate;
    RotationInverse(x, AllOnes(|x|));
    SignedOnes(Rotate(Rotate(x, AllOnes(|x|)).value, AllOnes(|x|)).value);
  }
}
