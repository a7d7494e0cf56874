/** Layouts of a block-RAM word: how many trits some bits hold, every way to split a word into
    groups that reaches the bound, and the decoder of a layout. */
module BramLayout {
  import opened Arithmetic
  import opened Digits

  /** n is the most trits that fit in some bits: 3^n <= 2^bits < 3^(n+1). */
  ghost predicate MostTrits(bits: nat, n: nat) {
    Pow(3, n) <= Pow(2, bits) < Pow(3, n + 1)
  }

  function Fits(n: nat, bits: nat): bool {
    Pow(3, n) <= Pow(2, bits)
  }

  lemma PowGrows(b: nat, n: nat)
    requires b >= 2
    ensures n < Pow(b, n) && Pow(b, n) < Pow(b, n + 1)
  {
    if n > 0 {
      PowGrows(b, n - 1);
      MulOrder(Pow(b, n), 2, b);
    }
  }

  lemma {:induction false} PowMonotone(b: nat, m: nat, n: nat)
    requires b >= 2 && m <= n
    ensures Pow(b, m) <= Pow(b, n)
    decreases n
  {
    if m >= n {
    } else {
      PowMonotone(b, m, n - 1);
      PowGrows(b, n - 1);
    }
  }

  /** nstar from whatever start the floating-point estimate gives. */
  method NStarFrom(bits: nat, start: nat) returns (n: nat)
    ensures n == NStar(bits)
  {
    hide Pow;
    n := start;
    PowZero();
    while Fits(n + 1, bits)
      decreases Pow(2, bits) - n
    {
      PowGrows(3, n + 1);
      n := n + 1;
    }
    PowMonotone(2, 0, bits);
    while !Fits(n, bits)
      invariant !Fits(n + 1, bits)
      decreases n
    {
      n := n - 1;
    }
    assert Pow(3, n) <= Pow(2, bits) < Pow(3, n + 1);
    NStarUnique(bits, n);
  }

  lemma PowZero()
    ensures forall b :: Pow(b, 0) == 1
  {
  }

  /** The bound itself. */
  function NStar(bits: nat): (n: nat)
    ensures MostTrits(bits, n)
  {
    if bits == 0 then 0 else
      var n := NStar(bits - 1);
      NStarStep(bits, n);
      hide Pow;
      if Fits(n + 1, bits) then n + 1 else n
  }

  lemma NStarStep(bits: nat, n: nat)
    requires bits > 0 && MostTrits(bits - 1, n)
    ensures MostTrits(bits, if Fits(n + 1, bits) then n + 1 else n)
  {
    assert Pow(3, n + 2) == 3 * Pow(3, n + 1);
    assert Pow(2, bits) == 2 * Pow(2, bits - 1);
  }

  lemma NStarUnique(bits: nat, n: nat)
    requires MostTrits(bits, n)
    ensures n == NStar(bits)
  {
    hide Pow;
    var m := NStar(bits);
    if m < n {
      PowMonotone(3, m + 1, n);
    } else if n < m {
      PowMonotone(3, n + 1, m);
    }
  }

  /** Two groups never hold more than their bits together could. */
  lemma Superadditive(a: nat, b: nat)
    ensures NStar(a) + NStar(b) <= NStar(a + b)
  {
    hide Pow, NStar;
    var m, n, k := NStar(a), NStar(b), NStar(a + b);
    PowAdd(3, m, n);
    PowAdd(2, a, b);
    MulOrder(Pow(3, m), Pow(3, n), Pow(2, b));
    MulOrder(Pow(2, b), Pow(3, m), Pow(2, a));
    if m + n > k {
      PowMonotone(3, k + 1, m + n);
    }
  }

  // ---- Layouts ----

  function SumBits(groups: seq<nat>): nat {
    if groups == [] then 0 else groups[0] + SumBits(groups[1..])
  }

  function SumTrits(groups: seq<nat>): nat {
    if groups == [] then 0 else NStar(groups[0]) + SumTrits(groups[1..])
  }

  /** No layout beats the bound of its whole width. */
  lemma {:induction false} LayoutBound(groups: seq<nat>)
    ensures SumTrits(groups) <= NStar(SumBits(groups))
  {
    hide NStar;
    if groups == [] {
    } else {
      LayoutBound(groups[1..]);
      Superadditive(groups[0], SumBits(groups[1..]));
    }
  }

  /** A group size worth using: one bit less would hold fewer trits. */
  predicate Useful(b: nat) {
    2 <= b <= 16 && NStar(b) > NStar(b - 1)
  }

  /** A nondecreasing list of useful sizes, none below `low`, that fills `rest` bits. */
  predicate Fills(groups: seq<nat>, low: nat, rest: nat) {
    if groups == [] then rest == 0
    else low <= groups[0] <= rest && Useful(groups[0]) && Fills(groups[1..], groups[0], rest - groups[0])
  }

  /** Such a list has exactly those bits. */
  lemma {:induction false} FillsSum(groups: seq<nat>, low: nat, rest: nat)
    requires Fills(groups, low, rest)
    ensures SumBits(groups) == rest
  {
    hide Useful;
    if groups == [] {
    } else {
      FillsSum(groups[1..], groups[0], rest - groups[0]);
    }
  }

  function Reversed(s: seq<nat>): (r: seq<nat>)
    ensures |r| == |s| && forall i :: 0 <= i < |r| ==> r[i] == s[|s| - 1 - i]
  {
    seq(|s|, i requires 0 <= i < |s| => s[|s| - 1 - i])
  }

  /** A layout of a word: useful sizes, larger first, that fill it and reach its bound. */
  predicate Layout(groups: seq<nat>, width: nat) {
    Fills(Reversed(groups), 0, width) && SumTrits(Reversed(groups)) == NStar(width)
  }

  /** The layouts whose sizes begin, smallest first, with those chosen so far. */
  ghost predicate Completes(groups: seq<nat>, chosen: seq<nat>, low: nat, rest: nat, target: nat) {
    exists ext :: Fills(ext, low, rest) && groups == Reversed(chosen + ext) && SumTrits(chosen + ext) == target
  }

  class Search {
    const sizes: seq<nat>
    const target: nat
    var found: set<seq<nat>>

    ghost predicate Sizes() {
      (forall b :: b in sizes <==> Useful(b)) && forall k :: 0 <= k < |sizes| ==> Useful(sizes[k])
    }

    constructor (width: nat)
      ensures Sizes() && target == NStar(width) && found == {}
    {
      hide NStar;
      var list: seq<nat> := [];
      for b := 2 to 17
        invariant forall c: nat :: c in list <==> Useful(c) && c < b
      {
        if NStar(b) > NStar(b - 1) {
          list := list + [b];
        }
      }
      sizes := list;
      target := NStar(width);
      found := {};
    }

    /** walk: the set grows by exactly the layouts that complete the sizes chosen so far. */
    method Walk(rest: nat, low: nat, chosen: seq<nat>)
      requires Sizes()
      modifies this
      ensures forall g :: g in found <==> g in old(found) || Completes(g, chosen, low, rest, target)
      decreases rest
    {
      hide Fills, SumTrits, Useful, NStar;
      if rest == 0 {
        DoneCompletes(chosen, low, target);
        if SumTrits(chosen) == target {
          found := found + {Reversed(chosen)};
        }
        return;
      }
      ghost var was := found;
      for k := 0 to |sizes|
        invariant forall g :: g in found <==> g in was || CompletesWith(g, chosen, low, rest, target, sizes[..k])
      {
        var b := sizes[k];
        ghost var before := found;
        if low <= b <= rest {
          UsefulPositive(b);
          Walk(rest - b, b, chosen + [b]);
        }
        forall g ensures CompletesWith(g, chosen, low, rest, target, sizes[..k + 1])
          <==> (CompletesWith(g, chosen, low, rest, target, sizes[..k])
                || (low <= b <= rest && Completes(g, chosen + [b], b, rest - b, target)))
        {
          OneMoreSize(g, chosen, low, rest, target, sizes, k);
        }
      }
      forall g ensures Completes(g, chosen, low, rest, target) <==> CompletesWith(g, chosen, low, rest, target, sizes) {
        AnySize(g, chosen, low, rest, target, sizes);
      }
      assert sizes[..|sizes|] == sizes;
    }
  }

  lemma UsefulPositive(b: nat)
    requires Useful(b)
    ensures b > 0
  {
  }

  /** With nothing left to fill, only the chosen sizes themselves complete. */
  lemma DoneCompletes(chosen: seq<nat>, low: nat, target: nat)
    ensures forall g :: Completes(g, chosen, low, 0, target) <==> g == Reversed(chosen) && SumTrits(chosen) == target
  {
    hide SumTrits, Useful;
    assert chosen + [] == chosen;
    assert Fills([], low, 0);
    forall g | Completes(g, chosen, low, 0, target) ensures g == Reversed(chosen) && SumTrits(chosen) == target {
      var ext :| Fills(ext, low, 0) && g == Reversed(chosen + ext) && SumTrits(chosen + ext) == target;
      NothingFills(ext, low);
    }
    forall g | g == Reversed(chosen) && SumTrits(chosen) == target ensures Completes(g, chosen, low, 0, target) {
      assert g == Reversed(chosen + []);
    }
  }

  lemma NothingFills(ext: seq<nat>, low: nat)
    requires Fills(ext, low, 0)
    ensures ext == []
  {
  }

  /** Completed by a list that begins with one of some sizes. */
  ghost predicate CompletesWith(g: seq<nat>, chosen: seq<nat>, low: nat, rest: nat, target: nat, sizes: seq<nat>) {
    exists k :: 0 <= k < |sizes| && low <= sizes[k] <= rest
      && Completes(g, chosen + [sizes[k]], sizes[k], rest - sizes[k], target)
  }

  lemma OneMoreSize(g: seq<nat>, chosen: seq<nat>, low: nat, rest: nat, target: nat, sizes: seq<nat>, k: nat)
    requires k < |sizes|
    ensures CompletesWith(g, chosen, low, rest, target, sizes[..k + 1])
      <==> CompletesWith(g, chosen, low, rest, target, sizes[..k])
           || (low <= sizes[k] <= rest && Completes(g, chosen + [sizes[k]], sizes[k], rest - sizes[k], target))
  {
    hide Completes;
    var less, more := sizes[..k], sizes[..k + 1];
    assert more[k] == sizes[k];
    forall j | 0 <= j < k ensures less[j] == more[j] {}
    if CompletesWith(g, chosen, low, rest, target, less) {
      var j :| 0 <= j < |less| && low <= less[j] <= rest
        && Completes(g, chosen + [less[j]], less[j], rest - less[j], target);
      assert more[j] == less[j];
    }
    if CompletesWith(g, chosen, low, rest, target, more) {
      var j :| 0 <= j < |more| && low <= more[j] <= rest
        && Completes(g, chosen + [more[j]], more[j], rest - more[j], target);
      assert j < k ==> less[j] == more[j];
    }
  }

  /** With bits left to fill, a completion begins with some useful size. */
  lemma AnySize(g: seq<nat>, chosen: seq<nat>, low: nat, rest: nat, target: nat, sizes: seq<nat>)
    requires rest > 0 && (forall b :: b in sizes <==> Useful(b)) && forall k :: 0 <= k < |sizes| ==> Useful(sizes[k])
    ensures Completes(g, chosen, low, rest, target) <==> CompletesWith(g, chosen, low, rest, target, sizes)
  {
    hide SumTrits, Useful, Reversed;
    if Completes(g, chosen, low, rest, target) {
      var ext :| Fills(ext, low, rest) && g == Reversed(chosen + ext) && SumTrits(chosen + ext) == target;
      var k :| 0 <= k < |sizes| && sizes[k] == ext[0];
      assert chosen + [ext[0]] + ext[1..] == chosen + ext;
      assert Completes(g, chosen + [sizes[k]], sizes[k], rest - sizes[k], target);
    }
    if CompletesWith(g, chosen, low, rest, target, sizes) {
      var k :| 0 <= k < |sizes| && low <= sizes[k] <= rest
        && Completes(g, chosen + [sizes[k]], sizes[k], rest - sizes[k], target);
      var ext :| Fills(ext, sizes[k], rest - sizes[k]) && g == Reversed(chosen + [sizes[k]] + ext)
        && SumTrits(chosen + [sizes[k]] + ext) == target;
      var whole := [sizes[k]] + ext;
      assert whole[1..] == ext;
      assert Fills(whole, low, rest);
      assert chosen + whole == chosen + [sizes[k]] + ext;
    }
  }

  /** layouts: exactly the layouts of the word. */
  method Layouts(width: nat) returns (found: set<seq<nat>>)
    ensures forall g :: g in found <==> Layout(g, width)
  {
    hide Fills, SumTrits, NStar, Useful;
    var search := new Search(width);
    search.Walk(width, 0, []);
    found := search.found;
    forall g ensures Completes(g, [], 0, width, NStar(width)) <==> Layout(g, width) {
      CompletesNothing(g, width);
    }
  }

  lemma CompletesNothing(g: seq<nat>, width: nat)
    ensures Completes(g, [], 0, width, NStar(width)) <==> Layout(g, width)
  {
    hide Fills, SumTrits, NStar;
    assert Reversed(Reversed(g)) == g;
    assert [] + Reversed(g) == Reversed(g);
    if Completes(g, [], 0, width, NStar(width)) {
      var ext :| Fills(ext, 0, width) && g == Reversed([] + ext) && SumTrits([] + ext) == NStar(width);
      assert [] + ext == ext && Reversed(g) == ext;
    }
  }
}
