/** The rotate-xor checksum of a list of 64-bit words, and the closed form that needs no running
    value: the xor of the words, each rotated by its distance from the end. */
module RotXor {
  import opened Bits

  predicate Words(hs: seq<seq<bool>>) {
    forall i :: 0 <= i < |hs| ==> |hs[i]| == 64
  }

  /** chk = rotl(chk, 1) xor word, from zero. */
  function Checksum(hs: seq<seq<bool>>): (c: seq<bool>)
    requires Words(hs)
    ensures |c| == 64
  {
    if hs == [] then Zeroes(64) else Xor(RotL(Checksum(hs[..|hs| - 1]), 1), hs[|hs| - 1])
  }

  /** How far word i of n is turned. */
  function Turns(i: nat, n: nat): (t: nat)
    requires i < n
    ensures t < 64
  {
    (n - 1 - i) % 64
  }

  lemma MoreTurns(i: nat, n: nat)
    requires i < n
    ensures (Turns(i, n) + 1) % 64 == Turns(i, n + 1)
  {
  }

  lemma NoTurns(n: nat)
    ensures Turns(n, n + 1) == 0
  {
  }

  /** Word i of n as the closed form takes it. */
  function Turned(hs: seq<seq<bool>>, i: nat, n: nat): (h: seq<bool>)
    requires Words(hs) && i < |hs| && i < n
    ensures |h| == 64
  {
    RotL(hs[i], Turns(i, n))
  }

  /** The xor of the first k words, each turned for a list of n. */
  function TurnedXor(hs: seq<seq<bool>>, k: nat, n: nat): (c: seq<bool>)
    requires Words(hs) && k <= |hs| && k <= n
    ensures |c| == 64
  {
    if k == 0 then Zeroes(64) else Xor(TurnedXor(hs, k - 1, n), Turned(hs, k - 1, n))
  }

  lemma NoTurn(x: seq<bool>)
    requires |x| == 64
    ensures RotL(x, 0) == x
  {
  }

  lemma ZeroTurns(n: nat)
    ensures RotL(Zeroes(64), n) == Zeroes(64)
  {
  }

  lemma TurnedMore(hs: seq<seq<bool>>, i: nat, n: nat)
    requires Words(hs) && i < |hs| && i < n
    ensures RotL(Turned(hs, i, n), 1) == Turned(hs, i, n + 1)
  {
    hide RotL, Turns;
    RotateMore(hs[i], Turns(i, n), 1);
    MoreTurns(i, n);
  }

  /** One more word in the list turns every earlier word one place further. */
  lemma {:induction false} TurnOnce(hs: seq<seq<bool>>, k: nat, n: nat)
    requires Words(hs) && k <= |hs| && k <= n
    ensures RotL(TurnedXor(hs, k, n), 1) == TurnedXor(hs, k, n + 1)
    decreases k
  {
    hide RotL, Xor, Turned;
    if k == 0 {
      ZeroTurns(1);
    } else {
      TurnOnce(hs, k - 1, n);
      RotateXor(TurnedXor(hs, k - 1, n), Turned(hs, k - 1, n), 1);
      TurnedMore(hs, k - 1, n);
    }
  }

  lemma {:induction false} TurnedPrefix(hs: seq<seq<bool>>, all: seq<seq<bool>>, k: nat, n: nat)
    requires Words(hs) && Words(all) && k <= |hs| <= |all| && all[..|hs|] == hs && k <= n
    ensures TurnedXor(hs, k, n) == TurnedXor(all, k, n)
    decreases k
  {
    hide RotL, Xor;
    if k == 0 {
    } else {
      assert hs[k - 1] == all[..|hs|][k - 1] == all[k - 1];
      TurnedPrefix(hs, all, k - 1, n);
    }
  }

  /** The loop and the closed form agree on every list. */
  lemma {:induction false} ChecksumIsTurnedXor(hs: seq<seq<bool>>)
    requires Words(hs)
    ensures Checksum(hs) == TurnedXor(hs, |hs|, |hs|)
    decreases |hs|
  {
    hide RotL, Xor;
    if hs == [] {
    } else {
      var n := |hs| - 1;
      var front := hs[..n];
      assert Words(front);
      ChecksumIsTurnedXor(front);
      TurnOnce(front, n, n);
      TurnedPrefix(front, hs, n, n + 1);
      NoTurn(hs[n]);
      hide Turned;
      assert Turned(hs, n, n + 1) == hs[n] by { LastTurn(hs, n); }
    }
  }

  lemma LastTurn(hs: seq<seq<bool>>, n: nat)
    requires Words(hs) && |hs| == n + 1
    ensures Turned(hs, n, n + 1) == hs[n]
  {
    hide RotL, Turns;
    NoTurns(n);
    NoTurn(hs[n]);
  }

  /** The closed form, reducing the turned words from the left. */
  method TurnedReduce(hs: seq<seq<bool>>) returns (chk: seq<bool>)
    requires Words(hs)
    ensures chk == Checksum(hs)
  {
    hide RotL, Xor, Checksum, Turns, Or, Shl, Shr;
    chk := Zeroes(64);
    for i := 0 to |hs|
      invariant |chk| == 64 && chk == TurnedXor(hs, i, |hs|)
    {
      var rot := Turns(i, |hs|);
      RotationByShifts(hs[i], rot);
      var turned := if rot == 0 then hs[i] else Or(Shl(hs[i], rot), Shr(hs[i], 64 - rot));
      chk := Xor(chk, turned);
    }
    ChecksumIsTurnedXor(hs);
  }
}
