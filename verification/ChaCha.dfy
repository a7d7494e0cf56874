/** The ChaCha20 block function and stream of RFC 8439, sections 2.1 to 2.4. A word is its 32 bits,
    bit 0 first; the code also lets a block counter of more than 32 bits into the working state, where
    it stays wide until its first rotation. */
module ChaCha {
  import opened Digits
  import opened Bits

  // ---- Words ----

  /** A number modulo 2^32 as a word. */
  function Word(n: nat): (w: seq<bool>)
    ensures |w| == 32
  {
    ToBits(n % 0x1_0000_0000, 32)
  }

  function Plus(a: seq<bool>, b: seq<bool>): (c: seq<bool>)
    ensures |c| == 32
  {
    Word(FromBits(a) + FromBits(b))
  }

  function Minus(a: seq<bool>, b: seq<bool>): (c: seq<bool>)
    ensures |c| == 32
  {
    Word(Difference(FromBits(a), FromBits(b)))
  }

  /** a - b, borrowing 2^32 where it must. */
  function Difference(a: nat, b: nat): nat {
    if b <= a then a - b else if b <= a + 0x1_0000_0000 then a + 0x1_0000_0000 - b else 0
  }

  lemma BackAndForth(a: nat, b: nat)
    requires a < 0x1_0000_0000 && b < 0x1_0000_0000
    ensures Difference((a + b) % 0x1_0000_0000, b) % 0x1_0000_0000 == a
    ensures (Difference(a, b) % 0x1_0000_0000 + b) % 0x1_0000_0000 == a
  {
    if a + b < 0x1_0000_0000 {
      assert (a + b) % 0x1_0000_0000 == a + b;
    } else {
      assert (a + b) % 0x1_0000_0000 == a + b - 0x1_0000_0000;
    }
    assert Difference(a, b) % 0x1_0000_0000 == Difference(a, b);
  }

  lemma WordOf(w: seq<bool>)
    requires |w| == 32
    ensures FromBits(w) < 0x1_0000_0000 && Word(FromBits(w)) == w
  {
    hide FromBits, ToBits, Pow;
    Pow2To32();
    ToFromBits(w);
  }

  lemma NumberOf(n: nat)
    ensures FromBits(Word(n)) == n % 0x1_0000_0000
  {
    hide FromBits, ToBits, Pow;
    Pow2To32();
    FromToBits(n % 0x1_0000_0000, 32);
  }

  lemma PlusMinus(a: seq<bool>, b: seq<bool>)
    requires |a| == 32 && |b| == 32
    ensures Minus(Plus(a, b), b) == a && Plus(Minus(a, b), b) == a
  {
    hide FromBits, Word, Difference;
    WordOf(a);
    WordOf(b);
    var m, n := FromBits(a), FromBits(b);
    NumberOf(m + n);
    NumberOf(Difference(m, n));
    BackAndForth(m, n);
    SameWord(Difference((m + n) % 0x1_0000_0000, n), m);
    SameWord(Difference(m, n) % 0x1_0000_0000 + n, m);
  }

  lemma SameWord(m: nat, n: nat)
    requires m % 0x1_0000_0000 == n % 0x1_0000_0000
    ensures Word(m) == Word(n)
  {
  }

  /** a ^ b of any widths. */
  function XorWide(a: seq<bool>, b: seq<bool>): (c: seq<bool>)
    ensures |c| == if |a| < |b| then |b| else |a|
    ensures forall i :: 0 <= i < |c| ==> c[i] == (Bit(a, i) != Bit(b, i))
  {
    seq(if |a| < |b| then |b| else |a|, i requires 0 <= i => Bit(a, i) != Bit(b, i))
  }

  /** The low 32 bits of (w << n) | (w >> (32 - n)), for w of any width. */
  function Rotl(w: seq<bool>, n: nat): (c: seq<bool>)
    ensures |c| == 32 && forall i :: 0 <= i < 32 ==> c[i] == (Bit(w, i - n) || Bit(w, i + 32 - n))
  {
    seq(32, i requires 0 <= i < 32 => Bit(w, i - n) || Bit(w, i + 32 - n))
  }

  lemma RotlAt(w: seq<bool>, n: nat, i: nat)
    requires |w| == 32 && n <= 32 && i < 32
    ensures Rotl(w, n)[i] == if i < n then w[i + 32 - n] else w[i - n]
  {
  }

  lemma RotlBack(w: seq<bool>, n: nat)
    requires |w| == 32 && n <= 32
    ensures Rotl(Rotl(w, n), 32 - n) == w
  {
    hide Rotl;
    var r := Rotl(w, n);
    forall i: nat | i < 32 ensures Rotl(r, 32 - n)[i] == w[i] {
      RotlAt(r, 32 - n, i);
      if i < 32 - n {
        RotlAt(w, n, i + n);
      } else {
        RotlAt(w, n, i - (32 - n));
      }
    }
  }

  lemma XorTwice(a: seq<bool>, b: seq<bool>)
    requires |a| == |b|
    ensures Xor(Xor(a, b), b) == a
  {
  }

  lemma XorWideTwice(a: seq<bool>, b: seq<bool>)
    requires |a| == |b|
    ensures XorWide(XorWide(a, b), b) == a
  {
  }

  // ---- The quarter round ----

  predicate Words32(x: seq<seq<bool>>) {
    forall i :: 0 <= i < |x| ==> |x[i]| == 32
  }

  /** One addition, xor and rotation: x[a] += x[b]; x[d] = (x[d] ^ x[a]) <<< n. */
  function Turn(x: seq<seq<bool>>, a: nat, b: nat, d: nat, n: nat): (y: seq<seq<bool>>)
    requires a < |x| && b < |x| && d < |x|
    ensures |y| == |x| && (Words32(x) ==> Words32(y))
  {
    var sum := x[a := Plus(x[a], x[b])];
    sum[d := Rotl(XorWide(sum[d], sum[a]), n)]
  }

  function UnTurn(y: seq<seq<bool>>, a: nat, b: nat, d: nat, n: nat): (x: seq<seq<bool>>)
    requires a < |y| && b < |y| && d < |y| && n <= 32
    ensures |x| == |y| && (Words32(y) ==> Words32(x))
  {
    var turned := y[d := XorWide(Rotl(y[d], 32 - n), y[a])];
    turned[a := Minus(turned[a], turned[b])]
  }

  lemma TurnInverts(x: seq<seq<bool>>, a: nat, b: nat, d: nat, n: nat)
    requires Words32(x) && a < |x| && b < |x| && d < |x| && n <= 32 && a != b && b != d && a != d
    ensures UnTurn(Turn(x, a, b, d, n), a, b, d, n) == x
    ensures Turn(UnTurn(x, a, b, d, n), a, b, d, n) == x
  {
    hide Plus, Minus, Rotl, XorWide;
    PlusMinus(x[a], x[b]);
    var sum := Plus(x[a], x[b]);
    RotlBack(XorWide(x[d], sum), n);
    XorWideTwice(x[d], sum);
    RotlBack(x[d], 32 - n);
    XorWideTwice(Rotl(x[d], 32 - n), x[a]);
  }

  type Four = (nat, nat, nat, nat)

  ghost predicate Distinct(q: Four) {
    && q.0 < 16 && q.1 < 16 && q.2 < 16 && q.3 < 16
    && q.0 != q.1 && q.0 != q.2 && q.0 != q.3 && q.1 != q.2 && q.1 != q.3 && q.2 != q.3
  }

  function Quarter(x: seq<seq<bool>>, q: Four): (y: seq<seq<bool>>)
    requires |x| == 16 && q.0 < 16 && q.1 < 16 && q.2 < 16 && q.3 < 16
    ensures |y| == 16 && (Words32(x) ==> Words32(y))
  {
    Turn(Turn(Turn(Turn(x, q.0, q.1, q.3, 16), q.2, q.3, q.1, 12), q.0, q.1, q.3, 8), q.2, q.3, q.1, 7)
  }

  function UnQuarter(y: seq<seq<bool>>, q: Four): (x: seq<seq<bool>>)
    requires |y| == 16 && q.0 < 16 && q.1 < 16 && q.2 < 16 && q.3 < 16
    ensures |x| == 16 && (Words32(y) ==> Words32(x))
  {
    UnTurn(UnTurn(UnTurn(UnTurn(y, q.2, q.3, q.1, 7), q.0, q.1, q.3, 8), q.2, q.3, q.1, 12), q.0, q.1, q.3, 16)
  }

  lemma QuarterInverts(x: seq<seq<bool>>, q: Four)
    requires Words32(x) && |x| == 16 && Distinct(q)
    ensures UnQuarter(Quarter(x, q), q) == x && Quarter(UnQuarter(x, q), q) == x
  {
    hide Turn, UnTurn, Words32;
    var t1 := Turn(x, q.0, q.1, q.3, 16);
    var t2 := Turn(t1, q.2, q.3, q.1, 12);
    var t3 := Turn(t2, q.0, q.1, q.3, 8);
    TurnInverts(x, q.0, q.1, q.3, 16);
    TurnInverts(t1, q.2, q.3, q.1, 12);
    TurnInverts(t2, q.0, q.1, q.3, 8);
    TurnInverts(t3, q.2, q.3, q.1, 7);
    var u1 := UnTurn(x, q.2, q.3, q.1, 7);
    var u2 := UnTurn(u1, q.0, q.1, q.3, 8);
    var u3 := UnTurn(u2, q.2, q.3, q.1, 12);
    TurnInverts(x, q.2, q.3, q.1, 7);
    TurnInverts(u1, q.0, q.1, q.3, 8);
    TurnInverts(u2, q.2, q.3, q.1, 12);
    TurnInverts(u3, q.0, q.1, q.3, 16);
  }

  // ---- The rounds ----

  /** A column round and a diagonal round. */
  const QUARTERS: seq<Four> := [(0, 4, 8, 12), (1, 5, 9, 13), (2, 6, 10, 14), (3, 7, 11, 15),
                                (0, 5, 10, 15), (1, 6, 11, 12), (2, 7, 8, 13), (3, 4, 9, 14)]

  /** Which quarter round is number k of all. */
  function QuarterAt(k: nat): (q: Four)
    ensures q.0 < 16 && q.1 < 16 && q.2 < 16 && q.3 < 16
  {
    QUARTERS[k % 8]
  }

  lemma QuartersDistinct(k: nat)
    ensures Distinct(QuarterAt(k))
  {
  }

  /** The first n quarter rounds. */
  function Rounds(x: seq<seq<bool>>, n: nat): (y: seq<seq<bool>>)
    requires |x| == 16
    ensures |y| == 16 && (Words32(x) ==> Words32(y))
  {
    hide Quarter, QuarterAt, Words32;
    if n == 0 then x else Quarter(Rounds(x, n - 1), QuarterAt(n - 1))
  }

  function UnRounds(y: seq<seq<bool>>, n: nat): (x: seq<seq<bool>>)
    requires |y| == 16
    ensures |x| == 16 && (Words32(y) ==> Words32(x))
    decreases n
  {
    hide UnQuarter, QuarterAt, Words32;
    if n == 0 then y else UnRounds(UnQuarter(y, QuarterAt(n - 1)), n - 1)
  }

  /** The rounds permute the states: each has exactly one state they come from. */
  lemma {:induction false} RoundsPermute(x: seq<seq<bool>>, n: nat)
    requires Words32(x) && |x| == 16
    ensures UnRounds(Rounds(x, n), n) == x && Rounds(UnRounds(x, n), n) == x
    decreases n
  {
    hide Quarter, UnQuarter, Words32, QuarterAt, Distinct;
    if n == 0 {
    } else {
      var q := QuarterAt(n - 1);
      QuartersDistinct(n - 1);
      RoundsPermute(x, n - 1);
      QuarterInverts(Rounds(x, n - 1), q);
      RoundsPermute(UnQuarter(x, q), n - 1);
      QuarterInverts(x, q);
    }
  }

  /** The rounds on the working list, in place: ten double rounds of eight quarter rounds. */
  method RoundsInPlace(x: array<seq<bool>>)
    requires x.Length == 16
    modifies x
    ensures x[..] == Rounds(old(x[..]), 80)
  {
    hide Quarter, Words32, QuarterAt, Rounds, Turn;
    ghost var was := x[..];
    RoundsNone(was);
    for double := 0 to 10
      invariant x[..] == Rounds(was, 8 * double)
    {
      for k := 0 to 8
        invariant x[..] == Rounds(was, 8 * double + k)
      {
        RoundsNext(was, 8 * double + k);
        WhichQuarter(double, k);
        var q := QUARTERS[k];
        QuarterInPlace(x, q);
      }
    }
  }

  lemma WhichQuarter(double: nat, k: nat)
    requires k < 8
    ensures QuarterAt(8 * double + k) == QUARTERS[k]
  {
    assert (8 * double + k) % 8 == k;
  }

  lemma RoundsNone(x: seq<seq<bool>>)
    requires |x| == 16
    ensures Rounds(x, 0) == x
  {
  }

  lemma RoundsNext(x: seq<seq<bool>>, n: nat)
    requires |x| == 16
    ensures Rounds(x, n + 1) == Quarter(Rounds(x, n), QuarterAt(n))
  {
    hide Quarter, Words32, QuarterAt;
  }

  /** quarter: four additions, xors and rotations of four entries of the list. */
  method QuarterInPlace(x: array<seq<bool>>, q: Four)
    requires x.Length == 16 && q.0 < 16 && q.1 < 16 && q.2 < 16 && q.3 < 16
    modifies x
    ensures x[..] == Quarter(old(x[..]), q)
  {
    hide Turn;
    TurnInPlace(x, q.0, q.1, q.3, 16);
    TurnInPlace(x, q.2, q.3, q.1, 12);
    TurnInPlace(x, q.0, q.1, q.3, 8);
    TurnInPlace(x, q.2, q.3, q.1, 7);
  }

  method TurnInPlace(x: array<seq<bool>>, a: nat, b: nat, d: nat, n: nat)
    requires a < x.Length && b < x.Length && d < x.Length
    modifies x
    ensures x[..] == Turn(old(x[..]), a, b, d, n)
  {
    hide Plus, Rotl, XorWide, Words32;
    ghost var was := x[..];
    x[a] := Plus(x[a], x[b]);
    ghost var sum := x[..];
    assert sum == was[a := Plus(was[a], was[b])];
    x[d] := Rotl(XorWide(x[d], x[a]), n);
    assert x[..] == sum[d := Rotl(XorWide(sum[d], sum[a]), n)];
  }

  // ---- The block ----

  /** Little-endian 32-bit words. */
  function LeWords(bytes: seq<nat>): (ws: seq<seq<bool>>)
    ensures |ws| == |bytes| / 4 && Words32(ws)
  {
    if |bytes| < 4 then [] else [Word(Num(256, bytes[..4]))] + LeWords(bytes[4..])
  }

  function WordBytes(w: seq<bool>): (bytes: seq<nat>)
    ensures |bytes| == 4
  {
    DigitsOf(256, FromBits(w), 4)
  }

  function AllBytes(ws: seq<seq<bool>>): (bytes: seq<nat>)
    ensures |bytes| == 4 * |ws|
  {
    if ws == [] then [] else WordBytes(ws[0]) + AllBytes(ws[1..])
  }

  /** How many bits a number takes. */
  function Width(n: nat): nat {
    if n == 0 then 0 else 1 + Width(n / 2)
  }

  /** A block counter as it enters the state: all its bits, at least 32. */
  function CounterBits(counter: nat): (w: seq<bool>)
    ensures |w| >= 32
  {
    ToBits(counter, if Width(counter) < 32 then 32 else Width(counter))
  }

  /** Constants, key, block counter and nonce. */
  function BlockState(key: seq<nat>, counter: nat, nonce: seq<nat>): (x: seq<seq<bool>>)
    requires |key| == 32 && |nonce| == 12
    ensures |x| == 16
  {
    [Word(0x61707865), Word(0x3320646E), Word(0x79622D32), Word(0x6B206574)] + LeWords(key) + [CounterBits(counter)]
      + LeWords(nonce)
  }

  lemma {:induction false} WidthFits(n: nat)
    ensures n < Pow(2, Width(n))
  {
    if n == 0 {
      assert Pow(2, 0) == 1;
    } else {
      WidthFits(n / 2);
    }
  }

  lemma {:induction false} WidthLeast(n: nat, k: nat)
    requires n < Pow(2, k)
    ensures Width(n) <= k
    decreases k
  {
    assert Pow(2, 0) == 1;
    if n == 0 {
      assert Width(n) == 0;
    } else {
      assert k > 0 && Pow(2, k) == 2 * Pow(2, k - 1);
      WidthLeast(n / 2, k - 1);
    }
  }

  /** The counter word stands for its counter, and a counter of 32 bits enters as the plain word that
      the RFC has: then every word of the state is 32 bits wide. */
  lemma CounterWord(key: seq<nat>, counter: nat, nonce: seq<nat>)
    requires |key| == 32 && |nonce| == 12
    ensures FromBits(CounterBits(counter)) == counter
    ensures counter < 0x1_0000_0000
      ==> CounterBits(counter) == Word(counter) && Words32(BlockState(key, counter, nonce))
  {
    hide FromBits, ToBits, Pow, Width, Num;
    WidthFits(counter);
    Pow2To32();
    if counter < 0x1_0000_0000 {
      WidthLeast(counter, 32);
      FromToBits(counter, 32);
    } else {
      if Width(counter) < 32 {
        PowOrder(Width(counter), 32);
      }
      FromToBits(counter, Width(counter));
    }
  }

  lemma {:induction false} PowOrder(m: nat, n: nat)
    requires m <= n
    ensures Pow(2, m) <= Pow(2, n)
    decreases n
  {
    if m >= n {
    } else {
      PowOrder(m, n - 1);
    }
  }

  function Sums(x: seq<seq<bool>>, y: seq<seq<bool>>): (z: seq<seq<bool>>)
    requires |x| == |y|
    ensures |z| == |x| && Words32(z) && forall i :: 0 <= i < |z| ==> z[i] == Plus(x[i], y[i])
  {
    seq(|x|, i requires 0 <= i < |x| => Plus(x[i], y[i]))
  }

  function Block(key: seq<nat>, counter: nat, nonce: seq<nat>): (bytes: seq<nat>)
    requires |key| == 32 && |nonce| == 12
    ensures |bytes| == 64
  {
    var state := BlockState(key, counter, nonce);
    AllBytes(Sums(Rounds(state, 80), state))
  }

  /** chacha20_block: the rounds on a copy of the state, then the state added to it. */
  method ChaChaBlock(key: seq<nat>, counter: nat, nonce: seq<nat>) returns (bytes: seq<nat>)
    requires |key| == 32 && |nonce| == 12
    ensures bytes == Block(key, counter, nonce)
  {
    hide Words32, BlockState, Rounds, Plus, AllBytes;
    var state := BlockState(key, counter, nonce);
    var x := new seq<bool>[16](i requires 0 <= i < 16 => state[i]);
    assert x[..] == state;
    RoundsInPlace(x);
    bytes := AllBytes(Sums(x[..], state));
  }

  // ---- The stream ----

  function XorByte(a: nat, b: nat): nat {
    FromBits(Xor(ToBits(a, 8), ToBits(b, 8)))
  }

  lemma XorByteTwice(a: nat, b: nat)
    requires a < 256
    ensures XorByte(a, b) < 256 && XorByte(XorByte(a, b), b) == a
  {
    hide FromBits, ToBits, Xor;
    assert Pow(2, 8) == 256;
    hide Pow;
    var x := Xor(ToBits(a, 8), ToBits(b, 8));
    ToFromBits(x);
    XorTwice(ToBits(a, 8), ToBits(b, 8));
    FromToBits(a, 8);
  }

  /** The bytes of data xored with as many of the block. */
  function XorBytes(data: seq<nat>, block: seq<nat>): (out: seq<nat>)
    requires |data| <= |block|
    ensures |out| == |data| && forall i :: 0 <= i < |out| ==> out[i] == XorByte(data[i], block[i])
  {
    seq(|data|, i requires 0 <= i < |data| => XorByte(data[i], block[i]))
  }

  function Least(a: nat, b: nat): nat {
    if a < b then a else b
  }

  /** Data under the stream from a block counter on. */
  function Streamed(key: seq<nat>, counter: nat, nonce: seq<nat>, data: seq<nat>): (out: seq<nat>)
    requires |key| == 32 && |nonce| == 12
    ensures |out| == |data|
    decreases |data|
  {
    if data == [] then [] else
      var n := Least(64, |data|);
      XorBytes(data[..n], Block(key, counter, nonce)) + Streamed(key, counter + 1, nonce, data[n..])
  }

  /** chacha20_xor: block after block. */
  method ChaChaXor(key: seq<nat>, counter: nat, nonce: seq<nat>, data: seq<nat>) returns (out: seq<nat>)
    requires |key| == 32 && |nonce| == 12
    ensures out == Streamed(key, counter, nonce, data)
  {
    hide Block, XorByte, XorBytes, Streamed;
    out := [];
    var i, blocks := 0, 0;
    assert data[0..] == data && [] + Streamed(key, counter, nonce, data) == Streamed(key, counter, nonce, data);
    while i < |data|
      invariant i <= |data|
      invariant out + Streamed(key, counter + blocks, nonce, data[i..]) == Streamed(key, counter, nonce, data)
    {
      var n := Least(64, |data| - i);
      var block := ChaChaBlock(key, counter + blocks, nonce);
      StreamStep(key, counter + blocks, nonce, data, i, n, out);
      out := out + XorBytes(data[i..i + n], block);
      i, blocks := i + n, blocks + 1;
    }
    StreamEnd(key, counter + blocks, nonce, data[i..], out);
  }

  lemma StreamStep(key: seq<nat>, counter: nat, nonce: seq<nat>, data: seq<nat>, i: nat, n: nat, out: seq<nat>)
    requires |key| == 32 && |nonce| == 12 && i < |data| && n == Least(64, |data| - i)
    ensures out + Streamed(key, counter, nonce, data[i..])
      == out + XorBytes(data[i..i + n], Block(key, counter, nonce)) + Streamed(key, counter + 1, nonce, data[i + n..])
  {
    hide Block, XorByte, XorBytes;
    assert data[i..][..n] == data[i..i + n] && data[i..][n..] == data[i + n..];
  }

  lemma StreamEnd(key: seq<nat>, counter: nat, nonce: seq<nat>, rest: seq<nat>, out: seq<nat>)
    requires |key| == 32 && |nonce| == 12 && rest == []
    ensures out + Streamed(key, counter, nonce, rest) == out
  {
    assert out + [] == out;
  }

  /** The stream applied twice gives the data back, at every length. */
  lemma {:induction false} StreamTwice(key: seq<nat>, counter: nat, nonce: seq<nat>, data: seq<nat>)
    requires |key| == 32 && |nonce| == 12 && Below(256, data)
    ensures Below(256, Streamed(key, counter, nonce, data))
    ensures Streamed(key, counter, nonce, Streamed(key, counter, nonce, data)) == data
    decreases |data|
  {
    hide Block, XorByte, XorBytes;
    if data == [] {
    } else {
      var n := Least(64, |data|);
      var block := Block(key, counter, nonce);
      var out := Streamed(key, counter, nonce, data);
      assert Below(256, data[n..]);
      StreamTwice(key, counter + 1, nonce, data[n..]);
      BytesTwice(data[..n], block);
      var front, rest := XorBytes(data[..n], block), Streamed(key, counter + 1, nonce, data[n..]);
      assert out == front + rest && out[..n] == front && out[n..] == rest;
      assert data[..n] + data[n..] == data;
    }
  }

  lemma BytesTwice(data: seq<nat>, block: seq<nat>)
    requires |data| <= |block| && Below(256, data)
    ensures Below(256, XorBytes(data, block)) && XorBytes(XorBytes(data, block), block) == data
  {
    hide XorByte;
    forall i | 0 <= i < |data|
      ensures XorByte(data[i], block[i]) < 256 && XorByte(XorByte(data[i], block[i]), block[i]) == data[i] {
      XorByteTwice(data[i], block[i]);
    }
  }
}
