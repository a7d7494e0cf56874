/** Little-endian fields of a byte string, read where they lie: a read past the end fails, a slice
    past the end is cut. */
module GgufBytes {
  import opened Results
  import opened Digits

  /** An n-byte unsigned integer; None where unpacking would run past the end. */
  function Read(data: seq<nat>, p: nat, n: nat): Option<nat> {
    if p + n <= |data| then Some(Num(256, data[p..p + n])) else None
  }

  function Clamp(p: nat, n: nat): (q: nat)
    ensures q <= n && q <= p
  {
    if p < n then p else n
  }

  /** data[a:b] as Python cuts it. */
  function Slice(data: seq<nat>, a: nat, b: nat): seq<nat>
    requires a <= b
  {
    data[Clamp(a, |data|)..Clamp(b, |data|)]
  }

  /** An integer written into place. */
  function Put(data: seq<nat>, p: nat, v: nat, n: nat): (out: seq<nat>)
    requires p + n <= |data|
    ensures |out| == |data|
  {
    data[..p] + Le(v, n) + data[p + n..]
  }

  ghost predicate SamePrefix(a: seq<nat>, b: seq<nat>, m: nat) {
    |a| == |b| && m <= |a| && a[..m] == b[..m]
  }

  ghost predicate SameSuffix(a: seq<nat>, b: seq<nat>, m: nat) {
    |a| == |b| && m <= |a| && a[m..] == b[m..]
  }

  /** A slice before a position where two byte strings agree is the same. */
  lemma SameFront(a: seq<nat>, b: seq<nat>, m: nat, i: nat, j: nat)
    requires SamePrefix(a, b, m) && i <= j <= m
    ensures a[i..j] == b[i..j]
  {
    forall k | i <= k < j ensures a[k] == b[k] {
      assert a[..m][k] == b[..m][k];
    }
  }

  lemma ReadPrefix(a: seq<nat>, b: seq<nat>, m: nat, p: nat, n: nat)
    requires SamePrefix(a, b, m) && p + n <= m
    ensures Read(a, p, n) == Read(b, p, n)
  {
    hide Num;
    SameFront(a, b, m, p, p + n);
  }

  lemma SlicePrefix(a: seq<nat>, b: seq<nat>, m: nat, p: nat, q: nat)
    requires SamePrefix(a, b, m) && p <= q <= m
    ensures Slice(a, p, q) == Slice(b, p, q)
  {
    SameFront(a, b, m, p, q);
  }

  /** A slice past a position where two byte strings agree is the same. */
  lemma SameSlice(a: seq<nat>, b: seq<nat>, m: nat, i: nat, j: nat)
    requires SameSuffix(a, b, m) && m <= i <= j <= |a|
    ensures a[i..j] == b[i..j]
  {
    forall k | i <= k < j ensures a[k] == b[k] {
      assert a[m..][k - m] == b[m..][k - m];
    }
  }

  lemma ReadSuffix(a: seq<nat>, b: seq<nat>, m: nat, p: nat, n: nat)
    requires SameSuffix(a, b, m) && m <= p
    ensures Read(a, p, n) == Read(b, p, n)
  {
    hide Num;
    if p + n <= |a| {
      SameSlice(a, b, m, p, p + n);
    }
  }

  lemma SliceSuffix(a: seq<nat>, b: seq<nat>, m: nat, p: nat, q: nat)
    requires SameSuffix(a, b, m) && m <= p <= q
    ensures Slice(a, p, q) == Slice(b, p, q)
  {
    if Clamp(p, |a|) >= m {
      SameSlice(a, b, m, Clamp(p, |a|), Clamp(q, |a|));
    }
  }

  lemma SamePrefixLess(a: seq<nat>, b: seq<nat>, m: nat, k: nat)
    requires SamePrefix(a, b, m) && k <= m
    ensures SamePrefix(a, b, k)
  {
    assert a[..k] == a[..m][..k] && b[..k] == b[..m][..k];
  }

  /** A value that fits is read back from where it was written, and nothing else moves. */
  lemma PutRead(data: seq<nat>, p: nat, v: nat, n: nat)
    requires p + n <= |data| && v < Pow(256, n)
    ensures Read(Put(data, p, v, n), p, n) == Some(v)
    ensures SamePrefix(data, Put(data, p, v, n), p) && SameSuffix(data, Put(data, p, v, n), p + n)
  {
    hide Num, Digit, Pow;
    NumOfDigits(256, v, n);
    var out := Put(data, p, v, n);
    assert out[p..p + n] == Le(v, n);
    assert out[..p] == data[..p] && out[p + n..] == data[p + n..];
  }

  lemma Pow32And64()
    ensures Pow(256, 4) == 0x1_0000_0000 && Pow(256, 8) == 0x1_0000_0000_0000_0000
  {
    PowAdd(256, 4, 4);
  }

  // ---- UTF-8 ----

  /** A byte that continues a multi-byte character, from lo up. */
  predicate Continues(bytes: seq<nat>, i: nat, lo: nat, hi: nat) {
    i < |bytes| && lo <= bytes[i] <= hi
  }

  /** How many bytes the first character takes, zero where the bytes begin no character: no overlong
      form, no surrogate, nothing past U+10FFFF. */
  function CharLength(bytes: seq<nat>): (n: nat)
    requires bytes != []
    ensures n <= |bytes|
  {
    var b := bytes[0];
    if b < 0x80 then 1
    else if 0xC2 <= b <= 0xDF then if Continues(bytes, 1, 0x80, 0xBF) then 2 else 0
    else if 0xE0 <= b <= 0xEF then
      var lo, hi := if b == 0xE0 then 0xA0 else 0x80, if b == 0xED then 0x9F else 0xBF;
      if Continues(bytes, 1, lo, hi) && Continues(bytes, 2, 0x80, 0xBF) then 3 else 0
    else if 0xF0 <= b <= 0xF4 then
      var lo, hi := if b == 0xF0 then 0x90 else 0x80, if b == 0xF4 then 0x8F else 0xBF;
      if Continues(bytes, 1, lo, hi) && Continues(bytes, 2, 0x80, 0xBF) && Continues(bytes, 3, 0x80, 0xBF) then 4 else 0
    else 0
  }

  /** The bytes are UTF-8, as strict decoding takes it. */
  predicate Utf8(bytes: seq<nat>)
    decreases |bytes|
  {
    bytes == [] || (CharLength(bytes) > 0 && Utf8(bytes[CharLength(bytes)..]))
  }
}
