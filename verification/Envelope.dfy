/** The sealed envelope: the authenticated data of RFC 8439, section 2.8, the associated data of a
    record, and the bytes around the ciphertext. */
module Envelope {
  import opened Digits
  import opened ChaCha
  import opened Poly1305

  function Zeros(n: nat): (z: seq<nat>)
    ensures |z| == n && forall i :: 0 <= i < n ==> z[i] == 0
  {
    seq(n, _ => 0)
  }

  /** Zero bytes up to a multiple of sixteen. */
  function Pad16(data: seq<nat>): (out: seq<nat>)
    ensures |out| % 16 == 0 && |data| <= |out| < |data| + 16 && out[..|data|] == data
  {
    data + Zeros((16 - |data| % 16) % 16)
  }

  lemma Pow256s()
    ensures Pow(256, 4) == 0x1_0000_0000 && Pow(256, 8) == 0x1_0000_0000_0000_0000
  {
    PowAdd(256, 4, 4);
  }

  /** The bytes that are authenticated. */
  function MacData(aad: seq<nat>, ciphertext: seq<nat>): (data: seq<nat>) {
    Pad16(aad) + Pad16(ciphertext) + Le(|aad|, 8) + Le(|ciphertext|, 8)
  }

  /** Padding and lengths leave no two pairs with the same authenticated bytes. */
  lemma MacDataInjective(a: seq<nat>, c: seq<nat>, b: seq<nat>, d: seq<nat>)
    requires |a| < 0x1_0000_0000_0000_0000 && |c| < 0x1_0000_0000_0000_0000
    requires |b| < 0x1_0000_0000_0000_0000 && |d| < 0x1_0000_0000_0000_0000
    ensures MacData(a, c) == MacData(b, d) <==> a == b && c == d
  {
    hide Pow, Digit, Pad16, Le;
    if MacData(a, c) == MacData(b, d) {
      Pow256s();
      var m, n := MacData(a, c), MacData(b, d);
      assert m[|m| - 8..] == Le(|c|, 8) && n[|n| - 8..] == Le(|d|, 8);
      assert m[|m| - 16..|m| - 8] == Le(|a|, 8) && n[|n| - 16..|n| - 8] == Le(|b|, 8);
      LeInjective(|c|, |d|, 8);
      LeInjective(|a|, |b|, 8);
      SameParts(a, c, b, d);
    }
  }

  lemma SameParts(a: seq<nat>, c: seq<nat>, b: seq<nat>, d: seq<nat>)
    requires |a| == |b| && |c| == |d| && MacData(a, c) == MacData(b, d)
    ensures a == b && c == d
  {
    hide Le, Digit;
    var m, n := MacData(a, c), MacData(b, d);
    var p := |Pad16(a)|;
    assert p == |Pad16(b)|;
    assert a == m[..|a|] && b == n[..|a|];
    assert c == m[p..p + |c|] && d == n[p..p + |c|];
  }

  /** Where the parts lie: each padded with zeros to a multiple of sixteen, then the two lengths,
      little-endian. */
  lemma MacDataLayout(aad: seq<nat>, ciphertext: seq<nat>)
    requires |aad| < 0x1_0000_0000_0000_0000 && |ciphertext| < 0x1_0000_0000_0000_0000
    ensures var m := MacData(aad, ciphertext);
      var p, q := |Pad16(aad)|, |Pad16(ciphertext)|;
      && p % 16 == 0 == q % 16 && |aad| <= p < |aad| + 16 && |ciphertext| <= q < |ciphertext| + 16
      && |m| == p + q + 16 && m[..|aad|] == aad && m[p..p + |ciphertext|] == ciphertext
      && (forall i :: |aad| <= i < p ==> m[i] == 0) && (forall i :: p + |ciphertext| <= i < p + q ==> m[i] == 0)
      && Num(256, m[p + q..p + q + 8]) == |aad| && Num(256, m[p + q + 8..]) == |ciphertext|
  {
    hide Num, Pow, Digit;
    Pow256s();
    NumOfDigits(256, |aad|, 8);
    NumOfDigits(256, |ciphertext|, 8);
    var m := MacData(aad, ciphertext);
    var p, q := |Pad16(aad)|, |Pad16(ciphertext)|;
    assert m[p + q..p + q + 8] == Le(|aad|, 8) && m[p + q + 8..] == Le(|ciphertext|, 8);
  }

  // ---- Sealing ----

  datatype Sealed = Sealed(ciphertext: seq<nat>, tag: seq<nat>)

  function SealOf(key: seq<nat>, nonce: seq<nat>, aad: seq<nat>, plaintext: seq<nat>): (s: Sealed)
    requires |key| == 32 && |nonce| == 12
    ensures |s.ciphertext| == |plaintext| && |s.tag| == 16
  {
    var ciphertext := Streamed(key, 1, nonce, plaintext);
    Sealed(ciphertext, TagOf(Block(key, 0, nonce)[..32], MacData(aad, ciphertext)))
  }

  /** aead_seal: block zero keys the authenticator, the stream from block one covers the text. */
  method Seal(key: seq<nat>, nonce: seq<nat>, aad: seq<nat>, plaintext: seq<nat>) returns (s: Sealed)
    requires |key| == 32 && |nonce| == 12
    ensures s == SealOf(key, nonce, aad, plaintext)
  {
    hide Block, Streamed, MacData, TagOf;
    var first := ChaChaBlock(key, 0, nonce);
    var ciphertext := ChaChaXor(key, 1, nonce, plaintext);
    var tag := Tag(first[..32], MacData(aad, ciphertext));
    s := Sealed(ciphertext, tag);
  }

  /** What was sealed is read back by the same stream. */
  lemma SealOpens(key: seq<nat>, nonce: seq<nat>, aad: seq<nat>, plaintext: seq<nat>)
    requires |key| == 32 && |nonce| == 12 && Below(256, plaintext)
    ensures Streamed(key, 1, nonce, SealOf(key, nonce, aad, plaintext).ciphertext) == plaintext
  {
    hide Block, Streamed, MacData, TagOf;
    StreamTwice(key, 1, nonce, plaintext);
  }

  // ---- Associated data ----

  datatype Scope = Scope(kind: nat, owner: nat, user: nat, thread: nat, record: nat, keyVersion: nat)

  ghost predicate InRange(s: Scope) {
    && s.kind < 256 && s.owner < 0x1_0000_0000_0000_0000 && s.user < 0x1_0000_0000_0000_0000
    && s.thread < 0x1_0000_0000_0000_0000 && s.record < 0x1_0000_0000_0000_0000 && s.keyVersion < 0x1_0000_0000
  }

  /** "TGA1", the kind and three zeros, and the scope's numbers. */
  function AadBytes(s: Scope): (bytes: seq<nat>)
    ensures |bytes| == 44
  {
    [84, 71, 65, 49] + [s.kind, 0, 0, 0] + Le(s.owner, 8) + Le(s.user, 8) + Le(s.thread, 8) + Le(s.record, 8)
      + Le(s.keyVersion, 4)
  }

  /** Every scope has its own associated data. */
  lemma AadInjective(s: Scope, t: Scope)
    requires InRange(s) && InRange(t) && AadBytes(s) == AadBytes(t)
    ensures s == t
  {
    hide Pow, Digit, Le;
    Pow256s();
    var m, n := AadBytes(s), AadBytes(t);
    assert m[4] == s.kind && n[4] == t.kind;
    assert m[8..16] == Le(s.owner, 8) && n[8..16] == Le(t.owner, 8);
    assert m[16..24] == Le(s.user, 8) && n[16..24] == Le(t.user, 8);
    assert m[24..32] == Le(s.thread, 8) && n[24..32] == Le(t.thread, 8);
    assert m[32..40] == Le(s.record, 8) && n[32..40] == Le(t.record, 8);
    assert m[40..44] == Le(s.keyVersion, 4) && n[40..44] == Le(t.keyVersion, 4);
    LeInjective(s.owner, t.owner, 8);
    LeInjective(s.user, t.user, 8);
    LeInjective(s.thread, t.thread, 8);
    LeInjective(s.record, t.record, 8);
    LeInjective(s.keyVersion, t.keyVersion, 4);
  }

  /** Where the scope's fields lie. */
  lemma AadLayout(s: Scope)
    requires InRange(s)
    ensures var m := AadBytes(s);
      && m[0] == 'T' as nat && m[1] == 'G' as nat && m[2] == 'A' as nat && m[3] == '1' as nat
      && m[4] == s.kind && m[5..8] == [0, 0, 0]
      && Num(256, m[8..16]) == s.owner && Num(256, m[16..24]) == s.user && Num(256, m[24..32]) == s.thread
      && Num(256, m[32..40]) == s.record && Num(256, m[40..44]) == s.keyVersion
  {
    hide Num, Pow, Digit;
    Pow256s();
    NumOfDigits(256, s.owner, 8);
    NumOfDigits(256, s.user, 8);
    NumOfDigits(256, s.thread, 8);
    NumOfDigits(256, s.record, 8);
    NumOfDigits(256, s.keyVersion, 4);
    hide Le;
    AadParts(s);
  }

  lemma AadParts(s: Scope)
    ensures var m := AadBytes(s);
      && m[..8] == [84, 71, 65, 49, s.kind, 0, 0, 0] && m[8..16] == Le(s.owner, 8) && m[16..24] == Le(s.user, 8)
      && m[24..32] == Le(s.thread, 8) && m[32..40] == Le(s.record, 8) && m[40..44] == Le(s.keyVersion, 4)
  {
    hide Digit;
  }

  // ---- The envelope ----

  /** "TGE1", version, algorithm and two zeros, the key version, the nonce, the ciphertext and the
      tag. */
  function EnvelopeOf(key: seq<nat>, nonce: seq<nat>, scope: Scope, plaintext: seq<nat>): (e: seq<nat>)
    requires |key| == 32 && |nonce| == 12
    ensures |e| == |plaintext| + 40
  {
    var s := SealOf(key, nonce, AadBytes(scope), plaintext);
    Wrapped(Le(scope.keyVersion, 4), nonce, s.ciphertext, s.tag)
  }

  function Wrapped(version: seq<nat>, nonce: seq<nat>, ciphertext: seq<nat>, tag: seq<nat>): seq<nat> {
    [84, 71, 69, 49] + [1, 1, 0, 0] + version + nonce + ciphertext + tag
  }

  lemma WrappedParts(version: seq<nat>, nonce: seq<nat>, ciphertext: seq<nat>, tag: seq<nat>)
    requires |version| == 4 && |nonce| == 12 && |tag| == 16
    ensures var e := Wrapped(version, nonce, ciphertext, tag);
      && |e| == |ciphertext| + 40 && e[..4] == [84, 71, 69, 49] && e[4..8] == [1, 1, 0, 0]
      && e[8..12] == version && e[12..24] == nonce && e[24..|e| - 16] == ciphertext && e[|e| - 16..] == tag
  {
  }

  /** The plaintext length an envelope of n bytes holds, -1 outside the limits. */
  function PlaintextBytes(n: int): int {
    if 40 <= n <= 40 + 1048576 then n - 40 else -1
  }

  function HeaderOk(e: seq<nat>): bool {
    |e| >= 12 && e[..4] == [84, 71, 69, 49] && e[4..8] == [1, 1, 0, 0] && Num(256, e[8..12]) != 0
      && PlaintextBytes(|e|) >= 0
  }

  /** An envelope says everything that was put into it: its header passes exactly for a nonzero key
      version and a text within the limit, its fields lie where a reader looks for them, and the
      stream turns the ciphertext back into the text. */
  lemma EnvelopeOpens(key: seq<nat>, nonce: seq<nat>, scope: Scope, plaintext: seq<nat>)
    requires |key| == 32 && |nonce| == 12 && Below(256, plaintext) && InRange(scope)
    ensures var e := EnvelopeOf(key, nonce, scope, plaintext);
      var s := SealOf(key, nonce, AadBytes(scope), plaintext);
      && HeaderOk(e) == (scope.keyVersion != 0 && |plaintext| <= 1048576)
      && (|plaintext| <= 1048576 ==> PlaintextBytes(|e|) == |plaintext|)
      && Num(256, e[8..12]) == scope.keyVersion && e[12..24] == nonce
      && e[|e| - 16..] == s.tag
      && Streamed(key, 1, e[12..24], e[24..|e| - 16]) == plaintext
  {
    hide SealOf, Streamed, Num, Digit, Pow, AadBytes, Wrapped;
    var e := EnvelopeOf(key, nonce, scope, plaintext);
    var s := SealOf(key, nonce, AadBytes(scope), plaintext);
    Pow256s();
    NumOfDigits(256, scope.keyVersion, 4);
    SealOpens(key, nonce, AadBytes(scope), plaintext);
    WrappedParts(Le(scope.keyVersion, 4), nonce, s.ciphertext, s.tag);
  }
}
