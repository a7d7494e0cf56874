/** The GGUF header builder, and the round trip: the walk over what it prints finds every record. */
module GgufBuild {
  import opened Arithmetic
  import opened Results
  import opened Digits
  import opened GgufBytes
  import opened Gguf

  datatype Key =
    | KeyU32(name: seq<nat>, value: nat)
    | KeyBool(name: seq<nat>, flag: bool)
    | KeyText(name: seq<nat>, text: seq<nat>)
    | KeyTexts(name: seq<nat>, texts: seq<seq<nat>>)
    | KeyInts(name: seq<nat>, element: nat, values: seq<int>)

  datatype Tensor = Tensor(name: seq<nat>, ne0: nat, ne1: nat, offset: nat)

  function Str(s: seq<nat>): seq<nat> {
    Le(|s|, 8) + s
  }

  function Strs(texts: seq<seq<nat>>): seq<nat> {
    if texts == [] then [] else Str(texts[0]) + Strs(texts[1..])
  }

  function Ints(values: seq<int>): (bytes: seq<nat>)
    ensures |bytes| == 4 * |values|
  {
    if values == [] then [] else Le(values[0] % 0x1_0000_0000, 4) + Ints(values[1..])
  }

  function TypeOf(key: Key): nat {
    match key
    case KeyU32(_, _) => 4
    case KeyBool(_, _) => 7
    case KeyText(_, _) => 8
    case KeyTexts(_, _) => 9
    case KeyInts(_, _, _) => 9
  }

  function Payload(key: Key): seq<nat> {
    match key
    case KeyU32(_, value) => Le(value, 4)
    case KeyBool(_, flag) => [if flag then 1 else 0]
    case KeyText(_, text) => Str(text)
    case KeyTexts(_, texts) => Le(8, 4) + Le(|texts|, 8) + Strs(texts)
    case KeyInts(_, element, values) => Le(element, 4) + Le(|values|, 8) + Ints(values)
  }

  function KeyBytes(key: Key): seq<nat> {
    Str(key.name) + Le(TypeOf(key), 4) + Payload(key)
  }

  function TensorBytes(t: Tensor): seq<nat> {
    Str(t.name) + Le(2, 4) + Le(t.ne0, 8) + Le(t.ne1, 8) + Le(1, 4) + Le(t.offset, 8)
  }

  function AllKeys(keys: seq<Key>): seq<nat> {
    if keys == [] then [] else KeyBytes(keys[0]) + AllKeys(keys[1..])
  }

  function AllTensors(tensors: seq<Tensor>): seq<nat> {
    if tensors == [] then [] else TensorBytes(tensors[0]) + AllTensors(tensors[1..])
  }

  function Head(tensors: nat, keys: nat): seq<nat> {
    Le(MAGIC, 4) + Le(3, 4) + Le(tensors, 8) + Le(keys, 8)
  }

  /** The header before it is padded. */
  function Body(keys: seq<Key>, tensors: seq<Tensor>): seq<nat> {
    Head(|tensors|, |keys|) + AllKeys(keys) + AllTensors(tensors)
  }

  function Padding(n: nat): (z: seq<nat>)
    ensures |z| == (32 - n % 32) % 32 && (n + |z|) % 32 == 0
  {
    seq((32 - n % 32) % 32, _ => 0)
  }

  function Print(keys: seq<Key>, tensors: seq<Tensor>): (data: seq<nat>)
    ensures |data| % 32 == 0
  {
    Body(keys, tensors) + Padding(|Body(keys, tensors)|)
  }

  // ---- Building ----

  const U32 := 0x1_0000_0000
  const U64 := 0x1_0000_0000_0000_0000

  ghost predicate TextPacks(s: seq<nat>) {
    |s| < U64
  }

  /** The values the packing accepts: names, counts and numbers within their widths. */
  ghost predicate KeyPacks(key: Key) {
    && TextPacks(key.name)
    && match key
       case KeyU32(_, value) => value < U32
       case KeyBool(_, _) => true
       case KeyText(_, text) => TextPacks(text)
       case KeyTexts(_, texts) => |texts| < U64 && TextsPack(texts)
       case KeyInts(_, element, values) => element < U32 && |values| < U64
  }

  ghost predicate TensorPacks(t: Tensor) {
    TextPacks(t.name) && t.ne0 < U64 && t.ne1 < U64 && t.offset < U64
  }

  ghost predicate Packs(keys: seq<Key>, tensors: seq<Tensor>) {
    && |keys| < U64 && |tensors| < U64
    && (forall i :: 0 <= i < |keys| ==> KeyPacks(keys[i]))
    && AllPack(tensors)
  }

  /** gguf: the bytes grown key by key and tensor by tensor, then padded one zero at a time. */
  method Build(keys: seq<Key>, tensors: seq<Tensor>, dataBytes: nat) returns (out: seq<nat>, size: nat)
    requires Packs(keys, tensors)
    ensures out == Print(keys, tensors) && size == |out| + dataBytes
  {
    hide KeyBytes, TensorBytes, Head, Le, Packs, Padding, AllKeys, AllTensors;
    NothingPrinted();
    out := Head(|tensors|, |keys|);
    assert keys[..0] == [] && tensors[..0] == [];
    for i := 0 to |keys|
      invariant out == Head(|tensors|, |keys|) + AllKeys(keys[..i])
    {
      KeysAppend(keys, i);
      out := out + KeyBytes(keys[i]);
    }
    assert keys[..|keys|] == keys;
    ghost var front := out;
    for i := 0 to |tensors|
      invariant out == front + AllTensors(tensors[..i])
    {
      TensorsAppend(tensors, i);
      out := out + TensorBytes(tensors[i]);
    }
    assert tensors[..|tensors|] == tensors;
    assert out == Body(keys, tensors);
    out := Pad32(out);
    size := |out| + dataBytes;
  }

  lemma NothingPrinted()
    ensures AllKeys([]) == [] && AllTensors([]) == []
  {
  }

  /** Zero bytes appended one at a time up to a multiple of 32. */
  method Pad32(body: seq<nat>) returns (out: seq<nat>)
    ensures out == body + Padding(|body|)
  {
    out := body;
    ghost var n := (32 - |body| % 32) % 32;
    while |out| % 32 != 0
      invariant |body| <= |out| <= |body| + n
      invariant out == body + seq(|out| - |body|, _ => 0)
      decreases |body| + n - |out|
    {
      BelowNext(|body|, |out|);
      out := out + [0];
    }
    MultipleAt(|body|, |out|);
    assert out == body + Padding(|body|);
  }

  lemma BelowNext(n: nat, k: nat)
    requires n <= k <= n + (32 - n % 32) % 32 && k % 32 != 0
    ensures k < n + (32 - n % 32) % 32
  {
  }

  lemma MultipleAt(n: nat, k: nat)
    requires n <= k <= n + (32 - n % 32) % 32 && k % 32 == 0
    ensures k == n + (32 - n % 32) % 32
  {
  }

  lemma {:induction false} KeysAppend(keys: seq<Key>, i: nat)
    requires i < |keys|
    ensures AllKeys(keys[..i + 1]) == AllKeys(keys[..i]) + KeyBytes(keys[i])
    decreases i
  {
    hide KeyBytes;
    if i > 0 {
      KeysAppend(keys[1..], i - 1);
      assert keys[..i + 1][1..] == keys[1..][..i] && keys[..i][1..] == keys[1..][..i - 1];
    } else {
      assert keys[..1][1..] == [];
    }
  }

  lemma {:induction false} TensorsAppend(tensors: seq<Tensor>, i: nat)
    requires i < |tensors|
    ensures AllTensors(tensors[..i + 1]) == AllTensors(tensors[..i]) + TensorBytes(tensors[i])
    decreases i
  {
    hide TensorBytes;
    if i > 0 {
      TensorsAppend(tensors[1..], i - 1);
      assert tensors[..i + 1][1..] == tensors[1..][..i] && tensors[..i][1..] == tensors[1..][..i - 1];
    } else {
      assert tensors[..1][1..] == [];
    }
  }

  // ---- Reading back ----

  /** x lies in data from p on. */
  ghost predicate At(data: seq<nat>, p: nat, x: seq<nat>) {
    p + |x| <= |data| && data[p..p + |x|] == x
  }

  lemma AtParts(data: seq<nat>, p: nat, x: seq<nat>, y: seq<nat>)
    requires At(data, p, x + y)
    ensures At(data, p, x) && At(data, p + |x|, y)
  {
    assert data[p..p + |x|] == (x + y)[..|x|];
    assert data[p + |x|..p + |x| + |y|] == (x + y)[|x|..];
  }

  lemma ReadAt(data: seq<nat>, p: nat, v: nat, n: nat)
    requires At(data, p, Le(v, n)) && v < Pow(256, n)
    ensures Read(data, p, n) == Some(v)
  {
    hide Num, Digit, Pow;
    NumOfDigits(256, v, n);
  }

  lemma Read32At(data: seq<nat>, p: nat, v: nat)
    requires At(data, p, Le(v, 4)) && v < U32
    ensures Read(data, p, 4) == Some(v)
  {
    hide Le, Pow, Read;
    Pow32And64();
    ReadAt(data, p, v, 4);
  }

  lemma Read64At(data: seq<nat>, p: nat, v: nat)
    requires At(data, p, Le(v, 8)) && v < U64
    ensures Read(data, p, 8) == Some(v)
  {
    hide Le, Pow, Read;
    Pow32And64();
    ReadAt(data, p, v, 8);
  }

  lemma TextAt(data: seq<nat>, p: nat, s: seq<nat>)
    requires At(data, p, Str(s)) && TextPacks(s)
    ensures Text(data, p) == (if Utf8(s) then Some((s, p + |Str(s)|)) else None) && |Str(s)| == 8 + |s|
  {
    hide Le, Read, Utf8;
    AtParts(data, p, Le(|s|, 8), s);
    Read64At(data, p, |s|);
  }

  ghost predicate AllUtf8(texts: seq<seq<nat>>) {
    forall i :: 0 <= i < |texts| ==> Utf8(texts[i])
  }

  ghost predicate TextsPack(texts: seq<seq<nat>>) {
    forall i :: 0 <= i < |texts| ==> TextPacks(texts[i])
  }

  lemma TextsParts(texts: seq<seq<nat>>)
    requires texts != [] && TextsPack(texts)
    ensures TextPacks(texts[0]) && TextsPack(texts[1..])
    ensures AllUtf8(texts) <==> Utf8(texts[0]) && AllUtf8(texts[1..])
    ensures Strs(texts) == Str(texts[0]) + Strs(texts[1..])
  {
    hide TextPacks, Utf8, Str;
    if Utf8(texts[0]) && AllUtf8(texts[1..]) {
      forall i | 0 <= i < |texts| ensures Utf8(texts[i]) {
        if i > 0 {
          assert texts[i] == texts[1..][i - 1];
        }
      }
    }
  }

  lemma {:induction false} TextsAt(data: seq<nat>, p: nat, texts: seq<seq<nat>>)
    requires At(data, p, Strs(texts)) && TextsPack(texts)
    ensures SkipMany(data, p, 8, |texts|) == if AllUtf8(texts) then Some(p + |Strs(texts)|) else None
    decreases |texts|
  {
    hide Text, Str, At, TextPacks, TextsPack, Utf8, AllUtf8, Strs, Skip;
    if texts == [] {
      NoTexts(data, p);
    } else {
      TextsParts(texts);
      AtParts(data, p, Str(texts[0]), Strs(texts[1..]));
      TextAt(data, p, texts[0]);
      SkipText(data, p);
      TextsAt(data, p + |Str(texts[0])|, texts[1..]);
    }
  }

  lemma NoTexts(data: seq<nat>, p: nat)
    ensures Strs([]) == [] && AllUtf8([]) && SkipMany(data, p, 8, 0) == Some(p)
  {
  }

  lemma SkipText(data: seq<nat>, p: nat)
    ensures Skip(data, p, 8) == match Text(data, p) case Some(t) => Some(t.1) case None => None
  {
    hide Text;
  }

  /** A payload the walk steps over whole: an integer array must have elements four bytes wide, or no
      elements. */
  ghost predicate KeyReads(key: Key) {
    key.KeyInts? ==> key.values == [] || Width(key.element) == Some(4)
  }

  /** A payload whose texts are UTF-8. */
  ghost predicate PayloadDecodes(key: Key) {
    match key
    case KeyText(_, text) => Utf8(text)
    case KeyTexts(_, texts) => AllUtf8(texts)
    case _ => true
  }

  lemma SkipArray(data: seq<nat>, p: nat, element: nat, count: nat)
    requires Read(data, p, 4) == Some(element) && Read(data, p + 4, 8) == Some(count)
    ensures Skip(data, p, 9)
      == if Width(element).Some? then Some(p + 12 + Mul(count, Width(element).value))
         else SkipMany(data, p + 12, element, count)
  {
    hide Read, SkipMany;
  }

  lemma SkipFixed(data: seq<nat>, p: nat, vtype: nat)
    requires Width(vtype).Some?
    ensures Skip(data, p, vtype) == Some(p + Width(vtype).value)
  {
  }

  /** Every element that is not fixed-width takes at least eight bytes. */
  lemma {:induction false} ManyTakeEight(data: seq<nat>, p: nat, vtype: nat, count: nat)
    requires Width(vtype).None? && SkipMany(data, p, vtype, count).Some?
    ensures SkipMany(data, p, vtype, count).value >= p + 8 * count
    decreases count
  {
    hide Skip, Width;
    if count == 0 {
      assert SkipMany(data, p, vtype, 0) == Some(p);
    } else {
      OneTakesEight(data, p, vtype);
      ManyTakeEight(data, Skip(data, p, vtype).value, vtype, count - 1);
    }
  }

  lemma OneTakesEight(data: seq<nat>, p: nat, vtype: nat)
    requires Width(vtype).None? && Skip(data, p, vtype).Some?
    ensures Skip(data, p, vtype).value >= p + 8
  {
    hide Read, Utf8, Slice, SkipMany, Width;
  }

  /** An integer array is stepped over whole exactly when its elements are four bytes wide or there
      are none. */
  lemma IntsSkipped(data: seq<nat>, p: nat, key: Key)
    requires key.KeyInts? && At(data, p, Payload(key)) && KeyPacks(key)
    ensures Skip(data, p, 9) == Some(p + |Payload(key)|) <==> KeyReads(key)
  {
    hide Skip, Read, Le, At, Text, Width;
    var n := |key.values|;
    ArrayAt(data, p, key.element, n, Ints(key.values));
    if Width(key.element).Some? {
      hide SkipMany;
      SameProducts(n, Width(key.element).value);
    } else if n == 0 {
      assert SkipMany(data, p + 12, key.element, 0) == Some(p + 12);
    } else {
      hide SkipMany;
      if SkipMany(data, p + 12, key.element, n).Some? {
        ManyTakeEight(data, p + 12, key.element, n);
      }
    }
  }

  lemma SameProducts(n: nat, width: nat)
    ensures Mul(n, width) == 4 * n <==> n == 0 || width == 4
  {
    if n > 0 {
      EqualProducts(n, width, 4);
    }
  }

  /** The walk ends a printed payload where it ends, exactly when the key reads and its texts are
      UTF-8. */
  lemma PayloadSkipped(data: seq<nat>, p: nat, key: Key)
    requires At(data, p, Payload(key)) && KeyPacks(key)
    ensures Skip(data, p, TypeOf(key)) == Some(p + |Payload(key)|) <==> KeyReads(key) && PayloadDecodes(key)
    ensures !PayloadDecodes(key) ==> Skip(data, p, TypeOf(key)) == None
  {
    hide Skip, SkipMany, Read, Le, At, Text, Utf8, AllUtf8, TextsPack;
    match key
    case KeyU32(_, value) => SkipFixed(data, p, 4);
    case KeyBool(_, flag) => SkipFixed(data, p, 7);
    case KeyText(_, text) =>
      TextAt(data, p, text);
      SkipText(data, p);
    case KeyTexts(_, texts) =>
      ArrayAt(data, p, 8, |texts|, Strs(texts));
      TextsAt(data, p + 12, texts);
    case KeyInts(_, element, values) =>
      IntsSkipped(data, p, key);
  }

  lemma ArrayAt(data: seq<nat>, p: nat, element: nat, count: nat, rest: seq<nat>)
    requires At(data, p, Le(element, 4) + Le(count, 8) + rest) && element < U32 && count < U64
    ensures At(data, p + 12, rest)
    ensures Skip(data, p, 9)
      == if Width(element).Some? then Some(p + 12 + Mul(count, Width(element).value))
         else SkipMany(data, p + 12, element, count)
  {
    hide Skip, SkipMany, Read, Le, At, Width;
    AtParts(data, p, Le(element, 4) + Le(count, 8), rest);
    AtParts(data, p, Le(element, 4), Le(count, 8));
    Read32At(data, p, element);
    Read64At(data, p + 4, count);
    SkipArray(data, p, element, count);
  }

  /** One one-byte element, printed with four bytes: the walk ends three bytes short of the payload's
      end. */
  lemma NarrowIntsMisread(name: seq<nat>)
    ensures var key := KeyInts(name, 0, [7]);
      |Payload(key)| == 16 && Skip(Payload(key), 0, TypeOf(key)) == Some(13)
  {
    var key := KeyInts(name, 0, [7]);
    var data := Payload(key);
    hide Skip, Read, Le;
    assert data[..] == data && At(data, 0, data);
    AtParts(data, 0, Le(0, 4) + Le(1, 8), Ints([7]));
    AtParts(data, 0, Le(0, 4), Le(1, 8));
    Read32At(data, 0, 0);
    Read64At(data, 4, 1);
    SkipArray(data, 0, 0, 1);
  }

  // ---- Alignment ----

  /** The four bytes after a key's type, where its own payload has four. */
  function FirstWord(key: Key): nat
    requires !key.KeyBool?
  {
    match key
    case KeyU32(_, value) => value
    case KeyText(_, text) => |text| % 0x1_0000_0000
    case KeyTexts(_, _) => 8
    case KeyInts(_, element, _) => element
  }

  /** The alignment the walk ends with: the four bytes from the payload of the last key named
      general.alignment on, None where they are not all there. */
  function AlignmentIn(data: seq<nat>, p: nat, keys: seq<Key>, start: nat): Option<nat>
    decreases |keys|
  {
    if keys == [] then Some(start) else
      var chosen :- ChosenAt(data, p, keys[0], start);
      AlignmentIn(data, p + |KeyBytes(keys[0])|, keys[1..], chosen)
  }

  function ChosenAt(data: seq<nat>, p: nat, key: Key, start: nat): Option<nat> {
    if key.name == ALIGNMENT_KEY then Read(data, p + 8 + |key.name| + 4, 4) else Some(start)
  }

  /** The alignment that keys set when none of them is a flag named general.alignment. */
  function AlignmentOf(keys: seq<Key>, start: nat): nat {
    if keys == [] then start else AlignmentOf(keys[1..], Chosen(keys[0], start))
  }

  function Chosen(key: Key, start: nat): nat {
    if key.name == ALIGNMENT_KEY && !key.KeyBool? then FirstWord(key) else start
  }

  /** A flag has one byte, so an alignment read from it takes in the three bytes after it. */
  lemma FlagWord(data: seq<nat>, p: nat, key: Key)
    requires key.KeyBool? && At(data, p, Payload(key))
    ensures Read(data, p, 4)
      == if p + 4 <= |data| then Some((if key.flag then 1 else 0) + Mul(256, Num(256, data[p + 1..p + 4]))) else None
  {
    if p + 4 <= |data| {
      var word := data[p..p + 4];
      assert word[0] == data[p..p + 1][0];
      assert word[1..] == data[p + 1..p + 4];
    }
  }

  lemma FirstWordAt(data: seq<nat>, p: nat, key: Key)
    requires At(data, p, Payload(key)) && KeyPacks(key) && !key.KeyBool?
    ensures Read(data, p, 4) == Some(FirstWord(key))
  {
    hide Read, Le, At;
    match key
    case KeyU32(_, value) => Read32At(data, p, value);
    case KeyText(_, text) =>
      AtParts(data, p, Le(|text|, 8), text);
      LowHalf(data, p, |text|);
    case KeyTexts(_, texts) =>
      AtParts(data, p, Le(8, 4) + Le(|texts|, 8), Strs(texts));
      AtParts(data, p, Le(8, 4), Le(|texts|, 8));
      Read32At(data, p, 8);
    case KeyInts(_, element, values) =>
      AtParts(data, p, Le(element, 4) + Le(|values|, 8), Ints(values));
      AtParts(data, p, Le(element, 4), Le(|values|, 8));
      Read32At(data, p, element);
  }

  lemma LowHalf(data: seq<nat>, p: nat, v: nat)
    requires At(data, p, Le(v, 8)) && v < U64
    ensures Read(data, p, 4) == Some(v % 0x1_0000_0000)
  {
    hide Num, Digit, Pow;
    Pow32And64();
    NumOfDigits(256, v, 8);
    NumSplit(256, Le(v, 8), 4);
    assert data[p..p + 4] == Le(v, 8)[..4];
  }

  // ---- The walk ----

  /** The name and the payload are UTF-8 wherever they are texts. */
  ghost predicate KeyDecodes(key: Key) {
    Utf8(key.name) && PayloadDecodes(key)
  }

  lemma KeyAt(data: seq<nat>, p: nat, key: Key)
    requires At(data, p, KeyBytes(key)) && KeyPacks(key) && KeyReads(key)
    ensures Text(data, p) == if Utf8(key.name) then Some((key.name, p + 8 + |key.name|)) else None
    ensures var q := p + 8 + |key.name|;
      && Read(data, q, 4) == Some(TypeOf(key))
      && Skip(data, q + 4, TypeOf(key)) == (if PayloadDecodes(key) then Some(p + |KeyBytes(key)|) else None)
      && (!key.KeyBool? ==> Read(data, q + 4, 4) == Some(FirstWord(key)))
  {
    hide Skip, Read, Le, At, Text, Payload, FirstWord, Utf8, PayloadDecodes, KeyReads;
    AtParts(data, p, Str(key.name) + Le(TypeOf(key), 4), Payload(key));
    AtParts(data, p, Str(key.name), Le(TypeOf(key), 4));
    TextAt(data, p, key.name);
    Read32At(data, p + |Str(key.name)|, TypeOf(key));
    PayloadSkipped(data, p + |Str(key.name)| + 4, key);
    if !key.KeyBool? {
      FirstWordAt(data, p + |Str(key.name)| + 4, key);
    }
  }

  /** One key of the walk. */
  lemma KeyStep(data: seq<nat>, p: nat, n: nat, key: Key, start: nat)
    requires At(data, p, KeyBytes(key)) && KeyPacks(key) && KeyReads(key) && n > 0
    ensures var chosen := ChosenAt(data, p, key, start);
      Keys(data, p, n, start)
      == if KeyDecodes(key) && chosen.Some? then Keys(data, p + |KeyBytes(key)|, n - 1, chosen.value) else None
  {
    hide Text, Read, Skip, At, KeyBytes, FirstWord, TypeOf, Utf8, PayloadDecodes;
    KeyAt(data, p, key);
  }

  ghost predicate AllReading(keys: seq<Key>) {
    forall i :: 0 <= i < |keys| ==> KeyPacks(keys[i]) && KeyReads(keys[i])
  }

  ghost predicate AllDecode(keys: seq<Key>) {
    forall i :: 0 <= i < |keys| ==> KeyDecodes(keys[i])
  }

  lemma KeysParts(keys: seq<Key>)
    requires keys != [] && AllReading(keys)
    ensures KeyPacks(keys[0]) && KeyReads(keys[0]) && AllReading(keys[1..])
    ensures AllDecode(keys) <==> KeyDecodes(keys[0]) && AllDecode(keys[1..])
    ensures AllKeys(keys) == KeyBytes(keys[0]) + AllKeys(keys[1..])
  {
    hide KeyPacks, KeyReads, KeyDecodes, KeyBytes;
    if KeyDecodes(keys[0]) && AllDecode(keys[1..]) {
      forall i | 0 <= i < |keys| ensures KeyDecodes(keys[i]) {
        if i > 0 {
          assert keys[i] == keys[1..][i - 1];
        }
      }
    }
  }

  lemma NoKeys(data: seq<nat>, p: nat, start: nat)
    ensures AllKeys([]) == [] && AlignmentIn(data, p, [], start) == Some(start)
      && Keys(data, p, 0, start) == Some((p, start))
    ensures AllDecode([])
  {
  }

  /** What the walk over printed keys comes to. */
  function KeysWalked(p: nat, alignment: Option<nat>): Option<(nat, nat)> {
    match alignment case Some(a) => Some((p, a)) case None => None
  }

  lemma {:induction false} KeysAt(data: seq<nat>, p: nat, keys: seq<Key>, start: nat)
    requires At(data, p, AllKeys(keys)) && AllReading(keys)
    ensures Keys(data, p, |keys|, start)
      == if AllDecode(keys) then KeysWalked(p + |AllKeys(keys)|, AlignmentIn(data, p, keys, start)) else None
    decreases |keys|
  {
    hide Keys, At, KeyBytes, KeyPacks, KeyReads, KeyDecodes, AllReading, AllDecode, ChosenAt, AllKeys;
    if keys == [] {
      NoKeys(data, p, start);
    } else {
      var first, rest := KeyBytes(keys[0]), keys[1..];
      var chosen := ChosenAt(data, p, keys[0], start);
      KeysParts(keys);
      AtParts(data, p, first, AllKeys(rest));
      KeyStep(data, p, |keys|, keys[0], start);
      if chosen.Some? {
        KeysAt(data, p + |first|, rest, chosen.value);
      }
    }
  }

  /** Without a flag of that name the alignment is read from the keys alone. */
  lemma {:induction false} PlainAlignment(data: seq<nat>, p: nat, keys: seq<Key>, start: nat)
    requires At(data, p, AllKeys(keys)) && AllReading(keys)
    requires forall i :: 0 <= i < |keys| ==> keys[i].name == ALIGNMENT_KEY ==> !keys[i].KeyBool?
    ensures AlignmentIn(data, p, keys, start) == Some(AlignmentOf(keys, start))
    decreases |keys|
  {
    hide At, KeyBytes, KeyPacks, KeyReads, AllReading, AllDecode, AllKeys, ChosenAt, Chosen;
    if keys == [] {
      NoKeys(data, p, start);
    } else {
      KeysParts(keys);
      AtParts(data, p, KeyBytes(keys[0]), AllKeys(keys[1..]));
      PlainChosen(data, p, keys[0], start);
      PlainAlignment(data, p + |KeyBytes(keys[0])|, keys[1..], Chosen(keys[0], start));
    }
  }

  lemma PlainChosen(data: seq<nat>, p: nat, key: Key, start: nat)
    requires At(data, p, KeyBytes(key)) && KeyPacks(key) && KeyReads(key)
    requires key.name == ALIGNMENT_KEY ==> !key.KeyBool?
    ensures ChosenAt(data, p, key, start) == Some(Chosen(key, start))
  {
    hide At, KeyBytes, KeyPacks, KeyReads, Text, Skip, Read, FirstWord;
    KeyAt(data, p, key);
  }

  function RecordOf(t: Tensor): Record {
    Record(t.name, [t.ne0, t.ne1], 1, t.offset)
  }

  function RecordsOf(tensors: seq<Tensor>): (records: seq<Record>)
    ensures |records| == |tensors| && forall i :: 0 <= i < |records| ==> records[i] == RecordOf(tensors[i])
  {
    seq(|tensors|, i requires 0 <= i < |tensors| => RecordOf(tensors[i]))
  }

  lemma TwoLongs(data: seq<nat>, p: nat, a: nat, b: nat)
    requires Read(data, p, 8) == Some(a) && Read(data, p + 8, 8) == Some(b)
    ensures Longs(data, p, 2) == Some([a, b])
  {
    hide Read;
    assert Longs(data, p + 16, 0) == Some([]);
    assert [b] + [] == [b] && [a] + [b] == [a, b];
    assert Longs(data, p + 8, 1) == Some([b]);
  }

  lemma TensorAt(data: seq<nat>, p: nat, t: Tensor)
    requires At(data, p, TensorBytes(t)) && TensorPacks(t)
    ensures RecordAt(data, p) == if Utf8(t.name) then Some((RecordOf(t), p + |TensorBytes(t)|)) else None
  {
    hide Read, Le, At, Text, Longs, Utf8;
    var q := p + |Str(t.name)|;
    AtParts(data, p, Str(t.name) + Le(2, 4) + Le(t.ne0, 8) + Le(t.ne1, 8) + Le(1, 4), Le(t.offset, 8));
    AtParts(data, p, Str(t.name) + Le(2, 4) + Le(t.ne0, 8) + Le(t.ne1, 8), Le(1, 4));
    AtParts(data, p, Str(t.name) + Le(2, 4) + Le(t.ne0, 8), Le(t.ne1, 8));
    AtParts(data, p, Str(t.name) + Le(2, 4), Le(t.ne0, 8));
    AtParts(data, p, Str(t.name), Le(2, 4));
    TextAt(data, p, t.name);
    Read32At(data, q, 2);
    Read64At(data, q + 4, t.ne0);
    Read64At(data, q + 12, t.ne1);
    TwoLongs(data, q + 4, t.ne0, t.ne1);
    Read32At(data, q + 20, 1);
    Read64At(data, q + 24, t.offset);
  }

  lemma TensorStep(data: seq<nat>, p: nat, n: nat, t: Tensor)
    requires At(data, p, TensorBytes(t)) && TensorPacks(t) && n > 0
    ensures Records(data, p, n)
      == if Utf8(t.name) then Joined([RecordOf(t)], Records(data, p + |TensorBytes(t)|, n - 1)) else None
  {
    hide RecordAt, At, TensorBytes, RecordOf, Utf8;
    TensorAt(data, p, t);
  }

  ghost predicate AllPack(tensors: seq<Tensor>) {
    forall i :: 0 <= i < |tensors| ==> TensorPacks(tensors[i])
  }

  ghost predicate NamesDecode(tensors: seq<Tensor>) {
    forall i :: 0 <= i < |tensors| ==> Utf8(tensors[i].name)
  }

  lemma NamesParts(tensors: seq<Tensor>)
    requires tensors != []
    ensures NamesDecode(tensors) <==> Utf8(tensors[0].name) && NamesDecode(tensors[1..])
  {
    hide Utf8;
    if Utf8(tensors[0].name) && NamesDecode(tensors[1..]) {
      forall i | 0 <= i < |tensors| ensures Utf8(tensors[i].name) {
        if i > 0 {
          assert tensors[i] == tensors[1..][i - 1];
        }
      }
    }
  }

  lemma PackParts(tensors: seq<Tensor>)
    requires tensors != [] && AllPack(tensors)
    ensures TensorPacks(tensors[0]) && AllPack(tensors[1..])
    ensures RecordsOf(tensors) == [RecordOf(tensors[0])] + RecordsOf(tensors[1..])
    ensures AllTensors(tensors) == TensorBytes(tensors[0]) + AllTensors(tensors[1..])
  {
    hide TensorPacks, RecordOf, TensorBytes;
  }

  lemma NoTensors(data: seq<nat>, p: nat)
    ensures AllTensors([]) == [] && RecordsOf([]) == [] && Records(data, p, 0) == Some(([], p)) && NamesDecode([])
  {
  }

  lemma {:induction false} TensorsAt(data: seq<nat>, p: nat, tensors: seq<Tensor>)
    requires At(data, p, AllTensors(tensors)) && AllPack(tensors)
    ensures Records(data, p, |tensors|)
      == if NamesDecode(tensors) then Some((RecordsOf(tensors), p + |AllTensors(tensors)|)) else None
    decreases |tensors|
  {
    hide Records, At, TensorBytes, RecordOf, TensorPacks, AllPack, RecordsOf, AllTensors, NamesDecode, Utf8;
    if tensors == [] {
      NoTensors(data, p);
    } else {
      var first, rest := TensorBytes(tensors[0]), tensors[1..];
      PackParts(tensors);
      NamesParts(tensors);
      AtParts(data, p, first, AllTensors(rest));
      TensorStep(data, p, |tensors|, tensors[0]);
      TensorsAt(data, p + |first|, rest);
    }
  }

  lemma HeadAt(data: seq<nat>, tensors: nat, keys: nat)
    requires At(data, 0, Head(tensors, keys)) && tensors < U64 && keys < U64
    ensures Read(data, 0, 4) == Some(MAGIC) && Read(data, 4, 4) == Some(3)
    ensures Read(data, 8, 8) == Some(tensors) && Read(data, 16, 8) == Some(keys)
  {
    hide Read, Le, At;
    AtParts(data, 0, Le(MAGIC, 4) + Le(3, 4) + Le(tensors, 8), Le(keys, 8));
    AtParts(data, 0, Le(MAGIC, 4) + Le(3, 4), Le(tensors, 8));
    AtParts(data, 0, Le(MAGIC, 4), Le(3, 4));
    Read32At(data, 0, MAGIC);
    Read32At(data, 4, 3);
    Read64At(data, 8, tensors);
    Read64At(data, 16, keys);
  }

  /** Parsing what the builder prints, whatever names it prints: a name or text that is not UTF-8 and
      an alignment cut short are errors, and so is an alignment of zero; otherwise the result is
      exactly the tensors, each offset moved by the end of the records rounded up to the
      alignment. */
  lemma {:induction false} ParsePrint(keys: seq<Key>, tensors: seq<Tensor>)
    requires Packs(keys, tensors) && AllReading(keys)
    ensures var data := Print(keys, tensors);
      var alignment := AlignmentIn(data, 24, keys, 32);
      Parse(data)
      == if !AllDecode(keys) || !NamesDecode(tensors) || alignment.None? then Err(Unreadable)
         else if alignment.value == 0 then Err(ZeroAlignment)
         else Ok(Moved(RecordsOf(tensors), AlignUp(|Body(keys, tensors)|, alignment.value)))
  {
    hide Read, At, Head, AllKeys, AllTensors, Keys, Records, KeyPacks, AllReading, AllPack, AlignmentIn, AlignUp,
         RecordsOf, AllDecode, NamesDecode, Moved;
    var data := Print(keys, tensors);
    PrintedParts(keys, tensors);
    HeadAt(data, |tensors|, |keys|);
    KeysAt(data, 24, keys, 32);
    TensorsAt(data, 24 + |AllKeys(keys)|, tensors);
  }

  lemma PrintedParts(keys: seq<Key>, tensors: seq<Tensor>)
    ensures var data := Print(keys, tensors);
      && At(data, 0, Head(|tensors|, |keys|)) && At(data, 24, AllKeys(keys))
        && At(data, 24 + |AllKeys(keys)|, AllTensors(tensors))
      && |Body(keys, tensors)| == 24 + |AllKeys(keys)| + |AllTensors(tensors)|
  {
    hide At, Head, AllKeys, AllTensors;
    var data, body := Print(keys, tensors), Body(keys, tensors);
    var head := Head(|tensors|, |keys|);
    HeadSize(|tensors|, |keys|);
    BodyAt(body, Padding(|body|));
    AtParts(data, 0, head + AllKeys(keys), AllTensors(tensors));
    AtParts(data, 0, head, AllKeys(keys));
  }

  lemma HeadSize(tensors: nat, keys: nat)
    ensures |Head(tensors, keys)| == 24
  {
  }

  lemma BodyAt(body: seq<nat>, padding: seq<nat>)
    ensures At(body + padding, 0, body)
  {
  }

  /** With the alignment left at its default the data start is the length of the printed header, so
      each tensor's offset counts from where the data begins. */
  lemma {:induction false} DataStart(keys: seq<Key>, tensors: seq<Tensor>)
    ensures AlignUp(|Body(keys, tensors)|, 32) == |Print(keys, tensors)|
  {
    hide Body;
    var n := |Body(keys, tensors)|;
    var q := (n + 31) / 32;
    assert Mul(q, 32) == 32 * q;
    assert n % 32 == n - 32 * (n / 32);
  }

  // ---- The format's constants ----

  /** The scalar values of the format, in the order of their type numbers but for the texts (8) and the
      arrays (9) between BOOL and UINT64. */
  datatype Scalar = Uint8 | Int8 | Uint16 | Int16 | Uint32 | Int32 | Float32 | Bool | Uint64 | Int64 | Float64

  function ScalarBits(s: Scalar): nat {
    match s
    case Uint8 | Int8 | Bool => 8
    case Uint16 | Int16 => 16
    case Uint32 | Int32 | Float32 => 32
    case Uint64 | Int64 | Float64 => 64
  }

  function TypeNumber(s: Scalar): nat {
    match s
    case Uint8 => 0 case Int8 => 1 case Uint16 => 2 case Int16 => 3 case Uint32 => 4 case Int32 => 5
    case Float32 => 6 case Bool => 7 case Uint64 => 10 case Int64 => 11 case Float64 => 12
  }

  /** A scalar value takes the bytes of its bits: the walk ends right after it, and no other type
      number is a scalar's. */
  lemma ScalarsSkipped(data: seq<nat>, p: nat, s: Scalar)
    ensures Skip(data, p, TypeNumber(s)) == Some(p + ScalarBits(s) / 8)
  {
    hide Read, Text, SkipMany;
  }

  lemma NoOtherScalar(vtype: nat)
    ensures Width(vtype).Some? <==> exists s :: TypeNumber(s) == vtype
  {
    if Width(vtype).Some? {
      var s := match vtype
        case 0 => Uint8 case 1 => Int8 case 2 => Uint16 case 3 => Int16 case 4 => Uint32 case 5 => Int32
        case 6 => Float32 case 7 => Bool case 10 => Uint64 case 11 => Int64 case _ => Float64;
      assert TypeNumber(s) == vtype;
    }
  }

  /** The key of the alignment is that text. */
  lemma AlignmentKeyText()
    ensures |ALIGNMENT_KEY| == |"general.alignment"|
    ensures forall i :: 0 <= i < |ALIGNMENT_KEY| ==> ALIGNMENT_KEY[i] == "general.alignment"[i] as nat
  {
  }

  /** Rounding up gives the least multiple of the alignment from a position on. */
  lemma AlignUpLeast(n: nat, alignment: nat)
    requires alignment > 0
    ensures n <= AlignUp(n, alignment) < n + alignment && AlignUp(n, alignment) % alignment == 0
  {
    var m := n + alignment - 1;
    var q := m / alignment;
    assert m == q * alignment + m % alignment;
    MultipleOf(q * alignment, alignment, q);
  }
}
