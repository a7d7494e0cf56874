/** Relabelling a header the builder prints always succeeds. */
module GgufRelabelPrinted {
  import opened Arithmetic
  import opened Results
  import opened Digits
  import opened GgufBytes
  import opened Gguf
  import opened GgufBuild
  import opened GgufRelabel
  import opened GgufRelabelTheorems

  // ---- Keys ----

  lemma TextSkipped(data: seq<nat>, p: nat, s: seq<nat>)
    requires At(data, p, Str(s)) && TextPacks(s)
    ensures Read(data, p, 8) == Some(|s|) && |Str(s)| == 8 + |s|
    ensures SkipValue(data, p, 8) == Ok(p + |Str(s)|)
  {
    hide Le, Read;
    AtParts(data, p, Le(|s|, 8), s);
    Read64At(data, p, |s|);
  }

  lemma {:induction false} TextsSkipped(data: seq<nat>, p: nat, texts: seq<seq<nat>>)
    requires At(data, p, Strs(texts)) && TextsPack(texts)
    ensures SkipValues(data, p, 8, |texts|) == Ok(p + |Strs(texts)|)
    decreases |texts|
  {
    hide SkipValue, Str, At, TextPacks, TextsPack;
    if texts == [] {
      assert SkipValues(data, p, 8, 0) == Ok(p) && |Strs(texts)| == 0;
    } else {
      TextsParts(texts);
      AtParts(data, p, Str(texts[0]), Strs(texts[1..]));
      TextSkipped(data, p, texts[0]);
      TextsSkipped(data, p + |Str(texts[0])|, texts[1..]);
    }
  }

  lemma ArraySkipped(data: seq<nat>, p: nat, element: nat, count: nat, items: seq<nat>)
    requires At(data, p, Le(element, 4) + Le(count, 8) + items) && element < U32 && count < U64
    ensures At(data, p + 12, items) && SkipValue(data, p, 9) == SkipValues(data, p + 12, element, count)
  {
    hide Le, Read, At, SkipValues;
    AtParts(data, p, Le(element, 4) + Le(count, 8), items);
    AtParts(data, p, Le(element, 4), Le(count, 8));
    Read32At(data, p, element);
    Read64At(data, p + 4, count);
  }

  lemma IntsSkippedByValue(data: seq<nat>, p: nat, key: Key)
    requires key.KeyInts? && KeyReads(key)
    ensures SkipValues(data, p, key.element, |key.values|) == Ok(p + |Ints(key.values)|)
  {
    if key.values == [] {
      assert SkipValues(data, p, key.element, 0) == Ok(p);
    } else {
      FixedElements(data, p, key.element, |key.values|);
      assert Mul(|key.values|, 4) == 4 * |key.values|;
    }
  }

  lemma PayloadSkippedByValue(data: seq<nat>, p: nat, key: Key)
    requires At(data, p, Payload(key)) && KeyPacks(key) && KeyReads(key)
    ensures SkipValue(data, p, TypeOf(key)) == Ok(p + |Payload(key)|)
  {
    hide SkipValue, SkipValues, Le, At, TextPacks, TextsPack;
    match key
    case KeyU32(_, value) => FixedElement(data, p, 4);
    case KeyBool(_, flag) => FixedElement(data, p, 7);
    case KeyText(_, text) => TextSkipped(data, p, text);
    case KeyTexts(_, texts) =>
      ArraySkipped(data, p, 8, |texts|, Strs(texts));
      TextsSkipped(data, p + 12, texts);
    case KeyInts(_, element, values) =>
      ArraySkipped(data, p, element, |values|, Ints(values));
      IntsSkippedByValue(data, p + 12, key);
  }

  lemma KeySkipped(data: seq<nat>, p: nat, n: nat, key: Key)
    requires At(data, p, KeyBytes(key)) && KeyPacks(key) && KeyReads(key) && n > 0
    ensures SkipKeys(data, p, n) == SkipKeys(data, p + |KeyBytes(key)|, n - 1)
  {
    hide SkipValue, Read, Le, At, Payload, KeyReads;
    var q := p + |Str(key.name)|;
    AtParts(data, p, Str(key.name) + Le(TypeOf(key), 4), Payload(key));
    AtParts(data, p, Str(key.name), Le(TypeOf(key), 4));
    TextSkipped(data, p, key.name);
    Read32At(data, q, TypeOf(key));
    PayloadSkippedByValue(data, q + 4, key);
  }

  lemma NoKeysSkipped(data: seq<nat>, p: nat)
    ensures SkipKeys(data, p, 0) == Ok(p) && AllKeys([]) == []
  {
  }

  lemma {:induction false} KeysSkipped(data: seq<nat>, p: nat, keys: seq<Key>)
    requires At(data, p, AllKeys(keys)) && AllReading(keys)
    ensures SkipKeys(data, p, |keys|) == Ok(p + |AllKeys(keys)|)
    decreases |keys|
  {
    hide At, KeyBytes, KeyPacks, KeyReads, AllReading, SkipKeys, AllKeys;
    if keys == [] {
      NoKeysSkipped(data, p);
    } else {
      KeysParts(keys);
      AtParts(data, p, KeyBytes(keys[0]), AllKeys(keys[1..]));
      KeySkipped(data, p, |keys|, keys[0]);
      KeysSkipped(data, p + |KeyBytes(keys[0])|, keys[1..]);
    }
  }

  // ---- Records ----

  lemma AtSuffix(a: seq<nat>, b: seq<nat>, m: nat, p: nat, x: seq<nat>)
    requires At(a, p, x) && SameSuffix(a, b, m) && m <= p
    ensures At(b, p, x)
  {
    SameSlice(a, b, m, p, p + |x|);
  }

  lemma TensorPatched(data: seq<nat>, p: nat, t: Tensor, from: nat, to: nat)
    requires At(data, p, TensorBytes(t)) && TensorPacks(t)
    ensures var step := RecordPatch(data, p, from, to);
      step.Ok? && step.value.next == p + |TensorBytes(t)| && step.value.hit == (from == 1)
  {
    hide Read, Le, At, Patched;
    var q := p + |Str(t.name)|;
    AtParts(data, p, Str(t.name) + Le(2, 4) + Le(t.ne0, 8) + Le(t.ne1, 8) + Le(1, 4), Le(t.offset, 8));
    AtParts(data, p, Str(t.name) + Le(2, 4) + Le(t.ne0, 8) + Le(t.ne1, 8), Le(1, 4));
    AtParts(data, p, Str(t.name) + Le(2, 4) + Le(t.ne0, 8), Le(t.ne1, 8));
    AtParts(data, p, Str(t.name) + Le(2, 4), Le(t.ne0, 8));
    AtParts(data, p, Str(t.name), Le(2, 4));
    TextSkipped(data, p, t.name);
    Read32At(data, q, 2);
    Read32At(data, q + 20, 1);
    Read64At(data, q + 24, t.offset);
    ReadLong(data, Patched(data, q + 20, from, to), q + 24, 8);
  }

  lemma ReadLong(a: seq<nat>, b: seq<nat>, p: nat, n: nat)
    requires |a| == |b| && Read(a, p, n).Some?
    ensures Read(b, p, n).Some?
  {
  }

  lemma {:induction false} TensorsRelabelled(data: seq<nat>, p: nat, tensors: seq<Tensor>, from: nat, to: nat)
    requires At(data, p, AllTensors(tensors)) && AllPack(tensors) && to < U32
    ensures var out := Relabelled(data, p, |tensors|, from, to);
      out.Ok? && out.value.1 == if from == 1 then |tensors| else 0
    decreases |tensors|
  {
    hide RecordPatch, At, TensorBytes, TensorPacks, AllPack, SamePrefix, SameSuffix;
    if tensors == [] {
      assert Relabelled(data, p, 0, from, to) == Ok((data, 0));
    } else {
      var first, rest := TensorBytes(tensors[0]), tensors[1..];
      PackParts(tensors);
      AtParts(data, p, first, AllTensors(rest));
      TensorPatched(data, p, tensors[0], from, to);
      PatchedRecord(data, p, from, to);
      var step := RecordPatch(data, p, from, to).value;
      AtSuffix(data, step.bytes, step.next - 8, step.next, AllTensors(rest));
      TensorsRelabelled(step.bytes, step.next, rest, from, to);
    }
  }

  // ---- The whole header ----

  lemma MagicAt(data: seq<nat>, tensors: nat, keys: nat)
    requires At(data, 0, Head(tensors, keys))
    ensures Slice(data, 0, 4) == [71, 71, 85, 70]
  {
    MagicBytes();
    hide Le;
    AtParts(data, 0, Le(MAGIC, 4) + Le(3, 4) + Le(tensors, 8), Le(keys, 8));
    AtParts(data, 0, Le(MAGIC, 4) + Le(3, 4), Le(tensors, 8));
    AtParts(data, 0, Le(MAGIC, 4), Le(3, 4));
  }

  lemma MagicBytes()
    ensures Le(MAGIC, 4) == [71, 71, 85, 70]
  {
    assert MAGIC / 256 == 0x465547 && 0x465547 / 256 == 0x4655 && 0x4655 / 256 == 0x46;
    assert Digit(256, 0x46, 0) == 70;
    assert Digit(256, 0x4655, 0) == 85 && Digit(256, 0x4655, 1) == 70;
    assert Digit(256, 0x465547, 1) == 85 && Digit(256, 0x465547, 2) == 70;
  }

  /** Every header the builder prints can be relabelled, names that are not UTF-8 included: all of its
      records are renamed where `from` is the type the builder gives them, and none otherwise. The
      output then parses to the builder's tensors with the type renamed. */
  lemma {:induction false} RelabelPrint(keys: seq<Key>, tensors: seq<Tensor>, from: nat, to: nat)
    requires Packs(keys, tensors) && AllReading(keys) && to < U32
    ensures var header := Print(keys, tensors);
      var out := Relabel(header, from, to);
      && out.Ok? && out.value.1 == (if from == 1 then |tensors| else 0)
      && Parse(out.value.0) == RetypedResult(Parse(header), from, to)
  {
    hide Read, At, Head, AllKeys, AllTensors, SkipKeys, Relabelled, AllReading, AllPack, Slice, Parse, RetypedResult;
    var header := Print(keys, tensors);
    PrintedParts(keys, tensors);
    MagicAt(header, |tensors|, |keys|);
    HeadAt(header, |tensors|, |keys|);
    KeysSkipped(header, 24, keys);
    TensorsRelabelled(header, 24 + |AllKeys(keys)|, tensors, from, to);
    hide Print;
    RelabelCommutes(header, from, to);
  }
}
