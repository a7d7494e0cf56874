/** Relabelling commutes with parsing. */
module GgufRelabelTheorems {
  import opened Arithmetic
  import opened Results
  import opened Digits
  import opened GgufBytes
  import opened Gguf
  import opened GgufRelabel

  // ---- The two walks agree on values ----

  lemma {:induction false} FixedElements(data: seq<nat>, at: nat, vtype: nat, count: nat)
    requires Width(vtype).Some? && vtype != 8 && vtype != 9
    ensures SkipValues(data, at, vtype, count) == Ok(at + Mul(count, Width(vtype).value))
    decreases count
  {
    if count == 0 {
    } else {
      FixedElement(data, at, vtype);
      hide SkipValue, Width;
      FixedElements(data, at + Width(vtype).value, vtype, count - 1);
    }
  }

  lemma FixedElement(data: seq<nat>, at: nat, vtype: nat)
    requires Width(vtype).Some? && vtype != 8 && vtype != 9
    ensures SkipValue(data, at, vtype) == Ok(at + Width(vtype).value)
  {
  }

  lemma WidthNot89()
    ensures Width(8).None? && Width(9).None?
  {
  }

  /** A text at p that is not UTF-8. */
  ghost predicate BadText(data: seq<nat>, p: nat) {
    Read(data, p, 8).Some? && Text(data, p).None?
  }

  /** Some text between two positions is not UTF-8. */
  ghost predicate BadBetween(data: seq<nat>, from: nat, to: nat) {
    exists p :: from <= p < to && BadText(data, p)
  }

  /** What the parser makes of a value that ends at q: the same end, or an error at a bad text. */
  ghost predicate SameEnd(data: seq<nat>, at: nat, r: Option<nat>, q: nat) {
    r == Some(q) || (r == None && BadBetween(data, at, q))
  }

  lemma BadWithin(data: seq<nat>, from: nat, to: nat, from': nat, to': nat)
    requires BadBetween(data, from, to) && from' <= from && to <= to'
    ensures BadBetween(data, from', to')
  {
    hide BadText;
    var p :| from <= p < to && BadText(data, p);
    assert from' <= p < to' && BadText(data, p);
  }

  /** A value the relabeller steps over, the parser steps over to the same place, unless it stops at a
      text of the value that is not UTF-8. */
  lemma {:induction false} SkipAgrees(data: seq<nat>, at: nat, vtype: nat)
    requires SkipValue(data, at, vtype).Ok?
    ensures SameEnd(data, at, Skip(data, at, vtype), SkipValue(data, at, vtype).value)
    decreases Left(data, at), 0, 0
  {
    WidthNot89();
    hide Width, Skip, SkipMany, SkipValues, Read, BadBetween;
    if vtype == 8 {
      SkipTextIs(data, at);
    } else if vtype == 9 {
      var element, count := Read(data, at, 4).value, Read(data, at + 4, 8).value;
      ArrayIs(data, at);
      ArrayLeft(data, at);
      SkipArrayIs(data, at);
      if Width(element).Some? {
        FixedElements(data, at + 12, element, count);
      } else {
        SkipManyAgrees(data, at + 12, element, count);
        var q := SkipValues(data, at + 12, element, count).value;
        if SkipMany(data, at + 12, element, count).None? {
          BadWithin(data, at + 12, q, at, q);
        }
      }
    } else {
      SkipFixedIs(data, at, vtype);
    }
  }

  lemma ArrayIs(data: seq<nat>, at: nat)
    requires SkipValue(data, at, 9).Ok?
    ensures Read(data, at, 4).Some? && Read(data, at + 4, 8).Some?
    ensures SkipValue(data, at, 9) == SkipValues(data, at + 12, Read(data, at, 4).value, Read(data, at + 4, 8).value)
  {
    hide SkipValues;
  }

  lemma SkipTextIs(data: seq<nat>, at: nat)
    requires SkipValue(data, at, 8).Ok?
    ensures SameEnd(data, at, Skip(data, at, 8), SkipValue(data, at, 8).value)
  {
    hide Read, Utf8, Slice;
    if Text(data, at).None? {
      assert BadText(data, at);
    }
  }

  lemma SkipFixedIs(data: seq<nat>, at: nat, vtype: nat)
    requires vtype != 8 && vtype != 9 && SkipValue(data, at, vtype).Ok?
    ensures Skip(data, at, vtype) == Some(SkipValue(data, at, vtype).value)
  {
    hide Read;
  }

  lemma SkipArrayIs(data: seq<nat>, at: nat)
    requires Read(data, at, 4).Some? && Read(data, at + 4, 8).Some?
    ensures var element, count := Read(data, at, 4).value, Read(data, at + 4, 8).value;
      Skip(data, at, 9)
      == if Width(element).Some? then Some(at + 12 + Mul(count, Width(element).value))
         else SkipMany(data, at + 12, element, count)
  {
    hide Read, SkipMany;
  }

  lemma {:induction false} SkipManyAgrees(data: seq<nat>, at: nat, vtype: nat, count: nat)
    requires SkipValues(data, at, vtype, count).Ok?
    ensures SameEnd(data, at, SkipMany(data, at, vtype, count), SkipValues(data, at, vtype, count).value)
    decreases Left(data, at), 1, count
  {
    hide Skip, SkipValue, BadBetween;
    if count == 0 {
      assert SkipMany(data, at, vtype, 0) == Some(at);
    } else {
      var next := SkipValue(data, at, vtype).value;
      var q := SkipValues(data, at, vtype, count).value;
      SkipAgrees(data, at, vtype);
      if Skip(data, at, vtype).None? {
        BadWithin(data, at, next, at, q);
      } else {
        SkipManyAgrees(data, next, vtype, count - 1);
        if SkipMany(data, next, vtype, count - 1).None? {
          BadWithin(data, next, q, at, q);
        }
      }
    }
  }

  // ---- Reading only what lies before a position ----

  lemma TextPrefix(a: seq<nat>, b: seq<nat>, m: nat, at: nat)
    requires SamePrefix(a, b, m) && Read(a, at, 8).Some? && at + 8 + Read(a, at, 8).value <= m
    ensures Text(b, at) == Text(a, at)
  {
    hide Read, Slice, SamePrefix, Utf8;
    ReadPrefix(a, b, m, at, 8);
    var length := Read(a, at, 8).value;
    SlicePrefix(a, b, m, at + 8, at + 8 + length);
  }

  /** A value before a position is walked alike by both walks wherever the bytes up to it are the
      same. */
  lemma {:induction false} SkipPrefix(a: seq<nat>, b: seq<nat>, m: nat, at: nat, vtype: nat)
    requires SamePrefix(a, b, m) && SkipValue(a, at, vtype).Ok? && SkipValue(a, at, vtype).value <= m
    ensures SkipValue(b, at, vtype) == SkipValue(a, at, vtype) && Skip(b, at, vtype) == Skip(a, at, vtype)
    decreases Left(a, at), 0, 0
  {
    WidthNot89();
    hide Read, SamePrefix, Width, Skip, SkipMany, SkipValues;
    if vtype == 8 {
      ReadPrefix(a, b, m, at, 8);
      TextPrefix(a, b, m, at);
      SkipOfText(a, at);
      SkipOfText(b, at);
    } else if vtype == 9 {
      var element, count := Read(a, at, 4).value, Read(a, at + 4, 8).value;
      ArrayLeft(a, at);
      ReadPrefix(a, b, m, at, 4);
      ReadPrefix(a, b, m, at + 4, 8);
      SkipManyPrefix(a, b, m, at + 12, element, count);
      SkipArrayIs(a, at);
      SkipArrayIs(b, at);
    } else {
      SkipFixedIs(a, at, vtype);
      SkipFixedIs(b, at, vtype);
    }
  }

  lemma SkipOfText(data: seq<nat>, at: nat)
    ensures Skip(data, at, 8) == match Text(data, at) case Some(t) => Some(t.1) case None => None
  {
    hide Text;
  }

  lemma {:induction false} SkipManyPrefix(a: seq<nat>, b: seq<nat>, m: nat, at: nat, vtype: nat, count: nat)
    requires SamePrefix(a, b, m) && SkipValues(a, at, vtype, count).Ok? && SkipValues(a, at, vtype, count).value <= m
    ensures SkipValues(b, at, vtype, count) == SkipValues(a, at, vtype, count)
    ensures SkipMany(b, at, vtype, count) == SkipMany(a, at, vtype, count)
    decreases Left(a, at), 1, count
  {
    hide SkipValue, SamePrefix, Skip, BadBetween;
    if count == 0 {
      assert SkipMany(a, at, vtype, 0) == SkipMany(b, at, vtype, 0);
    } else {
      SkipPrefix(a, b, m, at, vtype);
      SkipAgrees(a, at, vtype);
      SkipManyPrefix(a, b, m, SkipValue(a, at, vtype).value, vtype, count - 1);
    }
  }

  /** Keys whose walk ends at least four bytes before the change are walked alike, and set the same
      alignment. */
  lemma {:induction false} KeysPrefix(a: seq<nat>, b: seq<nat>, m: nat, pos: nat, n: nat, alignment: nat)
    requires SamePrefix(a, b, m) && SkipKeys(a, pos, n).Ok? && SkipKeys(a, pos, n).value + 4 <= m
    ensures Keys(a, pos, n, alignment) == Keys(b, pos, n, alignment)
    ensures Keys(a, pos, n, alignment).Some? ==> Keys(a, pos, n, alignment).value.0 == SkipKeys(a, pos, n).value
    decreases n
  {
    hide Read, SkipValue, SamePrefix, Slice, Skip, Utf8, BadBetween;
    if n == 0 {
      assert Keys(a, pos, 0, alignment) == Keys(b, pos, 0, alignment) == Some((pos, alignment));
    } else {
      var length := Read(a, pos, 8).value;
      var q := pos + 8 + length;
      var vtype := Read(a, q, 4).value;
      var next := SkipValue(a, q + 4, vtype).value;
      TextPrefix(a, b, m, pos);
      ReadPrefix(a, b, m, q, 4);
      ReadPrefix(a, b, m, q + 4, 4);
      SkipPrefix(a, b, m, q + 4, vtype);
      SkipAgrees(a, q + 4, vtype);
      if Text(a, pos).Some? {
        var chosen := if Text(a, pos).value.0 == ALIGNMENT_KEY then Read(a, q + 4, 4) else Some(alignment);
        if chosen.Some? {
          KeysPrefix(a, b, m, next, n - 1, chosen.value);
        }
      }
    }
  }

  // ---- Records ----

  lemma {:induction false} LongsPrefix(a: seq<nat>, b: seq<nat>, m: nat, p: nat, count: nat)
    requires SamePrefix(a, b, m) && p + 8 * count <= m
    ensures Longs(a, p, count) == Longs(b, p, count) && Longs(a, p, count).Some?
    decreases count
  {
    hide SamePrefix, Read;
    if count == 0 {
    } else {
      ReadPrefix(a, b, m, p, 8);
      ReadFits(a, m, p, 8, b);
      LongsPrefix(a, b, m, p + 8, count - 1);
    }
  }

  lemma ReadFits(a: seq<nat>, m: nat, p: nat, n: nat, b: seq<nat>)
    requires SamePrefix(a, b, m) && p + n <= m
    ensures Read(a, p, n).Some?
  {
  }

  lemma {:induction false} LongsSuffix(a: seq<nat>, b: seq<nat>, m: nat, p: nat, count: nat)
    requires SameSuffix(a, b, m) && m <= p
    ensures Longs(a, p, count) == Longs(b, p, count)
    decreases count
  {
    hide SameSuffix, Read;
    if count == 0 {
    } else {
      ReadSuffix(a, b, m, p, 8);
      LongsSuffix(a, b, m, p + 8, count - 1);
    }
  }

  lemma TextSuffix(a: seq<nat>, b: seq<nat>, m: nat, at: nat)
    requires SameSuffix(a, b, m) && m <= at
    ensures Text(a, at) == Text(b, at)
  {
    hide Read, Slice, SameSuffix, Utf8;
    ReadSuffix(a, b, m, at, 8);
    if Read(a, at, 8).Some? {
      SliceSuffix(a, b, m, at + 8, at + 8 + Read(a, at, 8).value);
    }
  }

  lemma RecordSuffix(a: seq<nat>, b: seq<nat>, m: nat, pos: nat)
    requires SameSuffix(a, b, m) && m <= pos
    ensures RecordAt(a, pos) == RecordAt(b, pos)
  {
    hide Read, Text, SameSuffix, Longs;
    TextSuffix(a, b, m, pos);
    TextAfter(a, pos);
    if Text(a, pos).Some? {
      var q := Text(a, pos).value.1;
      ReadSuffix(a, b, m, q, 4);
      if Read(a, q, 4).Some? {
        var dims := Read(a, q, 4).value;
        LongsSuffix(a, b, m, q + 4, dims);
        ReadSuffix(a, b, m, q + 4 + 8 * dims, 4);
        ReadSuffix(a, b, m, q + 4 + 8 * dims + 4, 8);
      }
    }
  }

  lemma TextAfter(a: seq<nat>, pos: nat)
    ensures Text(a, pos).Some? ==> Text(a, pos).value.1 >= pos + 8
  {
    hide Read, Slice, Utf8;
  }

  lemma RecordAfter(a: seq<nat>, pos: nat)
    ensures RecordAt(a, pos).Some? ==> RecordAt(a, pos).value.1 >= pos
  {
    hide Read, Text, Longs;
    TextAfter(a, pos);
  }

  lemma {:induction false} RecordsSuffix(a: seq<nat>, b: seq<nat>, m: nat, pos: nat, n: nat)
    requires SameSuffix(a, b, m) && m <= pos
    ensures Records(a, pos, n) == Records(b, pos, n)
    decreases n
  {
    hide RecordAt, SameSuffix;
    if n == 0 {
    } else {
      RecordSuffix(a, b, m, pos);
      RecordAfter(a, pos);
      if RecordAt(a, pos).Some? {
        RecordsSuffix(a, b, m, RecordAt(a, pos).value.1, n - 1);
      }
    }
  }

  function Renamed(kind: nat, from: nat, to: nat): nat {
    if kind == from then to else kind
  }

  /** A record with its type relabelled. */
  function Retyped(record: Record, from: nat, to: nat): Record {
    record.(kind := Renamed(record.kind, from, to))
  }

  function RetypedAt(record: Option<(Record, nat)>, from: nat, to: nat): Option<(Record, nat)> {
    match record
    case Some(r) => Some((Retyped(r.0, from, to), r.1))
    case None => None
  }

  function RetypedAll(records: seq<Record>, from: nat, to: nat): (out: seq<Record>)
    ensures |out| == |records| && forall i :: 0 <= i < |out| ==> out[i] == Retyped(records[i], from, to)
  {
    seq(|records|, i requires 0 <= i < |records| => Retyped(records[i], from, to))
  }

  function CountKind(records: seq<Record>, kind: nat): nat {
    if records == [] then 0 else (if records[0].kind == kind then 1 else 0) + CountKind(records[1..], kind)
  }

  /** A relabelled record parses to the same record with its type renamed and ends where it did, or
      fails as it did on its name. */
  lemma PatchedRecord(data: seq<nat>, pos: nat, from: nat, to: nat)
    requires RecordPatch(data, pos, from, to).Ok? && to < 0x1_0000_0000
    ensures var step := RecordPatch(data, pos, from, to).value;
      && Field(step.bytes, pos) == Ok(step.next - 12)
      && RecordAt(step.bytes, pos) == RetypedAt(RecordAt(data, pos), from, to)
      && (RecordAt(data, pos).Some? ==>
            RecordAt(data, pos).value.1 == step.next && step.hit == (RecordAt(data, pos).value.0.kind == from))
      && SamePrefix(data, step.bytes, step.next - 12) && SameSuffix(data, step.bytes, step.next - 8)
  {
    hide Text, Longs, SamePrefix, SameSuffix, Read, Patched;
    var step := RecordPatch(data, pos, from, to).value;
    var at := step.next - 12;
    var q := pos + 8 + Read(data, pos, 8).value;
    TextIs(data, pos);
    PatchParts(data, at, from, to);
    SamePrefixAll(data, at);
    TextPrefix(data, step.bytes, at, pos);
    ReadPrefix(data, step.bytes, at, pos, 8);
    ReadPrefix(data, step.bytes, at, q, 4);
    var dims := Read(data, q, 4).value;
    LongsPrefix(data, step.bytes, at, q + 4, dims);
    ReadSuffix(data, step.bytes, at + 4, at + 4, 8);
  }

  lemma TextIs(data: seq<nat>, pos: nat)
    requires Read(data, pos, 8).Some?
    ensures Text(data, pos).Some? ==> Text(data, pos).value.1 == pos + 8 + Read(data, pos, 8).value
  {
    hide Read, Slice, Utf8;
  }

  lemma SamePrefixAll(data: seq<nat>, m: nat)
    requires m <= |data|
    ensures SamePrefix(data, data, m)
  {
  }

  lemma PatchParts(data: seq<nat>, at: nat, from: nat, to: nat)
    requires at + 12 <= |data| && to < 0x1_0000_0000
    ensures var out := Patched(data, at, from, to);
      && SamePrefix(data, out, at) && SameSuffix(data, out, at + 4)
      && Read(data, at, 4).Some? && Read(out, at, 4) == Some(Renamed(Read(data, at, 4).value, from, to))
  {
    hide Le, Num, Put, Pow;
    Pow32And64();
    PutRead(data, at, to, 4);
  }

  /** The records of the relabelled bytes are those of the original with their types renamed, and
      the count is of the renamed ones. */
  ghost predicate Commutes(data: seq<nat>, out: seq<nat>, count: nat, pos: nat, n: nat, from: nat, to: nat) {
    var records := Records(data, pos, n);
    && Records(out, pos, n) == RetypedRecords(records, from, to)
    && (records.Some? ==> count == CountKind(records.value.0, from))
  }

  function RetypedRecords(records: Option<(seq<Record>, nat)>, from: nat, to: nat): Option<(seq<Record>, nat)> {
    match records
    case Some(r) => Some((RetypedAll(r.0, from, to), r.1))
    case None => None
  }

  /** Over all records, m being any position before the first type field: nothing up to it has
      changed. */
  lemma {:induction false} RelabelledRecords(data: seq<nat>, pos: nat, n: nat, from: nat, to: nat, m: nat)
    requires Relabelled(data, pos, n, from, to).Ok? && to < 0x1_0000_0000 && m <= pos + 12 && m <= |data|
    ensures var out := Relabelled(data, pos, n, from, to).value;
      Commutes(data, out.0, out.1, pos, n, from, to) && SamePrefix(data, out.0, m)
    decreases n
  {
    hide RecordPatch, RecordAt, SamePrefix, SameSuffix, Retyped, RetypedAt, Commutes;
    if n == 0 {
      SamePrefixAll(data, m);
      NoRecordsCommute(data, pos, from, to);
    } else {
      var step := RecordPatch(data, pos, from, to).value;
      var out := Relabelled(data, pos, n, from, to).value;
      PatchedRecord(data, pos, from, to);
      RecordAfter(data, pos);
      RelabelledRecords(step.bytes, step.next, n - 1, from, to, step.next);
      var rest := Relabelled(step.bytes, step.next, n - 1, from, to).value;
      RecordsSuffix(data, step.bytes, step.next - 8, step.next, n - 1);
      RecordPrefix(step.bytes, out.0, step.next, pos);
      FirstCommutes(data, step.bytes, out.0, rest.1, pos, n, step.next, step.hit, from, to);
      SamePrefixLess(data, step.bytes, step.next - 12, m);
      SamePrefixLess(step.bytes, out.0, step.next, m);
      SamePrefixTrans(data, step.bytes, out.0, m);
    }
  }

  lemma NoRecordsCommute(data: seq<nat>, pos: nat, from: nat, to: nat)
    ensures Commutes(data, data, 0, pos, 0, from, to)
  {
    assert RetypedAll([], from, to) == [];
  }

  lemma FirstCommutes(data: seq<nat>, mid: seq<nat>, out: seq<nat>, count: nat, pos: nat, n: nat, next: nat,
                      hit: bool, from: nat, to: nat)
    requires n > 0 && RecordAt(out, pos) == RetypedAt(RecordAt(data, pos), from, to)
    requires RecordAt(data, pos).Some?
      ==> RecordAt(data, pos).value.1 == next && hit == (RecordAt(data, pos).value.0.kind == from)
    requires Records(data, next, n - 1) == Records(mid, next, n - 1) && Commutes(mid, out, count, next, n - 1, from, to)
    ensures Commutes(data, out, count + (if hit then 1 else 0), pos, n, from, to)
  {
    hide RecordAt, Retyped;
    if RecordAt(data, pos).Some? && Records(data, next, n - 1).Some? {
      var r, rest := RecordAt(data, pos).value.0, Records(data, next, n - 1).value.0;
      assert RetypedAll([r] + rest, from, to) == [Retyped(r, from, to)] + RetypedAll(rest, from, to);
      assert ([r] + rest)[1..] == rest;
    }
  }

  lemma SamePrefixTrans(a: seq<nat>, b: seq<nat>, c: seq<nat>, m: nat)
    requires SamePrefix(a, b, m) && SamePrefix(b, c, m)
    ensures SamePrefix(a, c, m)
  {
  }

  lemma RecordPrefix(a: seq<nat>, b: seq<nat>, m: nat, pos: nat)
    requires SamePrefix(a, b, m) && Field(a, pos).Ok? && Field(a, pos).value + 12 <= m
    ensures RecordAt(b, pos) == RecordAt(a, pos)
  {
    hide Read, Text, SamePrefix, Longs;
    var q := pos + 8 + Read(a, pos, 8).value;
    TextIs(a, pos);
    TextPrefix(a, b, m, pos);
    ReadPrefix(a, b, m, q, 4);
    var dims := Read(a, q, 4).value;
    LongsPrefix(a, b, m, q + 4, dims);
    ReadPrefix(a, b, m, q + 4 + 8 * dims, 4);
    ReadPrefix(a, b, m, q + 4 + 8 * dims + 4, 8);
  }

  // ---- The bytes that change ----

  /** The type fields of the records whose type is relabelled. */
  function ChangedFields(data: seq<nat>, pos: nat, n: nat, from: nat): seq<nat>
    decreases n
  {
    if n == 0 || Field(data, pos).Err? then [] else
      var at := Field(data, pos).value;
      (if Read(data, at, 4) == Some(from) then [at] else []) + ChangedFields(data, at + 12, n - 1, from)
  }

  lemma FieldSuffix(a: seq<nat>, b: seq<nat>, m: nat, pos: nat)
    requires SameSuffix(a, b, m) && m <= pos
    ensures Field(a, pos) == Field(b, pos)
  {
    hide Read, SameSuffix;
    ReadSuffix(a, b, m, pos, 8);
    if Read(a, pos, 8).Some? {
      ReadSuffix(a, b, m, pos + 8 + Read(a, pos, 8).value, 4);
    }
  }

  ghost predicate InField(fields: seq<nat>, j: nat) {
    exists k :: 0 <= k < |fields| && fields[k] <= j < fields[k] + 4
  }

  /** Every byte outside the fields is as it was. */
  ghost predicate OnlyIn(fields: seq<nat>, data: seq<nat>, out: seq<nat>) {
    |out| == |data| && forall j :: 0 <= j < |data| ==> out[j] == data[j] || InField(fields, j)
  }

  lemma {:induction false} FieldsSuffix(a: seq<nat>, b: seq<nat>, m: nat, pos: nat, n: nat, from: nat)
    requires SameSuffix(a, b, m) && m <= pos
    ensures ChangedFields(a, pos, n, from) == ChangedFields(b, pos, n, from)
    decreases n
  {
    hide Field, SameSuffix, Read;
    if n == 0 {
      assert ChangedFields(a, pos, 0, from) == [] == ChangedFields(b, pos, 0, from);
    } else {
      FieldSuffix(a, b, m, pos);
      if Field(a, pos).Ok? {
        ReadSuffix(a, b, m, Field(a, pos).value, 4);
        FieldsSuffix(a, b, m, Field(a, pos).value + 12, n - 1, from);
      }
    }
  }

  lemma OnlyInJoined(data: seq<nat>, mid: seq<nat>, out: seq<nat>, first: seq<nat>, rest: seq<nat>)
    requires OnlyIn(first, data, mid) && OnlyIn(rest, mid, out)
    ensures OnlyIn(first + rest, data, out)
  {
    forall j: nat | j < |data| ensures out[j] == data[j] || InField(first + rest, j) {
      if mid[j] != data[j] {
        var k :| 0 <= k < |first| && first[k] <= j < first[k] + 4;
        assert (first + rest)[k] == first[k];
      } else if out[j] != mid[j] {
        var k :| 0 <= k < |rest| && rest[k] <= j < rest[k] + 4;
        assert (first + rest)[|first| + k] == rest[k];
      }
    }
  }

  lemma PatchOnly(data: seq<nat>, at: nat, from: nat, to: nat)
    requires at + 4 <= |data|
    ensures OnlyIn(if Read(data, at, 4) == Some(from) then [at] else [], data, Patched(data, at, from, to))
  {
    hide Le, Read;
    forall j: nat | j < |data| && at <= j < at + 4 ensures InField([at], j) {
      assert [at][0] <= j < [at][0] + 4;
    }
  }

  /** Relabelling changes no byte outside the type fields of the records it renames. */
  lemma {:induction false} OnlyTypesChange(data: seq<nat>, pos: nat, n: nat, from: nat, to: nat)
    requires Relabelled(data, pos, n, from, to).Ok? && to < 0x1_0000_0000
    ensures OnlyIn(ChangedFields(data, pos, n, from), data, Relabelled(data, pos, n, from, to).value.0)
    decreases n
  {
    hide RecordPatch, Field, Read, SamePrefix, SameSuffix, OnlyIn, Patched;
    if n == 0 {
      OnlyInNothing(data);
    } else {
      var step := RecordPatch(data, pos, from, to).value;
      PatchedRecord(data, pos, from, to);
      StepIsPatch(data, pos, from, to);
      PatchOnly(data, step.next - 12, from, to);
      OnlyTypesChange(step.bytes, step.next, n - 1, from, to);
      FieldsSuffix(data, step.bytes, step.next - 8, step.next, n - 1, from);
      OnlyInJoined(data, step.bytes, Relabelled(data, pos, n, from, to).value.0,
                   if step.hit then [step.next - 12] else [], ChangedFields(step.bytes, step.next, n - 1, from));
    }
  }

  lemma OnlyInNothing(data: seq<nat>)
    ensures OnlyIn([], data, data)
  {
  }

  lemma StepIsPatch(data: seq<nat>, pos: nat, from: nat, to: nat)
    requires RecordPatch(data, pos, from, to).Ok?
    ensures var step := RecordPatch(data, pos, from, to).value;
      && step.next >= 12 && step.next - 8 <= |data| && Field(data, pos) == Ok(step.next - 12)
      && step.bytes == Patched(data, step.next - 12, from, to)
      && step.hit == (Read(data, step.next - 12, 4) == Some(from))
  {
    hide Patched;
  }

  // ---- The whole header ----

  function RetypedResult(r: Result<seq<Record>, Failure>, from: nat, to: nat): Result<seq<Record>, Failure> {
    match r
    case Ok(records) => Ok(RetypedAll(records, from, to))
    case Err(e) => Err(e)
  }

  function IntOf(header: seq<nat>, p: nat): nat {
    match Read(header, p, 8) case Some(v) => v case None => 0
  }

  lemma {:induction false} CountMoved(records: seq<Record>, start: nat, kind: nat)
    ensures CountKind(Moved(records, start), kind) == CountKind(records, kind)
  {
    if records == [] {
    } else {
      CountMoved(records[1..], start, kind);
      assert Moved(records, start)[1..] == Moved(records[1..], start);
    }
  }

  lemma MovedRetyped(records: seq<Record>, start: nat, from: nat, to: nat)
    ensures Moved(RetypedAll(records, from, to), start) == RetypedAll(Moved(records, start), from, to)
  {
  }

  lemma SameHead(header: seq<nat>, out: seq<nat>, m: nat)
    requires SamePrefix(header, out, m) && m >= 24
    ensures Read(header, 0, 4) == Read(out, 0, 4) && Read(header, 4, 4) == Read(out, 4, 4)
    ensures Read(header, 8, 8) == Read(out, 8, 8) && Read(header, 16, 8) == Read(out, 16, 8)
  {
    hide Read, SamePrefix;
    ReadPrefix(header, out, m, 0, 4);
    ReadPrefix(header, out, m, 4, 4);
    ReadPrefix(header, out, m, 8, 8);
    ReadPrefix(header, out, m, 16, 8);
  }

  lemma RelabelIs(header: seq<nat>, from: nat, to: nat)
    requires Relabel(header, from, to).Ok?
    ensures Read(header, 8, 8).Some? && Read(header, 16, 8).Some?
    ensures SkipKeys(header, 24, IntOf(header, 16)).Ok?
    ensures Relabel(header, from, to)
      == Relabelled(header, SkipKeys(header, 24, IntOf(header, 16)).value, IntOf(header, 8), from, to)
  {
    hide Read, SkipKeys, Relabelled;
  }

  /** Wherever relabelling succeeds, parsing its output gives what parsing its input gives with the
      types renamed: the same records, or the same error. */
  lemma {:induction false} RelabelCommutes(header: seq<nat>, from: nat, to: nat)
    requires Relabel(header, from, to).Ok? && to < 0x1_0000_0000
    ensures var out := Relabel(header, from, to).value;
      && Parse(out.0) == RetypedResult(Parse(header), from, to)
      && (Parse(header).Ok? ==> out.1 == CountKind(Parse(header).value, from))
      && OnlyIn(ChangedFields(header, SkipKeys(header, 24, IntOf(header, 16)).value, IntOf(header, 8), from), header,
                out.0)
  {
    hide Relabel, SkipKeys, Relabelled, SamePrefix, Commutes, OnlyIn, ChangedFields, CountKind, RetypedResult, Parse,
         Read, Keys;
    RelabelIs(header, from, to);
    var out := Relabel(header, from, to).value;
    var start, n := SkipKeys(header, 24, IntOf(header, 16)).value, IntOf(header, 8);
    OnlyTypesChange(header, start, n, from, to);
    if n == 0 {
      NothingToRelabel(header, start, from, to);
    } else {
      LongEnough(header, start, n, from, to);
      RelabelledRecords(header, start, n, from, to, start + 4);
      SameHead(header, out.0, start + 4);
      KeysPrefix(header, out.0, start + 4, 24, IntOf(header, 16), 32);
      ParsedAlike(header, out.0, out.1, from, to, start);
    }
  }

  lemma LongEnough(data: seq<nat>, pos: nat, n: nat, from: nat, to: nat)
    requires n > 0 && Relabelled(data, pos, n, from, to).Ok?
    ensures pos + 24 <= |data|
  {
    hide RecordPatch;
  }

  lemma NothingToRelabel(header: seq<nat>, start: nat, from: nat, to: nat)
    requires IntOf(header, 8) == 0
    ensures Relabelled(header, start, 0, from, to) == Ok((header, 0))
    ensures Parse(header) == RetypedResult(Parse(header), from, to)
    ensures Parse(header).Ok? ==> CountKind(Parse(header).value, from) == 0
  {
    hide Read, Keys, AlignUp;
    if Parse(header).Ok? {
      assert Parse(header).value == [];
    }
  }

  lemma ParsedAlike(header: seq<nat>, out: seq<nat>, count: nat, from: nat, to: nat, start: nat)
    requires Read(header, 0, 4) == Read(out, 0, 4) && Read(header, 4, 4) == Read(out, 4, 4)
    requires Read(header, 8, 8) == Read(out, 8, 8) && Read(header, 16, 8) == Read(out, 16, 8)
    requires Keys(header, 24, IntOf(header, 16), 32) == Keys(out, 24, IntOf(header, 16), 32)
    requires Keys(header, 24, IntOf(header, 16), 32).Some? ==> Keys(header, 24, IntOf(header, 16), 32).value.0 == start
    requires Commutes(header, out, count, start, IntOf(header, 8), from, to)
    ensures Parse(out) == RetypedResult(Parse(header), from, to)
    ensures Parse(header).Ok? ==> count == CountKind(Parse(header).value, from)
  {
    hide Read, Keys, Records, AlignUp, Moved, RetypedAll, CountKind;
    var k := Keys(header, 24, IntOf(header, 16), 32);
    var records := Records(header, start, IntOf(header, 8));
    if k.Some? && k.value.1 > 0 && records.Some? {
      var place := AlignUp(records.value.1, k.value.1);
      MovedRetyped(records.value.0, place, from, to);
      CountMoved(records.value.0, place, from);
    }
  }
}
