/** The tensor records of a GGUF header: the walk over its keys and records. */
module Gguf {
  import opened Arithmetic
  import opened Results
  import opened Digits
  import opened GgufBytes

  /** Unreadable is an unpacking or decoding error: the caller takes both as a prefix too short. */
  datatype Failure = Unreadable | NotGguf | ZeroAlignment

  datatype Record = Record(name: seq<nat>, shape: seq<nat>, kind: nat, offset: nat)

  const MAGIC := 0x46554747

  /** "general.alignment" */
  const ALIGNMENT_KEY: seq<nat> := [103, 101, 110, 101, 114, 97, 108, 46, 97, 108, 105, 103, 110, 109, 101, 110, 116]

  /** The fixed-width value types. */
  function Width(vtype: nat): Option<nat> {
    if vtype in {0, 1, 7} then Some(1)
    else if vtype in {2, 3} then Some(2)
    else if vtype in {4, 5, 6} then Some(4)
    else if vtype in {10, 11, 12} then Some(8)
    else None
  }

  lemma WidthPositive(vtype: nat)
    requires Width(vtype).Some?
    ensures 1 <= Width(vtype).value <= 8
  {
  }

  /** A length and that many bytes, which must be UTF-8: the bytes there are, and the position
      after. */
  function Text(data: seq<nat>, at: nat): Option<(seq<nat>, nat)> {
    var length :- Read(data, at, 8);
    var text := Slice(data, at + 8, at + 8 + length);
    if Utf8(text) then Some((text, at + 8 + length)) else None
  }

  function Left(data: seq<nat>, at: nat): nat {
    if at < |data| then |data| - at else 0
  }

  /** The position after a value. Any type that is neither fixed-width nor text is walked as an
      array. */
  function Skip(data: seq<nat>, at: nat, vtype: nat): (r: Option<nat>)
    ensures r.Some? ==> r.value > at
    decreases Left(data, at), 0, 0
  {
    hide Num;
    if Width(vtype).Some? then
      WidthPositive(vtype);
      hide Width;
      Some(at + Width(vtype).value)
    else if vtype == 8 then
      var t :- Text(data, at);
      Some(t.1)
    else
      var element :- Read(data, at, 4);
      var count :- Read(data, at + 4, 8);
      hide Width;
      if Width(element).Some? then Some(at + 12 + Mul(count, Width(element).value))
      else SkipMany(data, at + 12, element, count)
  }

  function SkipMany(data: seq<nat>, at: nat, vtype: nat, count: nat): (r: Option<nat>)
    ensures r.Some? ==> r.value >= at
    decreases Left(data, at), 1, count
  {
    if count == 0 then Some(at) else
      var next :- Skip(data, at, vtype);
      SkipMany(data, next, vtype, count - 1)
  }

  /** The position after n keys, and the alignment: the four bytes after the type of the last key
      named general.alignment, whatever its type. */
  function Keys(data: seq<nat>, pos: nat, n: nat, alignment: nat): Option<(nat, nat)>
    decreases n
  {
    if n == 0 then Some((pos, alignment)) else
      var key :- Text(data, pos);
      var vtype :- Read(data, key.1, 4);
      var chosen :- (if key.0 == ALIGNMENT_KEY then Read(data, key.1 + 4, 4) else Some(alignment));
      var next :- Skip(data, key.1 + 4, vtype);
      Keys(data, next, n - 1, chosen)
  }

  /** Eight-byte integers side by side. */
  function Longs(data: seq<nat>, p: nat, count: nat): Option<seq<nat>>
    decreases count
  {
    if count == 0 then Some([]) else
      var v :- Read(data, p, 8);
      var rest :- Longs(data, p + 8, count - 1);
      Some([v] + rest)
  }

  /** A record and the position after it. */
  function RecordAt(data: seq<nat>, pos: nat): Option<(Record, nat)> {
    var name :- Text(data, pos);
    var dims :- Read(data, name.1, 4);
    var shape :- Longs(data, name.1 + 4, dims);
    var at := name.1 + 4 + 8 * dims;
    var kind :- Read(data, at, 4);
    var offset :- Read(data, at + 4, 8);
    Some((Record(name.0, shape, kind, offset), at + 12))
  }

  function Records(data: seq<nat>, pos: nat, n: nat): Option<(seq<Record>, nat)>
    decreases n
  {
    if n == 0 then Some(([], pos)) else
      var first :- RecordAt(data, pos);
      var rest :- Records(data, first.1, n - 1);
      Some(([first.0] + rest.0, rest.1))
  }

  /** Records read before some more. */
  function Joined(done: seq<Record>, rest: Option<(seq<Record>, nat)>): Option<(seq<Record>, nat)> {
    match rest
    case Some(r) => Some((done + r.0, r.1))
    case None => None
  }

  function AlignUp(n: nat, alignment: nat): (r: nat)
    requires alignment > 0
  {
    Mul((n + alignment - 1) / alignment, alignment)
  }

  function Moved(records: seq<Record>, start: nat): (out: seq<Record>)
    ensures |out| == |records|
    ensures forall i :: 0 <= i < |records| ==> out[i] == records[i].(offset := start + records[i].offset)
  {
    seq(|records|, i requires 0 <= i < |records| => records[i].(offset := start + records[i].offset))
  }

  function FromOption<T>(r: Option<T>): Result<T, Failure> {
    match r
    case Some(v) => Ok(v)
    case None => Err(Unreadable)
  }

  /** Every record with its offset counted from the start of the file. */
  function Parse(data: seq<nat>): Result<seq<Record>, Failure> {
    var magic :- FromOption(Read(data, 0, 4));
    var version :- FromOption(Read(data, 4, 4));
    var tensors :- FromOption(Read(data, 8, 8));
    var keys :- FromOption(Read(data, 16, 8));
    if magic != MAGIC || version != 3 then Err(NotGguf) else
      var k :- FromOption(Keys(data, 24, keys, 32));
      var records :- FromOption(Records(data, k.0, tensors));
      if k.1 == 0 then Err(ZeroAlignment) else Ok(Moved(records.0, AlignUp(records.1, k.1)))
  }

  // ---- The loops ----

  method SkipLoop(data: seq<nat>, at: nat, vtype: nat) returns (r: Option<nat>)
    ensures r == Skip(data, at, vtype)
    decreases Left(data, at), 0
  {
    hide Num, Width;
    if Width(vtype).Some? {
      return Some(at + Width(vtype).value);
    }
    if vtype == 8 {
      var t :- Text(data, at);
      return Some(t.1);
    }
    var element :- Read(data, at, 4);
    var count :- Read(data, at + 4, 8);
    if Width(element).Some? {
      return Some(at + 12 + Mul(count, Width(element).value));
    }
    var p := at + 12;
    var i := 0;
    while i < count
      invariant i <= count && p >= at + 12 && at + 12 <= |data|
      invariant SkipMany(data, at + 12, element, count) == SkipMany(data, p, element, count - i)
    {
      var next :- SkipLoop(data, p, element);
      p := next;
      i := i + 1;
    }
    r := Some(p);
  }

  method KeysLoop(data: seq<nat>, keys: nat) returns (r: Option<(nat, nat)>)
    ensures r == Keys(data, 24, keys, 32)
  {
    hide Text, Read, Skip;
    var pos, alignment := 24, 32;
    var i := 0;
    while i < keys
      invariant i <= keys
      invariant Keys(data, 24, keys, 32) == Keys(data, pos, keys - i, alignment)
    {
      var key :- Text(data, pos);
      pos := key.1;
      var vtype :- Read(data, pos, 4);
      var was := alignment;
      if key.0 == ALIGNMENT_KEY {
        alignment :- Read(data, pos + 4, 4);
      }
      pos :- SkipLoop(data, pos + 4, vtype);
      i := i + 1;
    }
    r := Some((pos, alignment));
  }

  /** _gguf_tensors: the header fields, then the keys, then the records appended one by one. */
  method ParseLoop(data: seq<nat>) returns (r: Result<seq<Record>, Failure>)
    ensures r == Parse(data)
  {
    hide Read, Keys, Text, Longs, RecordAt, AlignUp, Records, Joined;
    var magic :- FromOption(Read(data, 0, 4));
    var version :- FromOption(Read(data, 4, 4));
    var tensors :- FromOption(Read(data, 8, 8));
    var keys :- FromOption(Read(data, 16, 8));
    if magic != MAGIC || version != 3 {
      return Err(NotGguf);
    }
    var walked := KeysLoop(data, keys);
    var k :- FromOption(walked);
    var pos := k.0;
    var records: seq<Record> := [];
    JoinedNothing(Records(data, pos, tensors));
    for i := 0 to tensors
      invariant Records(data, k.0, tensors) == Joined(records, Records(data, pos, tensors - i))
    {
      var next := RecordAt(data, pos);
      RecordsStep(data, pos, tensors - i, records);
      if next.None? {
        return Err(Unreadable);
      }
      records := records + [next.value.0];
      pos := next.value.1;
    }
    NoRecords(data, pos, records);
    if k.1 == 0 {
      return Err(ZeroAlignment);
    }
    r := Ok(Moved(records, AlignUp(pos, k.1)));
  }

  lemma NoRecords(data: seq<nat>, pos: nat, done: seq<Record>)
    ensures Joined(done, Records(data, pos, 0)) == Some((done, pos))
  {
    assert done + [] == done;
  }

  lemma JoinedNothing(rest: Option<(seq<Record>, nat)>)
    ensures Joined([], rest) == rest
  {
    if rest.Some? {
      assert [] + rest.value.0 == rest.value.0;
    }
  }

  lemma RecordsStep(data: seq<nat>, pos: nat, n: nat, done: seq<Record>)
    requires n > 0
    ensures RecordAt(data, pos).None? ==> Joined(done, Records(data, pos, n)) == None
    ensures RecordAt(data, pos).Some? ==> (
      var first := RecordAt(data, pos).value;
      Joined(done, Records(data, pos, n)) == Joined(done + [first.0], Records(data, first.1, n - 1)))
  {
    hide RecordAt;
    if RecordAt(data, pos).Some? {
      var first := RecordAt(data, pos).value;
      var rest := Records(data, first.1, n - 1);
      if rest.Some? {
        assert done + ([first.0] + rest.value.0) == (done + [first.0]) + rest.value.0;
      }
    }
  }
}
