/** The in-place relabelling of a GGUF header's tensor types, and what it means for the parser. */
module GgufRelabel {
  import opened Results
  import opened Digits
  import opened GgufBytes
  import opened Gguf

  datatype Refusal = NoMagic | TooShort | UnknownType

  // ---- The walk by value ----

  /** The position after a value, here with every type known or refused. */
  function SkipValue(data: seq<nat>, at: nat, vtype: nat): (r: Result<nat, Refusal>)
    ensures r.Ok? ==> r.value > at
    decreases Left(data, at), 0, 0
  {
    hide Num, Width;
    if vtype == 8 then
      var length :- IntAt(data, at, 8);
      Ok(at + 8 + length)
    else if vtype == 9 then
      var element :- IntAt(data, at, 4);
      var count :- IntAt(data, at + 4, 8);
      SkipValues(data, at + 12, element, count)
    else if Width(vtype).Some? then
      WidthPositive(vtype);
      Ok(at + Width(vtype).value)
    else Err(UnknownType)
  }

  function SkipValues(data: seq<nat>, at: nat, vtype: nat, count: nat): (r: Result<nat, Refusal>)
    ensures r.Ok? ==> r.value >= at
    decreases Left(data, at), 1, count
  {
    if count == 0 then Ok(at) else
      var next :- SkipValue(data, at, vtype);
      SkipValues(data, next, vtype, count - 1)
  }

  function IntAt(data: seq<nat>, p: nat, n: nat): Result<nat, Refusal> {
    match Read(data, p, n)
    case Some(v) => Ok(v)
    case None => Err(TooShort)
  }

  function SkipKeys(data: seq<nat>, pos: nat, n: nat): (r: Result<nat, Refusal>)
    ensures r.Ok? ==> r.value >= pos
    decreases n
  {
    if n == 0 then Ok(pos) else
      var length :- IntAt(data, pos, 8);
      var vtype :- IntAt(data, pos + 8 + length, 4);
      var next :- SkipValue(data, pos + 8 + length + 4, vtype);
      SkipKeys(data, next, n - 1)
  }

  /** Where the type field of a record lies. */
  function Field(data: seq<nat>, pos: nat): (r: Result<nat, Refusal>)
    ensures r.Ok? ==> r.value >= pos + 12
  {
    var length :- IntAt(data, pos, 8);
    var dims :- IntAt(data, pos + 8 + length, 4);
    Ok(pos + 8 + length + 4 + 8 * dims)
  }

  /** A record's type rewritten where it is `from`. */
  function Patched(data: seq<nat>, at: nat, from: nat, to: nat): (out: seq<nat>)
    requires at + 4 <= |data|
    ensures |out| == |data|
  {
    if Read(data, at, 4) == Some(from) then Put(data, at, to, 4) else data
  }

  /** What relabelling one record leaves: the bytes, the position after, whether it matched. */
  datatype Step = Step(bytes: seq<nat>, next: nat, hit: bool)

  function RecordPatch(data: seq<nat>, pos: nat, from: nat, to: nat): (r: Result<Step, Refusal>)
    ensures r.Ok? ==> |r.value.bytes| == |data| && pos + 24 <= r.value.next <= |data|
  {
    hide Patched;
    var at :- Field(data, pos);
    var kind :- IntAt(data, at, 4);
    var bytes := Patched(data, at, from, to);
    var offset :- IntAt(bytes, at + 4, 8);
    Ok(Step(bytes, at + 12, kind == from))
  }

  /** n records relabelled one after another, each in what the earlier ones left. */
  function Relabelled(data: seq<nat>, pos: nat, n: nat, from: nat, to: nat): (r: Result<(seq<nat>, nat), Refusal>)
    ensures r.Ok? ==> |r.value.0| == |data|
    decreases n
  {
    if n == 0 then Ok((data, 0)) else
      var step :- RecordPatch(data, pos, from, to);
      var rest :- Relabelled(step.bytes, step.next, n - 1, from, to);
      Ok((rest.0, rest.1 + if step.hit then 1 else 0))
  }

  function Relabel(header: seq<nat>, from: nat, to: nat): Result<(seq<nat>, nat), Refusal> {
    if Slice(header, 0, 4) != [71, 71, 85, 70] then Err(NoMagic) else
      var version :- IntAt(header, 4, 4);
      var tensors :- IntAt(header, 8, 8);
      var keys :- IntAt(header, 16, 8);
      var start :- SkipKeys(header, 24, keys);
      Relabelled(header, start, tensors, from, to)
  }

  // ---- The cursor ----

  /** The header copied into a mutable buffer with a reading position. */
  class Cursor {
    const b: array<nat>
    var p: nat

    constructor (header: seq<nat>)
      ensures fresh(b) && b[..] == header && p == 4
    {
      b := new nat[|header|](i requires 0 <= i < |header| => header[i]);
      p := 4;
    }

    method TakeInt(n: nat) returns (r: Result<nat, Refusal>)
      modifies this`p
      ensures r == IntAt(b[..], old(p), n)
      ensures p == if r.Ok? then old(p) + n else old(p)
    {
      r := IntAt(b[..], p, n);
      if r.Ok? {
        p := p + n;
      }
    }

    method SkipText() returns (r: Result<nat, Refusal>)
      modifies this`p
      ensures r == IntAt(b[..], old(p), 8)
      ensures r.Ok? ==> p == old(p) + 8 + r.value
    {
      r := TakeInt(8);
      if r.Ok? {
        p := p + r.value;
      }
    }

    method SkipOne(vtype: nat) returns (r: Result<(), Refusal>)
      modifies this`p
      ensures SkipValue(b[..], old(p), vtype) == if r.Ok? then Ok(p) else Err(r.error)
      ensures r.Ok? ==> p > old(p)
      decreases Left(b[..], p), 0
    {
      hide Width, Read;
      ghost var data, at := b[..], p;
      if vtype == 8 {
        var length := SkipText();
        if length.Err? {
          return Err(length.error);
        }
      } else if vtype == 9 {
        var element :- TakeInt(4);
        var count :- TakeInt(8);
        ArrayLeft(data, at);
        var i := 0;
        while i < count
          invariant i <= count && p >= at + 12 && b[..] == data
          invariant SkipValues(data, at + 12, element, count) == SkipValues(data, p, element, count - i)
          decreases count - i
        {
          LeftFalls(data, at, p);
          var step := SkipOne(element);
          if step.Err? {
            return Err(step.error);
          }
          i := i + 1;
        }
      } else if Width(vtype).Some? {
        WidthPositive(vtype);
        p := p + Width(vtype).value;
      } else {
        return Err(UnknownType);
      }
      r := Ok(());
    }

    /** One record: its type rewritten in the buffer when it matches. */
    method RecordStep(from: nat, to: nat) returns (r: Result<bool, Refusal>)
      modifies this`p, b
      ensures match RecordPatch(old(b[..]), old(p), from, to)
        case Ok(step) => r == Ok(step.hit) && b[..] == step.bytes && p == step.next
        case Err(e) => r == Err(e)
    {
      hide Read;
      ghost var data := b[..];
      var length :- SkipText();
      var dims :- TakeInt(4);
      p := p + 8 * dims;
      var at := p;
      var kind :- TakeInt(4);
      KindFits(data, at);
      if kind == from {
        WriteInt(at, to);
      }
      var offset :- TakeInt(8);
      r := Ok(kind == from);
    }

    method WriteInt(at: nat, v: nat)
      requires at + 4 <= b.Length
      modifies b
      ensures b[..] == Put(old(b[..]), at, v, 4)
    {
      hide Digit;
      ghost var was := b[..];
      var bytes := Le(v, 4);
      for i := 0 to 4
        invariant forall k :: 0 <= k < b.Length ==> b[k] == if at <= k < at + i then bytes[k - at] else was[k]
      {
        b[at + i] := bytes[i];
      }
    }
  }

  lemma KindFits(data: seq<nat>, at: nat)
    ensures IntAt(data, at, 4).Ok? ==> at + 4 <= |data|
    ensures IntAt(data, at, 4).Ok? ==> forall v :: IntAt(data, at, 4) == Ok(v) <==> Read(data, at, 4) == Some(v)
  {
  }

  lemma ArrayLeft(data: seq<nat>, at: nat)
    ensures IntAt(data, at, 4).Ok? && IntAt(data, at + 4, 8).Ok? ==> at + 12 <= |data|
  {
  }

  lemma LeftFalls(data: seq<nat>, at: nat, p: nat)
    requires at + 12 <= |data| && p >= at + 12
    ensures Left(data, p) < Left(data, at)
  {
  }

  /** relabel: the keys stepped over, then every record in place. */
  method RelabelLoop(header: seq<nat>, from: nat, to: nat) returns (r: Result<(seq<nat>, nat), Refusal>)
    ensures r == Relabel(header, from, to)
  {
    hide Read, SkipValue, RecordPatch, Width;
    var cursor := new Cursor(header);
    if Slice(header, 0, 4) != [71, 71, 85, 70] {
      return Err(NoMagic);
    }
    var version :- cursor.TakeInt(4);
    var tensors :- cursor.TakeInt(8);
    var keys :- cursor.TakeInt(8);
    for i := 0 to keys
      invariant cursor.b[..] == header
      invariant SkipKeys(header, 24, keys) == SkipKeys(header, cursor.p, keys - i)
    {
      var length :- cursor.SkipText();
      var vtype :- cursor.TakeInt(4);
      var step :- cursor.SkipOne(vtype);
    }
    ghost var start := cursor.p;
    var changed := 0;
    for i := 0 to tensors
      invariant Relabelled(header, start, tensors, from, to)
        == Counted(changed, Relabelled(cursor.b[..], cursor.p, tensors - i, from, to))
    {
      CountedStep(changed, cursor.b[..], cursor.p, tensors - i, from, to);
      var hit :- cursor.RecordStep(from, to);
      if hit {
        changed := changed + 1;
      }
    }
    r := Ok((cursor.b[..], changed));
  }

  /** A relabelling that follows some records already changed. */
  function Counted(changed: nat, rest: Result<(seq<nat>, nat), Refusal>): Result<(seq<nat>, nat), Refusal> {
    match rest
    case Ok(r) => Ok((r.0, changed + r.1))
    case Err(e) => Err(e)
  }

  lemma CountedStep(changed: nat, data: seq<nat>, pos: nat, n: nat, from: nat, to: nat)
    requires n > 0
    ensures var step := RecordPatch(data, pos, from, to);
      Counted(changed, Relabelled(data, pos, n, from, to))
      == if step.Err? then Err(step.error)
         else Counted(changed + (if step.value.hit then 1 else 0),
                      Relabelled(step.value.bytes, step.value.next, n - 1, from, to))
  {
    hide RecordPatch;
  }
}
