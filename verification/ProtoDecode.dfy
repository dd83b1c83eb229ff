/**
 The generated decoders. Those of the four messages have one loop and differ only
 in their table of fields, which is a parameter here.
 */
module ProtoDecode {
  import opened Bytes
  import opened Bitmaps
  import opened Varints

  /** A larger slice does not fit in memory; below this size index sums wrap only for huge encoded lengths. */
  const MAX_INPUT: nat := 0x4000_0000_0000_0000

  datatype Error = Eof | Overflow | InvalidLength | EndGroup | IllegalTag | WrongWireType | IllegalWireType

  /** `Panics` is an index or slice expression out of bounds. */
  datatype Outcome<T> = Ok(value: T) | Err(error: Error) | Panics

  datatype Kind = Int32 | Uint64 | Text | Nested

  /** The fields a message has, by number. */
  type Schema = map<nat, Kind>

  datatype Val = Num(n: int) | Str(bytes: seq<byte>) | List(items: seq<seq<byte>>)

  /** The fields set so far; an absent field has its zero value. */
  type Record = map<nat, Val>

  const SIMPLE: Schema := map[1 := Text]

  function AsError(r: Read): (e: Error)
    requires !r.Value?
  {
    if r.UnexpectedEof? then Eof else Overflow
  }

  // ----- skipping an unknown field --------------------------------------------

  /** The number of bytes of the field at the start; an overflowing length makes it negative. */
  function Skip(bs: seq<byte>): (r: Outcome<int>)
    decreases |bs|, 1, 0
  {
    var d := DecVarint(bs, 0, 0);
    if bs == [] then Panics
    else if !d.Value? then Err(AsError(d))
    else
      var j, wireType := d.next, d.v % 8;
      if wireType == 0 then
        var e := DecVarint(bs, j, 0);
        if e.Value? then Ok(e.next) else Err(AsError(e))
      else if wireType == 1 then Ok(j + 8)
      else if wireType == 2 then
        var e := DecVarint(bs, j, 0);
        if !e.Value? then Err(AsError(e))
        else if ToInt64(e.v) < 0 then Err(InvalidLength)
        else Ok(Wrap(e.next + ToInt64(e.v)))
      else if wireType == 3 then SkipGroup(bs, j)
      else if wireType == 4 then Ok(j)
      else if wireType == 5 then Ok(j + 4)
      else Err(IllegalWireType)
  }

  /** The end of the group whose fields start at `i`; an index that wraps is out of range. */
  function SkipGroup(bs: seq<byte>, i: nat): (r: Outcome<int>)
    requires i > 0
    decreases |bs|, 0, |bs| - i
  {
    var d := DecVarint(bs, i, 0);
    if !d.Value? then Err(AsError(d))
    else if d.v % 8 == 4 then Ok(d.next)
    else
      var s := Skip(bs[i..]);
      if !s.Ok? then s
      else if s.value <= 0 || Wrap(i + s.value) <= i then Panics
      else SkipGroup(bs, Wrap(i + s.value))
  }

  /** A 64-bit sum. */
  function Wrap(n: nat): (r: int) {
    ToInt64(n)
  }

  /** The low bits and the signed view of a number survive its truncation to 64 bits. */
  lemma Truncated(v: nat)
    ensures Truncate(true, v) % 8 == v % 8 && ToInt64(Truncate(true, v)) == ToInt64(v)
  {
    var q, r := v / U64_LIMIT, v % U64_LIMIT;
    assert v == 8 * (0x2000_0000_0000_0000 * q) + r;
  }

  method SkipNetworkdb(dAtA: seq<byte>) returns (r: Outcome<int>)
    requires |dAtA| < MAX_INPUT
    ensures r == Skip(dAtA)
    decreases |dAtA|, 1
  {
    hide DecVarint, Truncate, ToInt64, SkipGroup;
    if |dAtA| == 0 {
      return Panics;
    }
    var wire := ReadVarint(dAtA, 0, true);
    if !wire.Value? {
      return Err(AsError(wire));
    }
    Truncated(DecVarint(dAtA, 0, 0).v);
    var wireType, iNdEx := wire.v % 8, wire.next;
    if wireType == 0 {
      var e := ReadVarint(dAtA, iNdEx, true);
      return if e.Value? then Ok(e.next) else Err(AsError(e));
    } else if wireType == 1 {
      return Ok(iNdEx + 8);
    } else if wireType == 2 {
      var e := ReadVarint(dAtA, iNdEx, true);
      if !e.Value? {
        return Err(AsError(e));
      }
      Truncated(DecVarint(dAtA, iNdEx, 0).v);
      var length := ToInt64(e.v);
      if length < 0 {
        return Err(InvalidLength);
      }
      return Ok(Wrap(e.next + length));
    } else if wireType == 3 {
      r := SkipFields(dAtA, iNdEx);
    } else if wireType == 4 {
      return Ok(iNdEx);
    } else if wireType == 5 {
      return Ok(iNdEx + 4);
    } else {
      return Err(IllegalWireType);
    }
  }

  method SkipFields(dAtA: seq<byte>, i: nat) returns (r: Outcome<int>)
    requires |dAtA| < MAX_INPUT && 0 < i <= |dAtA|
    ensures r == SkipGroup(dAtA, i)
    decreases |dAtA|, 0
  {
    hide DecVarint, Truncate, Skip;
    var iNdEx := i;
    while true
      invariant 0 < iNdEx && SkipGroup(dAtA, iNdEx) == SkipGroup(dAtA, i)
      decreases |dAtA| - iNdEx
    {
      var start := iNdEx;
      var inner := ReadVarint(dAtA, iNdEx, true);
      if !inner.Value? {
        return Err(AsError(inner));
      }
      Truncated(DecVarint(dAtA, iNdEx, 0).v);
      if inner.v % 8 == 4 {
        return Ok(inner.next);
      }
      var next := SkipNetworkdb(dAtA[start..]);
      if !next.Ok? {
        return next;
      }
      if next.value <= 0 || Wrap(start + next.value) <= start {
        return Panics;
      }
      iNdEx := Wrap(start + next.value);
    }
  }

  // ----- decoding a message ---------------------------------------------------

  /** The bytes a length at `j` announces: from `start` to `end`. */
  datatype Span = Span(start: nat, end: nat)

  function DecLength(bs: seq<byte>, j: nat): (r: Outcome<Span>)
    ensures r.Ok? ==> j < r.value.start <= r.value.end <= |bs|
  {
    var d := DecVarint(bs, j, 0);
    if !d.Value? then Err(AsError(d))
    else
      var length := ToInt64(d.v);
      if length < 0 then Err(InvalidLength)
      else if Wrap(d.next + length) > |bs| then Err(Eof)
      else if Wrap(d.next + length) < d.next then Panics
      else Ok(Span(d.next, Wrap(d.next + length)))
  }

  /** A record and the index of the next field. */
  datatype Progress = Progress(rec: Record, next: nat)

  function Payload(rec: Record): (bs: seq<byte>) {
    if 1 in rec && rec[1].Str? then rec[1].bytes else []
  }

  function Items(rec: Record, num: nat): (ps: seq<seq<byte>>) {
    if num in rec && rec[num].List? then rec[num].items else []
  }

  /** Reads the value of a known field. */
  function DecValue(kind: Kind, num: nat, wireType: nat, bs: seq<byte>, j: nat, rec: Record): (r: Outcome<Progress>)
    ensures r.Ok? ==> j < r.value.next <= |bs|
    decreases |bs| - j, 0
  {
    if wireType != (if kind == Int32 || kind == Uint64 then 0 else 2) then Err(WrongWireType)
    else if kind == Int32 || kind == Uint64 then
      var d := DecVarint(bs, j, 0);
      if !d.Value? then Err(AsError(d))
      else Ok(Progress(rec[num := Num(if kind == Int32 then ToInt32(d.v) else d.v % U64_LIMIT)], d.next))
    else
      var s := DecLength(bs, j);
      match s
      case Err(e) => Err(e)
      case Panics => Panics
      case Ok(span) =>
        var body := bs[span.start..span.end];
        if kind == Text then Ok(Progress(rec[num := Str(body)], span.end))
        else
          var sub := DecFrom(SIMPLE, body, 0, map[]);
          match sub
          case Err(e) => Err(e)
          case Panics => Panics
          case Ok(r) => Ok(Progress(rec[num := List(Items(rec, num) + [Payload(r)])], span.end))
  }

  /** Reads one field. */
  function DecField(schema: Schema, bs: seq<byte>, i: nat, rec: Record): (r: Outcome<Progress>)
    requires i < |bs|
    ensures r.Ok? ==> i < r.value.next <= |bs|
    decreases |bs| - i, 1
  {
    var d := DecVarint(bs, i, 0);
    if !d.Value? then Err(AsError(d))
    else
      var wire: u64 := d.v % U64_LIMIT;
      var fieldNum, wireType := ToInt32(wire / 8), wire % 8;
      if wireType == 4 then Err(EndGroup)
      else if fieldNum <= 0 then Err(IllegalTag)
      else if fieldNum in schema then DecValue(schema[fieldNum], fieldNum, wireType, bs, d.next, rec)
      else
        match Skip(bs[i..])
        case Err(e) => Err(e)
        case Panics => Panics
        case Ok(n) =>
          if n < 0 then Err(InvalidLength)
          else if Wrap(i + n) > |bs| then Err(Eof)
          else if Wrap(i + n) <= i then Panics
          else Ok(Progress(rec, Wrap(i + n)))
  }

  /** Reads fields to the end. */
  function DecFrom(schema: Schema, bs: seq<byte>, i: nat, rec: Record): (r: Outcome<Record>)
    decreases |bs| - i, 2
  {
    if i >= |bs| then Ok(rec)
    else
      match DecField(schema, bs, i, rec)
      case Err(e) => Err(e)
      case Panics => Panics
      case Ok(p) => DecFrom(schema, bs, p.next, p.rec)
  }

  function Decode(schema: Schema, bs: seq<byte>): (r: Outcome<Record>) {
    DecFrom(schema, bs, 0, map[])
  }

  method ReadLength(dAtA: seq<byte>, i: nat) returns (r: Outcome<Span>)
    ensures r == DecLength(dAtA, i)
  {
    hide DecVarint, Truncate, ToInt64;
    var d := ReadVarint(dAtA, i, true);
    if !d.Value? {
      return Err(AsError(d));
    }
    Truncated(DecVarint(dAtA, i, 0).v);
    var length := ToInt64(d.v);
    if length < 0 {
      return Err(InvalidLength);
    }
    var postIndex := Wrap(d.next + length);
    if postIndex > |dAtA| {
      return Err(Eof);
    }
    if postIndex < d.next {
      return Panics;
    }
    return Ok(Span(d.next, postIndex));
  }

  method ReadValue(kind: Kind, num: nat, wireType: nat, dAtA: seq<byte>, i: nat, rec: Record)
    returns (r: Outcome<Progress>)
    requires |dAtA| < MAX_INPUT && i <= |dAtA|
    ensures r == DecValue(kind, num, wireType, dAtA, i, rec)
    decreases |dAtA|, 0
  {
    hide DecVarint, Truncate, ToInt64, DecLength, DecFrom;
    if kind == Int32 || kind == Uint64 {
      if wireType != 0 {
        return Err(WrongWireType);
      }
      var d := ReadVarint(dAtA, i, kind == Uint64);
      if !d.Value? {
        return Err(AsError(d));
      }
      SameValue(DecVarint(dAtA, i, 0).v);
      return Ok(Progress(rec[num := Num(if kind == Int32 then ToInt32(d.v) else d.v)], d.next));
    }
    if wireType != 2 {
      return Err(WrongWireType);
    }
    var s := ReadLength(dAtA, i);
    match s {
      case Err(e) => return Err(e);
      case Panics => return Panics;
      case Ok(span) =>
        var body := dAtA[span.start..span.end];
        if kind == Text {
          return Ok(Progress(rec[num := Str(body)], span.end));
        }
        var sub := Unmarshal(SIMPLE, body);
        match sub {
          case Err(e) => return Err(e);
          case Panics => return Panics;
          case Ok(m) => return Ok(Progress(rec[num := List(Items(rec, num) + [Payload(m)])], span.end));
        }
    }
  }

  lemma SameValue(v: nat)
    ensures ToInt32(Truncate(false, v)) == ToInt32(v) && Truncate(true, v) == v % U64_LIMIT
  {
  }

  method ReadField(schema: Schema, dAtA: seq<byte>, i: nat, rec: Record) returns (r: Outcome<Progress>)
    requires |dAtA| < MAX_INPUT && i < |dAtA|
    ensures r == DecField(schema, dAtA, i, rec)
    decreases |dAtA|, 1
  {
    hide DecVarint, Truncate, ToInt64, ToInt32, Skip, DecValue;
    var d := ReadVarint(dAtA, i, true);
    if !d.Value? {
      return Err(AsError(d));
    }
    SameValue(DecVarint(dAtA, i, 0).v);
    var fieldNum, wireType := ToInt32(d.v / 8), d.v % 8;
    if wireType == 4 {
      return Err(EndGroup);
    }
    if fieldNum <= 0 {
      return Err(IllegalTag);
    }
    if fieldNum in schema {
      r := ReadValue(schema[fieldNum], fieldNum, wireType, dAtA, d.next, rec);
      return;
    }
    var skippy := SkipNetworkdb(dAtA[i..]);
    match skippy {
      case Err(e) => return Err(e);
      case Panics => return Panics;
      case Ok(n) =>
        if n < 0 {
          return Err(InvalidLength);
        }
        if Wrap(i + n) > |dAtA| {
          return Err(Eof);
        }
        if Wrap(i + n) <= i {
          return Panics;
        }
        return Ok(Progress(rec, Wrap(i + n)));
    }
  }

  /** The decoder of a message. */
  method Unmarshal(schema: Schema, dAtA: seq<byte>) returns (r: Outcome<Record>)
    requires |dAtA| < MAX_INPUT
    ensures r == Decode(schema, dAtA)
    decreases |dAtA|, 2
  {
    hide DecField;
    var iNdEx: nat, m: Record := 0, map[];
    while iNdEx < |dAtA|
      invariant iNdEx <= |dAtA|
      invariant DecFrom(schema, dAtA, iNdEx, m) == Decode(schema, dAtA)
    {
      var p := ReadField(schema, dAtA, iNdEx, m);
      match p {
        case Err(e) => return Err(e);
        case Panics => return Panics;
        case Ok(progress) => m, iNdEx := progress.rec, progress.next;
      }
    }
    return Ok(m);
  }
}
