/** The generated encoders, and what the decoders make of their output. */
module ProtoEncode {
  import opened Bytes
  import opened Bitmaps
  import opened Varints
  import opened ProtoDecode

  /** A message is encoded as its fields in number order; fields with their zero value are left out. */
  datatype Field = Field(num: nat, val: Val)

  predicate Encodable(f: Field) {
    0 < f.num < 16 && (f.val.Num? ==> -I64_LIMIT <= f.val.n < U64_LIMIT)
  }

  function Tag(num: nat, wireType: nat): (b: byte)
    requires num < 16 && wireType < 8
  {
    num * 8 + wireType
  }

  function EncText(num: nat, bs: seq<byte>): (r: seq<byte>)
    requires num < 16
  {
    [Tag(num, 2)] + EncVarint(|bs|) + bs
  }

  /** A message with the payload as its only field. */
  function EncSimple(payload: seq<byte>): (r: seq<byte>) {
    if payload == [] then [] else EncText(1, payload)
  }

  function EncItems(num: nat, ps: seq<seq<byte>>): (r: seq<byte>)
    requires num < 16
  {
    if ps == [] then [] else EncItems(num, ps[..|ps| - 1]) + EncText(num, EncSimple(ps[|ps| - 1]))
  }

  function EncField(f: Field): (r: seq<byte>)
    requires Encodable(f)
  {
    match f.val
    case Num(n) => if n == 0 then [] else [Tag(f.num, 0)] + EncVarint(ToUint64(n))
    case Str(bs) => if bs == [] then [] else EncText(f.num, bs)
    case List(ps) => EncItems(f.num, ps)
  }

  function Enc(fs: seq<Field>): (r: seq<byte>)
    requires forall f :: f in fs ==> Encodable(f)
  {
    if fs == [] then [] else Enc(fs[..|fs| - 1]) + EncField(fs[|fs| - 1])
  }

  // ----- encoding into a buffer -----------------------------------------------

  method SizeText(num: nat, l: nat) returns (n: nat)
    requires num < 16 && l < U64_LIMIT
    ensures forall bs: seq<byte> :: |bs| == l ==> n == |EncText(num, bs)|
  {
    var v := Sov(l);
    return 1 + l + v;
  }

  method SizeSimple(payload: seq<byte>) returns (n: nat)
    requires |payload| < MAX_INPUT
    ensures n == |EncSimple(payload)|
  {
    if |payload| == 0 {
      return 0;
    }
    n := SizeText(1, |payload|);
  }

  /** The encoded size of a field. */
  method SizeField(f: Field) returns (n: nat)
    requires Encodable(f) && |EncField(f)| < MAX_INPUT
    ensures n == |EncField(f)|
  {
    match f.val
    case Num(v) =>
      if v == 0 {
        return 0;
      }
      var s := Sov(ToUint64(v));
      return 1 + s;
    case Str(bs) =>
      if |bs| == 0 {
        return 0;
      }
      n := SizeText(f.num, |bs|);
    case List(ps) =>
      n := 0;
      var i := 0;
      while i < |ps|
        invariant i <= |ps| && n == |EncItems(f.num, ps[..i])|
      {
        ItemsPrefix(f.num, ps, i + 1);
        var l := SizeSimple(ps[i]);
        var t := SizeText(f.num, l);
        n := n + t;
        i := i + 1;
      }
      assert ps[..i] == ps;
  }

  lemma TextLength(num: nat, bs: seq<byte>)
    requires num < 16
    ensures |bs| < |EncText(num, bs)|
  {
  }

  lemma SimpleLength(payload: seq<byte>)
    ensures |payload| <= |EncSimple(payload)|
  {
  }

  lemma {:induction false} ItemsPrefix(num: nat, ps: seq<seq<byte>>, i: nat)
    requires num < 16 && i <= |ps|
    ensures |EncItems(num, ps[..i])| <= |EncItems(num, ps)|
    ensures i > 0 ==> EncItems(num, ps[..i]) == EncItems(num, ps[..i - 1]) + EncText(num, EncSimple(ps[i - 1]))
    ensures i > 0 ==> |ps[i - 1]| <= |EncSimple(ps[i - 1])| <= |EncItems(num, ps)|
    decreases |ps|
  {
    hide EncText, EncSimple;
    if i > 0 {
      TextLength(num, EncSimple(ps[i - 1]));
      SimpleLength(ps[i - 1]);
    }
    if i == |ps| {
      assert ps[..i] == ps;
      assert i > 0 ==> ps[..i - 1] == ps[..|ps| - 1];
    } else {
      ItemsPrefix(num, ps[..|ps| - 1], i);
      assert ps[..|ps| - 1][..i] == ps[..i];
      assert i > 0 ==> ps[..|ps| - 1][..i - 1] == ps[..i - 1];
    }
  }

  /** `x` has been appended at `i`: `a` holds what it held before `i`, then `x`, and is unchanged after it. */
  twostate predicate Appended(a: array<byte>, i: nat, x: seq<byte>, n: nat)
    reads a
  {
    && i <= n <= a.Length && n == i + |x|
    && a[..n] == old(a[..i]) + x
    && a[n..] == old(a[n..])
  }

  method PutHeader(a: array<byte>, i: nat, tag: byte, v: u64) returns (n: nat)
    requires i + 1 + |EncVarint(v)| <= a.Length
    modifies a
    ensures Appended(a, i, [tag] + EncVarint(v), n)
  {
    a[i] := tag;
    assert a[..i + 1] == old(a[..i]) + [tag];
    n := EncodeVarint(a, i + 1, v);
    assert a[..n] == old(a[..i]) + ([tag] + EncVarint(v));
  }

  method PutText(a: array<byte>, i: nat, num: nat, bs: seq<byte>) returns (n: nat)
    requires num < 16 && i + |EncText(num, bs)| <= a.Length && |bs| < MAX_INPUT
    modifies a
    ensures Appended(a, i, EncText(num, bs), n)
  {
    hide EncVarint;
    n := PutHeader(a, i, Tag(num, 2), |bs|);
    ghost var head := a[..n];
    forall j | 0 <= j < |bs| {
      a[n + j] := bs[j];
    }
    assert a[..n + |bs|] == head + bs;
    n := n + |bs|;
    assert a[..n] == old(a[..i]) + EncText(num, bs);
  }

  lemma Prepend(x: seq<byte>, y: seq<byte>, z: seq<byte>)
    ensures x + y + z == x + (y + z)
  {
  }

  method PutItem(a: array<byte>, i: nat, num: nat, payload: seq<byte>) returns (n: nat)
    requires num < 16 && i + |EncText(num, EncSimple(payload))| <= a.Length
    requires |payload| < MAX_INPUT && |EncSimple(payload)| < MAX_INPUT
    modifies a
    ensures Appended(a, i, EncText(num, EncSimple(payload)), n)
  {
    hide EncVarint;
    var l := SizeSimple(payload);
    n := PutHeader(a, i, Tag(num, 2), l);
    ghost var head := a[..n];
    if |payload| > 0 {
      n := PutText(a, n, 1, payload);
    }
    assert a[..n] == head + EncSimple(payload);
    Prepend(old(a[..i]), [Tag(num, 2)] + EncVarint(l), EncSimple(payload));
  }

  method PutItems(a: array<byte>, i: nat, num: nat, ps: seq<seq<byte>>) returns (n: nat)
    requires num < 16 && i + |EncItems(num, ps)| <= a.Length && |EncItems(num, ps)| < MAX_INPUT
    modifies a
    ensures Appended(a, i, EncItems(num, ps), n)
  {
    hide EncText, EncSimple;
    n := i;
    var k := 0;
    while k < |ps|
      invariant k <= |ps| && Appended(a, i, EncItems(num, ps[..k]), n)
    {
      ItemsPrefix(num, ps, k + 1);
      n := PutItem(a, n, num, ps[k]);
      k := k + 1;
    }
    assert ps[..k] == ps;
  }

  method PutField(a: array<byte>, i: nat, f: Field) returns (n: nat)
    requires Encodable(f) && i + |EncField(f)| <= a.Length && |EncField(f)| < MAX_INPUT
    modifies a
    ensures Appended(a, i, EncField(f), n)
  {
    hide EncVarint, EncText, EncItems;
    n := i;
    match f.val
    case Num(v) =>
      if v != 0 {
        n := PutHeader(a, i, Tag(f.num, 0), ToUint64(v));
      }
    case Str(bs) =>
      if |bs| > 0 {
        TextLength(f.num, bs);
        n := PutText(a, i, f.num, bs);
      }
    case List(ps) =>
      n := PutItems(a, i, f.num, ps);
  }

  ghost predicate AllEncodable(fs: seq<Field>) {
    forall f :: f in fs ==> Encodable(f)
  }

  lemma {:induction false} FieldsPrefix(fs: seq<Field>, i: nat)
    requires AllEncodable(fs) && i <= |fs|
    ensures |Enc(fs[..i])| <= |Enc(fs)|
    ensures i > 0 ==> Enc(fs[..i]) == Enc(fs[..i - 1]) + EncField(fs[i - 1])
    decreases |fs|
  {
    hide EncField;
    if i == |fs| {
      assert fs[..i] == fs;
      assert i > 0 ==> fs[..i - 1] == fs[..|fs| - 1];
    } else {
      FieldsPrefix(fs[..|fs| - 1], i);
      assert fs[..|fs| - 1][..i] == fs[..i];
      assert i > 0 ==> fs[..|fs| - 1][..i - 1] == fs[..i - 1];
    }
  }

  /** The encoded size of a message. */
  method Size(fs: seq<Field>) returns (n: nat)
    requires AllEncodable(fs) && |Enc(fs)| < MAX_INPUT
    ensures n == |Enc(fs)|
  {
    hide EncField;
    n := 0;
    var i := 0;
    while i < |fs|
      invariant i <= |fs| && n == |Enc(fs[..i])|
    {
      FieldsPrefix(fs, i + 1);
      var s := SizeField(fs[i]);
      n := n + s;
      i := i + 1;
    }
    assert fs[..i] == fs;
  }

  /** Writes a message into a buffer and returns the number of bytes written. */
  method MarshalTo(fs: seq<Field>, a: array<byte>) returns (n: nat)
    requires AllEncodable(fs) && |Enc(fs)| < MAX_INPUT && |Enc(fs)| <= a.Length
    modifies a
    ensures n == |Enc(fs)| && a[..n] == Enc(fs) && a[n..] == old(a[n..])
  {
    hide EncField;
    n := 0;
    var i := 0;
    while i < |fs|
      invariant i <= |fs| && n <= a.Length && n == |Enc(fs[..i])| && a[..n] == Enc(fs[..i]) && a[n..] == old(a[n..])
    {
      FieldsPrefix(fs, i + 1);
      n := PutField(a, n, fs[i]);
      i := i + 1;
    }
    assert fs[..i] == fs;
  }

  /** The encoder of a message: a buffer of exactly its size is filled. */
  method Marshal(fs: seq<Field>) returns (bs: seq<byte>)
    requires AllEncodable(fs) && |Enc(fs)| < MAX_INPUT
    ensures bs == Enc(fs)
  {
    var size := Size(fs);
    var a := new byte[size];
    var n := MarshalTo(fs, a);
    return a[..n];
  }

  // ----- decoding what was encoded --------------------------------------------

  ghost predicate Fits(kind: Kind, v: Val) {
    match kind
    case Int32 => v.Num? && -I32_LIMIT <= v.n < I32_LIMIT
    case Uint64 => v.Num? && 0 <= v.n < U64_LIMIT
    case Text => v.Str?
    case Nested => v.List?
  }

  /** Fields of the message, with distinct numbers. */
  ghost predicate Matches(schema: Schema, fs: seq<Field>) {
    && (forall f :: f in fs ==> Encodable(f) && f.num in schema && Fits(schema[f.num], f.val))
    && Distinct(fs)
  }

  ghost predicate Distinct(fs: seq<Field>) {
    forall i, j :: 0 <= i < j < |fs| ==> fs[i].num != fs[j].num
  }

  function IsZero(v: Val): (b: bool) {
    v == Num(0) || v == Str([]) || v == List([])
  }

  /** The fields that differ from their zero value. */
  function RecordOf(fs: seq<Field>): (r: Record) {
    if fs == [] then map[]
    else
      var f := fs[|fs| - 1];
      if IsZero(f.val) then RecordOf(fs[..|fs| - 1]) else RecordOf(fs[..|fs| - 1])[f.num := f.val]
  }

  /** A one-byte tag reads back as its field number and wire type. */
  lemma ReadTag(pre: seq<byte>, num: nat, wireType: nat, post: seq<byte>)
    requires 0 < num < 16 && wireType < 8
    ensures DecVarint(pre + [Tag(num, wireType)] + post, |pre|, 0) == Value(Tag(num, wireType), |pre| + 1)
    ensures ToInt32(Tag(num, wireType) / 8) == num && Tag(num, wireType) % 8 == wireType
  {
    assert (pre + [Tag(num, wireType)] + post)[|pre|] == Tag(num, wireType);
  }

  lemma ReadNum(schema: Schema, pre: seq<byte>, f: Field, post: seq<byte>, rec: Record)
    requires Encodable(f) && f.num in schema && Fits(schema[f.num], f.val) && f.val.Num? && f.val.n != 0
    ensures
      var bs := pre + EncField(f) + post;
      |pre| < |bs| && DecField(schema, bs, |pre|, rec) == Ok(Progress(rec[f.num := f.val], |pre| + |EncField(f)|))
  {
    hide DecVarint, EncVarint, Skip, DecFrom, DecLength, ToInt32;
    var t, v := Tag(f.num, 0), ToUint64(f.val.n);
    var bs := pre + EncField(f) + post;
    assert bs == pre + [t] + (EncVarint(v) + post);
    ReadTag(pre, f.num, 0, EncVarint(v) + post);
    assert bs == (pre + [t]) + EncVarint(v) + post;
    ReadBack(pre + [t], v, post);
    if schema[f.num] == Int32 {
      SignExtension(f.val.n);
    }
  }

  /** A length-delimited field reads back as its bytes. */
  lemma ReadSpan(pre: seq<byte>, num: nat, body: seq<byte>, post: seq<byte>)
    requires 0 < num < 16
    requires |pre + EncText(num, body) + post| < MAX_INPUT
    ensures
      var bs, end := pre + EncText(num, body) + post, |pre| + |EncText(num, body)|;
      && DecVarint(bs, |pre|, 0) == Value(Tag(num, 2), |pre| + 1)
      && DecLength(bs, |pre| + 1) == Ok(Span(end - |body|, end))
      && bs[end - |body|..end] == body
  {
    hide DecVarint, EncVarint;
    var t, l := Tag(num, 2), EncVarint(|body|);
    var bs := pre + EncText(num, body) + post;
    assert bs == pre + [t] + (l + body + post);
    ReadTag(pre, num, 2, l + body + post);
    assert bs == (pre + [t]) + l + (body + post);
    ReadBack(pre + [t], |body|, body + post);
  }

  lemma ReadText(schema: Schema, pre: seq<byte>, num: nat, body: seq<byte>, post: seq<byte>, rec: Record)
    requires 0 < num < 16 && num in schema && schema[num] == Text
    requires |pre + EncText(num, body) + post| < MAX_INPUT
    ensures
      var bs := pre + EncText(num, body) + post;
      && |pre| < |bs|
      && DecField(schema, bs, |pre|, rec) == Ok(Progress(rec[num := Str(body)], |pre| + |EncText(num, body)|))
  {
    hide EncText, DecVarint, DecLength, DecFrom;
    TextLength(num, body);
    ReadSpan(pre, num, body, post);
    ReadTag(pre, num, 2, post);
  }

  /** A payload message decodes to its payload. */
  lemma ReadSimple(payload: seq<byte>)
    requires |EncSimple(payload)| < MAX_INPUT
    ensures var r := DecFrom(SIMPLE, EncSimple(payload), 0, map[]); r.Ok? && Payload(r.value) == payload
  {
    if payload != [] {
      var bs := EncText(1, payload);
      ReadText(SIMPLE, [], 1, payload, [], map[]);
      assert [] + bs + [] == bs;
    }
  }

  lemma ReadItem(schema: Schema, pre: seq<byte>, num: nat, payload: seq<byte>, post: seq<byte>, rec: Record)
    requires 0 < num < 16 && num in schema && schema[num] == Nested
    requires |pre + EncText(num, EncSimple(payload)) + post| < MAX_INPUT
    ensures
      var item := EncText(num, EncSimple(payload));
      var bs := pre + item + post;
      |pre| < |bs| &&
      DecField(schema, bs, |pre|, rec) == Ok(Progress(rec[num := List(Items(rec, num) + [payload])], |pre| + |item|))
  {
    hide EncText, DecVarint, DecLength, DecFrom, EncSimple;
    TextLength(num, EncSimple(payload));
    ReadSpan(pre, num, EncSimple(payload), post);
    ReadTag(pre, num, 2, post);
    ReadSimple(payload);
  }

  function AddItems(rec: Record, num: nat, ps: seq<seq<byte>>): (r: Record) {
    if ps == [] then rec else rec[num := List(ps)]
  }

  /** A repeated field reads back item by item. */
  lemma {:induction false} ReadItems(
    schema: Schema, pre: seq<byte>, num: nat, ps: seq<seq<byte>>, post: seq<byte>, rec: Record)
    requires 0 < num < 16 && num in schema && schema[num] == Nested && num !in rec
    requires |pre + EncItems(num, ps) + post| < MAX_INPUT
    ensures
      var bs := pre + EncItems(num, ps) + post;
      DecFrom(schema, bs, |pre|, rec) == DecFrom(schema, bs, |pre| + |EncItems(num, ps)|, AddItems(rec, num, ps))
    decreases |ps|
  {
    hide EncText, EncSimple, DecField, Items;
    if ps != [] {
      var init, last := ps[..|ps| - 1], ps[|ps| - 1];
      var a, b := EncItems(num, init), EncText(num, EncSimple(last));
      assert EncItems(num, ps) == a + b;
      hide EncItems;
      Regroup(pre, a, b, post);
      ReadItems(schema, pre, num, init, b + post, rec);
      AddOneItem(rec, num, init, last);
      hide AddItems;
      ReadItem(schema, pre + a, num, last, post, AddItems(rec, num, init));
      assert init + [last] == ps;
    }
  }

  lemma Regroup(pre: seq<byte>, a: seq<byte>, b: seq<byte>, post: seq<byte>)
    ensures pre + (a + b) + post == pre + a + (b + post) == pre + a + b + post
  {
  }

  lemma AddOneItem(rec: Record, num: nat, ps: seq<seq<byte>>, p: seq<byte>)
    requires num !in rec
    ensures
      var r := AddItems(rec, num, ps);
      r[num := List(Items(r, num) + [p])] == AddItems(rec, num, ps + [p])
  {
  }

  /** A field reads back as itself, or as nothing when it has its zero value. */
  lemma ReadOne(schema: Schema, pre: seq<byte>, f: Field, post: seq<byte>, rec: Record)
    requires Encodable(f) && f.num in schema && Fits(schema[f.num], f.val) && f.num !in rec
    requires |pre + EncField(f) + post| < MAX_INPUT
    ensures
      var bs := pre + EncField(f) + post;
      DecFrom(schema, bs, |pre|, rec) ==
        DecFrom(schema, bs, |pre| + |EncField(f)|, if IsZero(f.val) then rec else rec[f.num := f.val])
  {
    hide DecField, EncText, EncItems;
    if f.val.List? {
      ReadItems(schema, pre, f.num, f.val.items, post, rec);
    } else if !IsZero(f.val) {
      if f.val.Num? {
        ReadNum(schema, pre, f, post, rec);
      } else {
        ReadText(schema, pre, f.num, f.val.bytes, post, rec);
      }
    }
  }

  lemma {:induction false} ReadFields(schema: Schema, fs: seq<Field>, post: seq<byte>)
    requires Matches(schema, fs) && |Enc(fs) + post| < MAX_INPUT
    ensures
      var bs := Enc(fs) + post;
      DecFrom(schema, bs, 0, map[]) == DecFrom(schema, bs, |Enc(fs)|, RecordOf(fs))
    decreases |fs|
  {
    hide EncField, DecField;
    if fs != [] {
      var init, f := fs[..|fs| - 1], fs[|fs| - 1];
      var bs := Enc(fs) + post;
      assert bs == Enc(init) + (EncField(f) + post) && bs == Enc(init) + EncField(f) + post;
      ReadFields(schema, init, EncField(f) + post);
      RecordNumbers(init);
      ReadOne(schema, Enc(init), f, post, RecordOf(init));
    }
  }

  lemma {:induction false} RecordNumbers(fs: seq<Field>)
    ensures forall n :: n in RecordOf(fs) ==> exists f :: f in fs && f.num == n
  {
    if fs != [] {
      RecordNumbers(fs[..|fs| - 1]);
    }
  }

  /** Decoding an encoded message gives its fields back. */
  lemma DecodeEnc(schema: Schema, fs: seq<Field>)
    requires Matches(schema, fs) && |Enc(fs)| < MAX_INPUT
    ensures Decode(schema, Enc(fs)) == Ok(RecordOf(fs))
  {
    ReadFields(schema, fs, []);
    assert Enc(fs) + [] == Enc(fs);
  }
}
