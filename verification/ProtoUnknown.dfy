/** Fields a decoder does not know, as a newer version may send them: they are skipped whole, and change nothing. */
module UnknownFields {
  import opened Bytes
  import opened Bitmaps
  import opened Varints
  import opened ProtoDecode
  import opened ProtoEncode

  /** A field of any wire type; groups hold fields of their own. */
  datatype Unknown =
    | Number(num: nat, v: nat)
    | Fixed64(num: nat, body: seq<byte>)
    | Delimited(num: nat, body: seq<byte>)
    | Group(num: nat, fields: seq<Unknown>)
    | Fixed32(num: nat, body: seq<byte>)

  /** Field numbers have at most 29 bits. */
  const MAX_NUM: nat := 0x2000_0000

  predicate Valid(u: Unknown) {
    u.num < MAX_NUM &&
    match u
    case Number(_, v) => v < U64_LIMIT
    case Fixed64(_, body) => |body| == 8
    case Delimited(_, _) => true
    case Group(_, us) => AllValid(us)
    case Fixed32(_, body) => |body| == 4
  }

  predicate AllValid(us: seq<Unknown>) {
    us == [] || (Valid(us[0]) && AllValid(us[1..]))
  }

  function WireType(u: Unknown): (w: nat)
    ensures w != 4 && w < 6
  {
    match u
    case Number(_, _) => 0
    case Fixed64(_, _) => 1
    case Delimited(_, _) => 2
    case Group(_, _) => 3
    case Fixed32(_, _) => 5
  }

  function EncTag(num: nat, wireType: nat): (bs: seq<byte>)
    ensures |bs| > 0
  {
    EncVarint(num * 8 + wireType)
  }

  /** What follows the tag. */
  function EncBody(u: Unknown): (bs: seq<byte>) {
    match u
    case Number(_, v) => EncVarint(v)
    case Fixed64(_, body) => body
    case Delimited(_, body) => EncVarint(|body|) + body
    case Group(num, us) => EncAll(us) + EncTag(num, 4)
    case Fixed32(_, body) => body
  }

  function EncAll(us: seq<Unknown>): (bs: seq<byte>) {
    if us == [] then [] else EncTag(us[0].num, WireType(us[0])) + EncBody(us[0]) + EncAll(us[1..])
  }

  function EncOne(u: Unknown): (bs: seq<byte>)
    ensures |bs| > 0
  {
    EncTag(u.num, WireType(u)) + EncBody(u)
  }

  lemma ReadWideTag(pre: seq<byte>, num: nat, wireType: nat, post: seq<byte>)
    requires num < MAX_NUM && wireType < 8
    ensures
      var t := EncTag(num, wireType);
      DecVarint(pre + t + post, |pre|, 0) == Value(num * 8 + wireType, |pre| + |t|)
    ensures (num * 8 + wireType) % 8 == wireType && (num * 8 + wireType) / 8 == num
  {
    ReadBack(pre, num * 8 + wireType, post);
  }

  lemma SkipSimple(u: Unknown, post: seq<byte>)
    requires Valid(u) && !u.Group? && |EncOne(u) + post| < MAX_INPUT
    ensures Skip(EncOne(u) + post) == Ok(|EncOne(u)|)
  {
    hide DecVarint, EncVarint, SkipGroup, EncTag;
    var t, body, bs := EncTag(u.num, WireType(u)), EncBody(u), EncOne(u) + post;
    assert bs == [] + t + (body + post);
    ReadWideTag([], u.num, WireType(u), body + post);
    if u.Number? {
      assert bs == t + EncVarint(u.v) + post;
      ReadBack(t, u.v, post);
    } else if u.Delimited? {
      assert bs == t + EncVarint(|u.body|) + (u.body + post);
      ReadBack(t, |u.body|, u.body + post);
    }
  }

  /** Skipping a field ends where the field ends, whatever follows it. */
  lemma {:induction false} SkipOne(u: Unknown, post: seq<byte>)
    requires Valid(u) && |EncOne(u) + post| < MAX_INPUT
    ensures Skip(EncOne(u) + post) == Ok(|EncOne(u)|)
    decreases u
  {
    if u.Group? {
      hide DecVarint, EncVarint, SkipGroup, EncTag, EncAll;
      var t, end, bs := EncTag(u.num, 3), EncTag(u.num, 4), EncOne(u) + post;
      assert bs == [] + t + (EncBody(u) + post);
      ReadWideTag([], u.num, 3, EncBody(u) + post);
      assert bs == t + EncAll(u.fields) + (end + post);
      SkipMany(t, u.fields, u.num, post);
    } else {
      SkipSimple(u, post);
    }
  }

  /** Skipping the fields of a group ends behind the tag that ends the group. */
  lemma {:induction false} SkipMany(pre: seq<byte>, us: seq<Unknown>, num: nat, post: seq<byte>)
    requires AllValid(us) && num < MAX_NUM && pre != []
    requires |pre + EncAll(us) + (EncTag(num, 4) + post)| < MAX_INPUT
    ensures
      var bs := pre + EncAll(us) + (EncTag(num, 4) + post);
      SkipGroup(bs, |pre|) == Ok(|pre| + |EncAll(us)| + |EncTag(num, 4)|)
    decreases us
  {
    hide DecVarint, EncTag, Skip;
    var end := EncTag(num, 4) + post;
    var bs := pre + EncAll(us) + end;
    if us == [] {
      assert bs == pre + EncTag(num, 4) + post;
      ReadWideTag(pre, num, 4, post);
    } else {
      var u, rest := us[0], EncAll(us[1..]);
      var one := EncOne(u);
      assert EncAll(us) == one + rest;
      hide EncAll, EncOne;
      assert bs == (pre + one) + rest + end;
      assert bs[|pre|..] == one + (rest + end);
      TagOf(pre, u, rest + end);
      assert bs == pre + one + (rest + end);
      SkipOne(u, rest + end);
      SkipMany(pre + one, us[1..], num, post);
    }
  }

  lemma TagOf(pre: seq<byte>, u: Unknown, post: seq<byte>)
    requires u.num < MAX_NUM
    ensures
      var d := DecVarint(pre + EncOne(u) + post, |pre|, 0);
      d.Value? && d.v == u.num * 8 + WireType(u) && d.v % 8 == WireType(u)
  {
    hide DecVarint, EncTag;
    var t := EncTag(u.num, WireType(u));
    assert pre + EncOne(u) + post == pre + t + (EncBody(u) + post);
    ReadWideTag(pre, u.num, WireType(u), EncBody(u) + post);
  }

  /** A field whose number is not in the message's table is passed over, of whatever wire type it is. */
  lemma ReadUnknown(schema: Schema, pre: seq<byte>, u: Unknown, post: seq<byte>, rec: Record)
    requires Valid(u) && u.num > 0 && u.num !in schema && |pre + EncOne(u) + post| < MAX_INPUT
    ensures
      var bs := pre + EncOne(u) + post;
      |pre| < |bs| && DecField(schema, bs, |pre|, rec) == Ok(Progress(rec, |pre| + |EncOne(u)|))
  {
    assert u.num < MAX_NUM;
    hide DecVarint, Skip, EncOne, DecValue, Valid, ToInt32;
    var bs := pre + EncOne(u) + post;
    TagOf(pre, u, post);
    assert bs[|pre|..] == EncOne(u) + post;
    SkipOne(u, post);
    SmallTag(u.num, WireType(u));
  }

  lemma SmallTag(num: nat, wireType: nat)
    requires num < MAX_NUM && wireType < 8
    ensures (num * 8 + wireType) % U64_LIMIT == num * 8 + wireType
    ensures ToInt32((num * 8 + wireType) / 8) == num
  {
  }

  // ----- whole messages -------------------------------------------------------

  /** A part of a message: a field of the message, or an unknown one. */
  datatype Part = Known(f: Field) | Other(u: Unknown)

  predicate PartOk(schema: Schema, p: Part) {
    if p.Known? then Encodable(p.f) else Valid(p.u) && p.u.num > 0 && p.u.num !in schema
  }

  predicate AllOk(schema: Schema, ps: seq<Part>) {
    ps == [] || (AllOk(schema, ps[..|ps| - 1]) && PartOk(schema, ps[|ps| - 1]))
  }

  function EncPart(p: Part): (bs: seq<byte>)
    requires p.Known? ==> Encodable(p.f)
  {
    if p.Known? then EncField(p.f) else EncOne(p.u)
  }

  function EncParts(schema: Schema, ps: seq<Part>): (bs: seq<byte>)
    requires AllOk(schema, ps)
  {
    if ps == [] then [] else EncParts(schema, ps[..|ps| - 1]) + EncPart(ps[|ps| - 1])
  }

  function KnownFields(ps: seq<Part>): (fs: seq<Field>) {
    if ps == [] then []
    else
      var fs, p := KnownFields(ps[..|ps| - 1]), ps[|ps| - 1];
      if p.Known? then fs + [p.f] else fs
  }

  lemma {:induction false} ReadParts(schema: Schema, ps: seq<Part>, post: seq<byte>)
    requires AllOk(schema, ps)
    requires Matches(schema, KnownFields(ps)) && |EncParts(schema, ps) + post| < MAX_INPUT
    ensures
      var bs := EncParts(schema, ps) + post;
      DecFrom(schema, bs, 0, map[]) == DecFrom(schema, bs, |EncParts(schema, ps)|, RecordOf(KnownFields(ps)))
    decreases |ps|
  {
    hide EncField, DecField, EncOne;
    if ps != [] {
      var init, p := ps[..|ps| - 1], ps[|ps| - 1];
      var a, b, fs := EncParts(schema, init), EncPart(p), KnownFields(init);
      var bs := EncParts(schema, ps) + post;
      assert bs == a + (b + post) && bs == a + b + post;
      if p.Known? {
        PrefixMatches(schema, fs, p.f);
        hide Matches, RecordOf;
        ReadParts(schema, init, b + post);
        FieldNext(schema, a, fs, p.f, post);
      } else {
        hide Matches, RecordOf;
        ReadParts(schema, init, b + post);
        ReadUnknown(schema, a, p.u, post, RecordOf(fs));
      }
    }
  }

  lemma FieldNext(schema: Schema, pre: seq<byte>, fs: seq<Field>, f: Field, post: seq<byte>)
    requires Encodable(f) && f.num in schema && Fits(schema[f.num], f.val) && forall g :: g in fs ==> g.num != f.num
    requires |pre + EncField(f) + post| < MAX_INPUT
    ensures
      var bs := pre + EncField(f) + post;
      DecFrom(schema, bs, |pre|, RecordOf(fs)) == DecFrom(schema, bs, |pre| + |EncField(f)|, RecordOf(fs + [f]))
  {
    hide EncField, DecFrom, Fits;
    assert (fs + [f])[..|fs|] == fs;
    RecordNumbers(fs);
    ReadOne(schema, pre, f, post, RecordOf(fs));
  }

  lemma PrefixMatches(schema: Schema, fs: seq<Field>, f: Field)
    requires Matches(schema, fs + [f])
    ensures Matches(schema, fs) && f.num in schema && Fits(schema[f.num], f.val)
    ensures forall g :: g in fs ==> g.num != f.num
  {
    hide Fits, Encodable;
    var all := fs + [f];
    assert all[|fs|] == f && forall i :: 0 <= i < |fs| ==> all[i] == fs[i];
    forall g | g in fs ensures g.num != f.num && g in all {
      var i :| 0 <= i < |fs| && fs[i] == g;
      assert all[i] == g;
    }
    assert f in all;
  }

  /** Unknown fields anywhere in a message change nothing: it decodes as the message without them. */
  lemma DecodeWithUnknown(schema: Schema, ps: seq<Part>)
    requires AllOk(schema, ps)
    requires Matches(schema, KnownFields(ps)) && |EncParts(schema, ps)| < MAX_INPUT
    ensures Decode(schema, EncParts(schema, ps)) == Ok(RecordOf(KnownFields(ps)))
  {
    ReadParts(schema, ps, []);
    assert EncParts(schema, ps) + [] == EncParts(schema, ps);
  }
}
