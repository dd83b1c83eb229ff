/** Input that no encoder writes: how the decoders refuse it. */
module Malformed {
  import opened Bytes
  import opened Blocks
  import opened Numbers
  import opened Bitmaps
  import opened Varints
  import opened ProtoDecode
  import opened ProtoEncode

  /** The number that little-endian groups of seven bits stand for. */
  function Base128(bs: seq<byte>): (v: nat) {
    if bs == [] then 0 else bs[0] % 128 + 128 * Base128(bs[1..])
  }

  /** A varint is its number in base 128, least significant group first, with the high bit on all bytes but the last. */
  lemma {:induction false} VarintForm(v: nat)
    ensures
      var bs := EncVarint(v);
      && Base128(bs) == v && bs[|bs| - 1] < 128
      && forall i :: 0 <= i < |bs| - 1 ==> bs[i] >= 128
    decreases v
  {
    var bs := EncVarint(v);
    if v < 128 {
      assert bs == [v] && bs[1..] == [];
    } else {
      VarintForm(v / 128);
      assert bs[1..] == EncVarint(v / 128);
    }
  }

  /** Bytes with the high bit to the end of the input are an incomplete varint, or after ten of them too long a one. */
  lemma {:induction false} UnendedVarint(bs: seq<byte>, i: nat, shift: nat)
    requires i <= |bs| && forall j :: i <= j < |bs| ==> bs[j] >= 128
    ensures DecVarint(bs, i, shift) == if shift + 7 * (|bs| - i) >= 64 then IntOverflow else UnexpectedEof
    decreases |bs| - i
  {
    if i < |bs| && shift < 64 {
      UnendedVarint(bs, i + 1, shift + 7);
    }
  }

  /** A varint cut short is the end of input. */
  lemma CutVarint(pre: seq<byte>, v: u64, n: nat)
    requires n < |EncVarint(v)|
    ensures DecVarint(pre + EncVarint(v)[..n], |pre|, 0) == UnexpectedEof
  {
    VarintForm(v);
    Pow2At32();
    Pow2Add(32, 32);
    ShortVarint(v, 64);
    UnendedVarint(pre + EncVarint(v)[..n], |pre|, 0);
  }

  /** Seven bits a byte: a number below 2^b takes no more bytes than that. */
  lemma {:induction false} ShortVarint(v: nat, b: nat)
    requires 0 < b <= 64 && v < Pow2(b)
    ensures 7 * (|EncVarint(v)| - 1) < b
    decreases v
  {
    if v >= 128 {
      assert Pow2(7) == 128;
      if b <= 7 {
        Pow2Mono(b, 7);
      } else {
        Pow2Add(7, b - 7);
        ShortVarint(v / 128, b - 7);
      }
    }
  }

  // ----- fields ---------------------------------------------------------------

  predicate ProperType(kind: Kind, wireType: nat) {
    wireType == if kind == Int32 || kind == Uint64 then 0 else 2
  }

  /** A tag that ends a group, has no number, or has the wrong wire type for its field. */
  lemma BadTag(schema: Schema, pre: seq<byte>, num: nat, wireType: nat, post: seq<byte>, rec: Record)
    requires num < 16 && wireType < 8
    ensures
      var bs := pre + [Tag(num, wireType)] + post;
      && (wireType == 4 ==> DecField(schema, bs, |pre|, rec) == Err(EndGroup))
      && (wireType != 4 && num == 0 ==> DecField(schema, bs, |pre|, rec) == Err(IllegalTag))
      && (wireType != 4 && num > 0 && num in schema && !ProperType(schema[num], wireType) ==>
            DecField(schema, bs, |pre|, rec) == Err(WrongWireType))
  {
    hide Skip, DecFrom, DecLength;
    var bs := pre + [Tag(num, wireType)] + post;
    assert bs[|pre|] == Tag(num, wireType);
  }

  /** A known number cut short anywhere is the end of input. */
  lemma CutNumber(schema: Schema, pre: seq<byte>, num: nat, v: u64, n: nat, rec: Record)
    requires 0 < num < 16 && num in schema && ProperType(schema[num], 0) && n < |EncVarint(v)|
    ensures DecField(schema, pre + [Tag(num, 0)] + EncVarint(v)[..n], |pre|, rec) == Err(Eof)
  {
    hide DecVarint, Skip, DecFrom, DecLength, EncVarint, ToInt32;
    ReadTag(pre, num, 0, EncVarint(v)[..n]);
    CutVarint(pre + [Tag(num, 0)], v, n);
  }

  /** So is a known length-delimited field, in its length or in its bytes. */
  lemma CutText(schema: Schema, pre: seq<byte>, num: nat, body: seq<byte>, n: nat, rec: Record)
    requires 0 < num < 16 && num in schema && ProperType(schema[num], 2)
    requires 0 < n < |EncText(num, body)| && |pre + EncText(num, body)| < MAX_INPUT
    ensures DecField(schema, pre + EncText(num, body)[..n], |pre|, rec) == Err(Eof)
  {
    hide DecVarint, Skip, DecFrom, EncVarint, ToInt32, DecLength;
    var t, rest := Tag(num, 2), (EncVarint(|body|) + body)[..n - 1];
    assert pre + EncText(num, body)[..n] == pre + [t] + rest;
    ReadTag(pre, num, 2, rest);
    CutSpan(pre + [t], body, n - 1);
  }

  lemma CutSpan(pre: seq<byte>, body: seq<byte>, n: nat)
    requires n < |EncVarint(|body|) + body| && |pre + EncVarint(|body|) + body| < MAX_INPUT
    ensures DecLength(pre + (EncVarint(|body|) + body)[..n], |pre|) == Err(Eof)
  {
    hide DecVarint, EncVarint;
    var l := EncVarint(|body|);
    if n < |l| {
      assert (l + body)[..n] == l[..n];
      CutVarint(pre, |body|, n);
    } else {
      assert pre + (l + body)[..n] == pre + l + body[..n - |l|];
      ReadBack(pre, |body|, body[..n - |l|]);
    }
  }

  /** A length of 2^63 or more is a negative one. */
  lemma NegativeLength(schema: Schema, pre: seq<byte>, num: nat, length: u64, post: seq<byte>, rec: Record)
    requires 0 < num < 16 && num in schema && ProperType(schema[num], 2) && length >= I64_LIMIT
    ensures DecField(schema, pre + [Tag(num, 2)] + (EncVarint(length) + post), |pre|, rec) == Err(InvalidLength)
  {
    hide DecVarint, Skip, DecFrom, EncVarint, ToInt32;
    var t, l := Tag(num, 2), EncVarint(length);
    ReadTag(pre, num, 2, l + post);
    assert pre + [t] + (l + post) == (pre + [t]) + l + post;
    ReadBack(pre + [t], length, post);
  }

  // ----- unknown fields -------------------------------------------------------

  /** An unknown field of wire type 6 or 7, or with too few bytes for its fixed width. */
  lemma BadUnknown(schema: Schema, pre: seq<byte>, num: nat, wireType: nat, post: seq<byte>, rec: Record)
    requires 0 < num < 16 && num !in schema && wireType < 8 && |pre + post| < MAX_INPUT
    ensures
      var r := DecField(schema, pre + [Tag(num, wireType)] + post, |pre|, rec);
      && (wireType > 5 ==> r == Err(IllegalWireType))
      && (wireType == 1 ==> r == if |post| < 8 then Err(Eof) else Ok(Progress(rec, |pre| + 9)))
      && (wireType == 5 ==> r == if |post| < 4 then Err(Eof) else Ok(Progress(rec, |pre| + 5)))
  {
    hide DecFrom, DecLength, DecValue, SkipGroup;
    var t := Tag(num, wireType);
    var bs := pre + [t] + post;
    assert bs[|pre|..] == [t] + post && bs[|pre|] == t;
  }

  /** An unknown length-delimited field with a length of 2^63 or more. */
  lemma NegativeUnknown(schema: Schema, pre: seq<byte>, num: nat, length: u64, post: seq<byte>, rec: Record)
    requires 0 < num < 16 && num !in schema && length >= I64_LIMIT
    ensures DecField(schema, pre + [Tag(num, 2)] + (EncVarint(length) + post), |pre|, rec) == Err(InvalidLength)
  {
    hide DecFrom, DecLength, DecValue, SkipGroup, EncVarint;
    var t, l := Tag(num, 2), EncVarint(length);
    var bs := pre + [t] + (l + post);
    ReadTag(pre, num, 2, l + post);
    assert bs[|pre|..] == [] + [t] + (l + post) == [t] + l + post;
    ReadTag([], num, 2, l + post);
    ReadBack([t], length, post);
    hide DecVarint;
  }
}
