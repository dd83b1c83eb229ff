/** Base 128 varints and signed views of fixed-width integers. */
module Varints {
  import opened Bytes
  import opened Blocks
  import opened Bitmaps
  import opened Numbers

  const I64_LIMIT: int := 0x8000_0000_0000_0000

  type int32 = n: int | -I32_LIMIT <= n < I32_LIMIT

  /** The low 32 bits of a number, read as a signed integer. */
  function ToInt32(n: nat): (r: int32) {
    var m := n % U32_LIMIT;
    if m < I32_LIMIT then m else m - U32_LIMIT
  }

  /** The low 64 bits of a number, read as a signed integer. */
  function ToInt64(n: nat): (r: int)
    ensures -I64_LIMIT <= r < I64_LIMIT
  {
    var m := n % U64_LIMIT;
    if m < I64_LIMIT then m else m - U64_LIMIT
  }

  /** Sign extension to an unsigned 64-bit integer. */
  function ToUint64(n: int): (r: u64)
    requires -I64_LIMIT <= n < U64_LIMIT
  {
    if n < 0 then n + U64_LIMIT else n
  }

  lemma SignExtension(n: int32)
    ensures ToInt32(ToUint64(n)) == n
  {
  }

  // ----- encoding -------------------------------------------------------------

  /** Seven bits a byte, least significant first; all but the last byte have the high bit set. */
  function EncVarint(v: nat): (bs: seq<byte>)
    ensures |bs| > 0
  {
    if v < 128 then [v] else [v % 128 + 128] + EncVarint(v / 128)
  }

  method EncodeVarint(dAtA: array<byte>, offset: nat, v0: u64) returns (n: nat)
    requires offset + |EncVarint(v0)| <= dAtA.Length
    modifies dAtA
    ensures n == offset + |EncVarint(v0)|
    ensures dAtA[..n] == old(dAtA[..offset]) + EncVarint(v0)
    ensures dAtA[n..] == old(dAtA[n..])
  {
    var v: nat, i := v0, offset;
    ghost var done: seq<byte> := [];
    while v >= 128
      invariant EncVarint(v0) == done + EncVarint(v)
      invariant i == offset + |done|
      invariant dAtA[..i] == old(dAtA[..offset]) + done
      invariant forall j :: i <= j < dAtA.Length ==> dAtA[j] == old(dAtA[j])
    {
      var b: byte := v % 128 + 128;
      assert done + EncVarint(v) == done + [b] + EncVarint(v / 128);
      dAtA[i] := b;
      assert dAtA[..i + 1] == dAtA[..i] + [b];
      done := done + [b];
      v := v / 128;
      i := i + 1;
    }
    dAtA[i] := v;
    n := i + 1;
    assert dAtA[..n] == dAtA[..i] + [v];
  }

  /** The number of bytes of a varint. */
  method Sov(x0: u64) returns (n: nat)
    ensures n == |EncVarint(x0)|
  {
    var x: nat := x0 / 128;
    n := 1;
    while x != 0
      invariant if x == 0 then n == |EncVarint(x0)| else n + |EncVarint(x)| == |EncVarint(x0)|
    {
      n := n + 1;
      x := x / 128;
    }
  }

  // ----- decoding -------------------------------------------------------------

  datatype Read = Value(v: nat, next: nat) | UnexpectedEof | IntOverflow

  /** A varint of at most ten bytes at index `i`; the value is not yet truncated. */
  function DecVarint(bs: seq<byte>, i: nat, shift: nat): (r: Read)
    ensures r.Value? ==> i < r.next <= |bs|
    decreases |bs| - i
  {
    if shift >= 64 then IntOverflow
    else if i >= |bs| then UnexpectedEof
    else if bs[i] < 128 then Value(bs[i], i + 1)
    else
      var r := DecVarint(bs, i + 1, shift + 7);
      if r.Value? then Value(bs[i] - 128 + 128 * r.v, r.next) else r
  }

  /** Reads back an encoded number that fits above `shift` bits, whatever follows it. */
  lemma {:induction false} DecEncVarint(pre: seq<byte>, v: nat, post: seq<byte>, shift: nat)
    requires shift < 64 && v < Pow2(64 - shift)
    ensures DecVarint(pre + EncVarint(v) + post, |pre|, shift) == Value(v, |pre| + |EncVarint(v)|)
    decreases v
  {
    var bs := pre + EncVarint(v) + post;
    if v < 128 {
      assert bs[|pre|] == v;
    } else {
      var b: byte := v % 128 + 128;
      NextShift(shift, v);
      DecEncVarint(pre + [b], v / 128, post, shift + 7);
      assert pre + [b] + EncVarint(v / 128) + post == bs;
      assert bs[|pre|] == b;
    }
  }

  lemma NextShift(shift: nat, v: nat)
    requires shift < 64 && 128 <= v < Pow2(64 - shift)
    ensures shift + 7 < 64 && v / 128 < Pow2(64 - (shift + 7))
  {
    assert Pow2(7) == 128;
    if 64 - shift <= 7 {
      Pow2Mono(64 - shift, 7);
    } else {
      Pow2Add(7, 57 - shift);
    }
  }

  lemma ReadBack(pre: seq<byte>, v: u64, post: seq<byte>)
    ensures DecVarint(pre + EncVarint(v) + post, |pre|, 0) == Value(v, |pre| + |EncVarint(v)|)
  {
    Pow2At32();
    Pow2Add(32, 32);
    DecEncVarint(pre, v, post, 0);
  }

  function Truncate(wide: bool, n: nat): (r: nat) {
    if wide then n % U64_LIMIT else n % U32_LIMIT
  }

  lemma TruncateSum(wide: bool, a: nat, b: nat)
    ensures Truncate(wide, Truncate(wide, a) + b) == Truncate(wide, a + b)
  {
  }

  lemma Unscaled(bs: seq<byte>, i: nat)
    ensures Scaled(0, 0, DecVarint(bs, i, 0)) == DecVarint(bs, i, 0)
    ensures Truncate(true, 0) == Truncate(false, 0) == 0
  {
  }

  /** Reads a varint into a 64-bit or 32-bit integer, dropping the bits that do not fit. */
  method ReadVarint(dAtA: seq<byte>, i: nat, wide: bool) returns (r: Read)
    ensures r == var d := DecVarint(dAtA, i, 0); if d.Value? then Value(Truncate(wide, d.v), d.next) else d
  {
    hide Truncate, Pow2;
    var shift: nat, iNdEx, v: nat := 0, i, 0;
    ghost var exact: nat := 0;
    Unscaled(dAtA, i);
    while true
      invariant iNdEx >= i && shift <= 70
      invariant v == Truncate(wide, exact)
      invariant DecVarint(dAtA, i, 0) == Scaled(exact, shift, DecVarint(dAtA, iNdEx, shift))
      decreases 70 - shift
    {
      if shift >= 64 {
        return IntOverflow;
      }
      if iNdEx >= |dAtA| {
        return UnexpectedEof;
      }
      var b := dAtA[iNdEx];
      iNdEx := iNdEx + 1;
      ScaleStep(dAtA, iNdEx - 1, shift, exact);
      var piece := b % 128 * Pow2(shift);
      TruncateSum(wide, exact, piece);
      v := Truncate(wide, v + piece);
      exact := exact + piece;
      if b < 0x80 {
        return Value(v, iNdEx);
      }
      shift := shift + 7;
    }
  }

  ghost function Scaled(low: nat, shift: nat, r: Read): (s: Read) {
    if r.Value? then Value(low + r.v * Pow2(shift), r.next) else r
  }

  lemma ScaleStep(bs: seq<byte>, i: nat, shift: nat, low: nat)
    requires i < |bs| && shift < 64
    ensures
      var low' := low + bs[i] % 128 * Pow2(shift);
      Scaled(low, shift, DecVarint(bs, i, shift)) ==
        if bs[i] < 128 then Value(low', i + 1) else Scaled(low', shift + 7, DecVarint(bs, i + 1, shift + 7))
  {
    Pow2Add(7, shift);
    assert Pow2(7) == 128;
    hide Pow2;
    if bs[i] >= 128 {
      var r := DecVarint(bs, i + 1, shift + 7);
      if r.Value? {
        ScaleSum(bs[i] - 128, r.v, Pow2(shift));
      }
    }
  }

  lemma ScaleSum(x: nat, v: nat, p: nat)
    ensures (x + 128 * v) * p == x * p + v * (128 * p)
  {
  }
}
