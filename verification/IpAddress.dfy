/**
 Byte-level address arithmetic: host ordinals are put into an address with a
 bitwise OR and taken out of it again with a bitwise AND.
 */
module Addresses {
  import opened Bytes
  import opened Blocks
  import opened Numbers
  import opened Bitmaps

  datatype Op = Or | And

  function OnBits(op: Op, x: nat, y: nat): (r: nat)
    ensures r <= 1
  {
    match op
    case Or => if x % 2 == 1 || y % 2 == 1 then 1 else 0
    case And => if x % 2 == 1 && y % 2 == 1 then 1 else 0
  }

  /** The operation on two `w`-bit numbers, digit by digit. */
  function Bitwise(op: Op, x: nat, y: nat, w: nat): (r: nat)
    ensures r < Pow2(w)
    decreases x, w
  {
    if w == 0 then 0 else 2 * Bitwise(op, x / 2, y / 2, w - 1) + OnBits(op, x, y)
  }

  /** Without common digits an OR is a sum. */
  lemma {:induction false} OrIsSum(x: nat, y: nat, r: nat, w: nat)
    requires r <= w && x < Pow2(w) && x % Pow2(r) == 0 && y < Pow2(r)
    ensures Bitwise(Or, x, y, w) == x + y
    decreases w
  {
    if w > 0 {
      if r == 0 {
        OrIsSum(x / 2, 0, 0, w - 1);
      } else {
        SplitMultiple(x, 2, Pow2(r - 1));
        OrIsSum(x / 2, y / 2, r - 1, w - 1);
      }
    }
  }

  /** An AND with `r` ones keeps the low `r` digits. */
  lemma {:induction false} AndIsRemainder(x: nat, r: nat, w: nat)
    requires r <= w
    ensures Bitwise(And, x, Pow2(r) - 1, w) == x % Pow2(r)
    decreases w
  {
    hide Bitwise;
    if r == 0 {
      AndZero(x, w);
    } else {
      var p := Pow2(r - 1);
      assert Pow2(r) == 2 * p;
      hide Pow2;
      AndIsRemainder(x / 2, r - 1, w - 1);
      LowDigits(x, p);
      AndOnes(x, p, w);
    }
  }

  lemma AndOnes(x: nat, p: nat, w: nat)
    requires p > 0 && w > 0
    ensures Bitwise(And, x, 2 * p - 1, w) == 2 * Bitwise(And, x / 2, p - 1, w - 1) + x % 2
  {
    Halve(p - 1, 1, 2 * p - 1);
  }

  lemma {:induction false} AndZero(x: nat, w: nat)
    ensures Bitwise(And, x, 0, w) == 0
    decreases w
  {
    if w > 0 {
      AndZero(x / 2, w - 1);
    }
  }

  lemma LowDigits(x: nat, p: nat)
    requires p > 0
    ensures x % (2 * p) == 2 * (x / 2 % p) + x % 2
  {
    DoubledRemainder(x / 2 / p, x / 2 % p, x % 2, p, x);
  }

  lemma DoubledRemainder(q: nat, t: nat, e: nat, p: nat, x: nat)
    requires t < p && e < 2 && x == 2 * (p * q + t) + e
    ensures x % (2 * p) == 2 * t + e
  {
    Associate(2, p, q);
    MulDivMod(2 * p, q, 2 * t + e);
  }

  // ----- byte strings ---------------------------------------------------------

  function OnBytes(op: Op, x: seq<byte>, y: seq<byte>): (r: seq<byte>)
    requires |x| == |y|
    ensures |r| == |x|
  {
    Pow2At8();
    seq(|x|, i requires 0 <= i < |x| => Bitwise(op, x[i], y[i], 8))
  }

  lemma OnBytesSnoc(op: Op, x: seq<byte>, y: seq<byte>, a: byte, b: byte)
    requires |x| == |y|
    ensures Bitwise(op, a, b, 8) < 256
    ensures OnBytes(op, x + [a], y + [b]) == OnBytes(op, x, y) + [Bitwise(op, a, b, 8)]
  {
    Pow2At8();
  }

  lemma BitwiseStep(op: Op, g: nat, h: nat, o: nat, b: nat, d: nat, m: nat, w: nat)
    requires m > 0
    requires Bitwise(op, g + b / 2, h + d / 2, m - 1 + w) == o + Bitwise(op, b / 2, d / 2, m - 1)
    ensures Bitwise(op, 2 * g + b, 2 * h + d, m + w) == 2 * o + Bitwise(op, b, d, m)
  {
    Halve(g, b, 2 * g + b);
    Halve(h, d, 2 * h + d);
  }

  lemma Halve(h: nat, b: nat, x: nat)
    requires x == 2 * h + b
    ensures x / 2 == h + b / 2 && x % 2 == b % 2
  {
  }

  /** High and low parts of two numbers are combined independently. */
  lemma {:induction false} BitwiseSplit(op: Op, a: nat, b: nat, c: nat, d: nat, m: nat, w: nat)
    requires b < Pow2(m) && d < Pow2(m)
    ensures Bitwise(op, Pow2(m) * a + b, Pow2(m) * c + d, m + w)
         == Pow2(m) * Bitwise(op, a, c, w) + Bitwise(op, b, d, m)
    decreases m
  {
    if m > 0 {
      hide Bitwise;
      var p, q, o := Pow2(m - 1), Pow2(m), Bitwise(op, a, c, w);
      BitwiseSplit(op, a, b / 2, c, d / 2, m - 1, w);
      hide Pow2;
      BitwiseStep(op, p * a, p * c, p * o, b, d, m, w);
      Associate(2, p, a);
      Associate(2, p, c);
      Associate(2, p, o);
    }
  }

  /** Combining byte by byte combines the numbers the bytes stand for. */
  lemma {:induction false} OnBytesValue(op: Op, x: seq<byte>, y: seq<byte>)
    requires |x| == |y|
    ensures GetBE(OnBytes(op, x, y)) == Bitwise(op, GetBE(x), GetBE(y), 8 * |x|)
    decreases |x|
  {
    hide Bitwise;
    if |x| > 0 {
      var n := |x| - 1;
      assert x == x[..n] + [x[n]] && y == y[..n] + [y[n]];
      OnBytesSnoc(op, x[..n], y[..n], x[n], y[n]);
      hide OnBytes;
      assert OnBytes(op, x, y)[..n] == OnBytes(op, x[..n], y[..n]);
      OnBytesValue(op, x[..n], y[..n]);
      Pow2At8();
      BitwiseSplit(op, GetBE(x[..n]), x[n], GetBE(y[..n]), y[n], 8, 8 * n);
    }
  }

  // ----- operations on addresses ----------------------------------------------

  /** ORs the bytes of `ordinal` into the first `end` bytes of the buffer. */
  method AddIntToIP(a: array<byte>, end: nat, ordinal: nat)
    requires end <= a.Length
    modifies a
    ensures a[..end] == OnBytes(Or, old(a[..end]), PutBE(ordinal, end))
    ensures a[end..] == old(a[end..])
  {
    hide Bitwise;
    Pow2At8();
    hide Pow2;
    ghost var x, y := a[..end], PutBE(ordinal, end);
    var rest, i := ordinal, end;
    while i > 0
      invariant i <= end && y[..i] == PutBE(rest, i)
      invariant a[..i] == x[..i]
      invariant a[i..end] == OnBytes(Or, x, y)[i..end]
      invariant a[end..] == old(a[end..])
    {
      i := i - 1;
      assert y[i] == rest % 256 && a[i] == x[i] && y[..i + 1][..i] == y[..i];
      a[i] := Bitwise(Or, a[i], rest % 256, 8);
      rest := rest / 256;
      assert a[i..end] == [a[i]] + a[i + 1..end];
    }
  }

  const MAPPED_PREFIX: seq<byte> := [0, 0, 0, 0, 0, 0, 0, 0, 0, 0, 255, 255]

  /** A 16-byte address holding an IPv4 address. */
  predicate Mapped(ip: seq<byte>) {
    |ip| == 16 && ip[..12] == MAPPED_PREFIX
  }

  /** The shortest form of an address. */
  function Minimal(ip: seq<byte>): (r: seq<byte>)
    ensures |r| == if Mapped(ip) then 4 else |ip|
  {
    if Mapped(ip) then ip[12..] else ip
  }

  function Complement(mask: seq<byte>): (r: seq<byte>)
    ensures |r| == |mask|
  {
    seq(|mask|, i requires 0 <= i < |mask| => 255 - mask[i])
  }

  /** The mask bytes that apply to an address: an IPv4 address may come with a 16-byte mask. */
  function MaskFor(ip: seq<byte>, mask: seq<byte>): (r: seq<byte>)
  {
    if |Minimal(ip)| == 4 && |mask| == 16 && mask[..12] == seq(12, _ => 255) then mask[12..] else mask
  }

  /** The host part (`And`) or the broadcast address (`Or`) of an address; fails on incompatible lengths. */
  method WithHostMask(op: Op, ip: seq<byte>, mask: seq<byte>) returns (r: Option<seq<byte>>)
    ensures r.Some? <==> |Minimal(ip)| == |MaskFor(ip, mask)|
    ensures r.Some? ==> |r.value| == |ip|
    ensures r.Some? ==> r.value == ip[..|ip| - |Minimal(ip)|] + OnBytes(op, Minimal(ip), Complement(MaskFor(ip, mask)))
  {
    hide OnBytes;
    var ips, ms := 0, 0;
    if Mapped(ip) {
      ips := 12;
    }
    if |ip[ips..]| == 4 && |mask| == 16 && mask[..12] == seq(12, _ => 255) {
      ms := 12;
    }
    if |ip[ips..]| != |mask[ms..]| {
      return None;
    }
    var out := new byte[|ip|](j requires 0 <= j < |ip| => ip[j]);
    assert out[..] == ip;
    MaskInPlace(op, out, ips, mask[ms..]);
    assert out[..] == out[..ips] + out[ips..];
    return Some(out[..]);
  }

  method MaskInPlace(op: Op, out: array<byte>, from: nat, mask: seq<byte>)
    requires out.Length == from + |mask|
    modifies out
    ensures out[..from] == old(out[..from])
    ensures out[from..] == OnBytes(op, old(out[from..]), Complement(mask))
  {
    hide Bitwise;
    Pow2At8();
    hide Pow2;
    ghost var x, y := out[from..], Complement(mask);
    var i := 0;
    while i < |mask|
      invariant i <= |mask|
      invariant out[..from] == old(out[..from])
      invariant out[from..from + i] == OnBytes(op, x, y)[..i]
      invariant out[from + i..] == x[i..]
    {
      assert out[from + i] == x[i] && out[from + i + 1..] == x[i + 1..];
      assert OnBytes(op, x, y)[..i + 1] == OnBytes(op, x, y)[..i] + [Bitwise(op, x[i], y[i], 8)];
      out[from + i] := Bitwise(op, out[from + i], 255 - mask[i], 8);
      assert out[from..from + i + 1] == out[from..from + i] + [out[from + i]];
      i := i + 1;
    }
    assert out[from..] == out[from..from + i] && OnBytes(op, x, y)[..i] == OnBytes(op, x, y);
  }

  /** The number an address stands for, modulo 2^64 for addresses longer than eight bytes. */
  method IpToUint64(ip: seq<byte>) returns (value: u64)
    ensures value == GetBE(Minimal(ip)) % U64_LIMIT
  {
    hide GetBE;
    var cip := Minimal(ip);
    value := 0;
    var i := 0;
    assert GetBE(cip[..0]) == 0 by { EmptyValue(); }
    assert Pow256(0) == 1;
    hide Pow256, Minimal;
    ghost var acc: nat := 0;
    while i < |cip|
      invariant i <= |cip|
      invariant acc == GetBE(cip[..i]) * Pow256(|cip| - i)
      invariant value == acc % U64_LIMIT
    {
      var j := |cip| - 1 - i;
      ShiftIn(cip, i);
      var shifted := cip[i] * Pow256(j);
      EarlyRemainder(acc, shifted);
      value := (value + shifted % U64_LIMIT) % U64_LIMIT;
      acc := acc + shifted;
      i := i + 1;
    }
    assert cip[..i] == cip;
  }

  lemma EarlyRemainder(a: nat, b: nat)
    ensures (a % U64_LIMIT + b % U64_LIMIT) % U64_LIMIT == (a + b) % U64_LIMIT
  {
  }

  lemma EmptyValue()
    ensures GetBE([]) == 0
  {
  }

  lemma ShiftIn(bs: seq<byte>, i: nat)
    requires i < |bs|
    ensures GetBE(bs[..i + 1]) * Pow256(|bs| - 1 - i)
         == GetBE(bs[..i]) * Pow256(|bs| - i) + bs[i] * Pow256(|bs| - 1 - i)
  {
    var p, h := Pow256(|bs| - 1 - i), GetBE(bs[..i]);
    assert bs[..i + 1][..i] == bs[..i];
    assert GetBE(bs[..i + 1]) == 256 * h + bs[i];
    assert Pow256(|bs| - i) == 256 * p;
    hide Pow256, GetBE;
    Distribute(p, 256 * h, bs[i]);
    Associate(h, 256, p);
  }
}
