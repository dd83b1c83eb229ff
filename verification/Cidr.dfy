/** CIDR blocks, their byte form, and the ordinals of the addresses inside them. */
module Cidrs {
  import opened Bytes
  import opened Blocks
  import opened Numbers
  import opened Addresses

  /** The block of the addresses whose first `ones` of `bits` digits are those of `ip`. */
  datatype Cidr = Cidr(ip: nat, ones: nat, bits: nat)

  function Size(c: Cidr): (n: nat)
    requires c.ones <= c.bits
    ensures n > 0
  {
    Pow2(c.bits - c.ones)
  }

  /** A masked IPv4 or IPv6 network; networks of IPv4-mapped IPv6 addresses are not modelled. */
  ghost predicate WellFormed(c: Cidr) {
    && (c.bits == 32 || c.bits == 128)
    && c.ones <= c.bits
    && c.ip < Pow256(c.bits / 8)
    && c.ip % Size(c) == 0
    && !Mapped(IpBytes(c))
  }

  function IpBytes(c: Cidr): (bs: seq<byte>) {
    PutBE(c.ip, c.bits / 8)
  }

  function MaskBytes(c: Cidr): (bs: seq<byte>)
    requires c.ones <= c.bits
  {
    var n := c.bits / 8;
    if Size(c) <= Pow256(n) then PutBE(Pow256(n) - Size(c), n) else []
  }

  /** The masked form of `x` is the masked form of the block's address. */
  predicate Holds(c: Cidr, x: nat)
    requires c.ones <= c.bits
  {
    x / Size(c) == c.ip / Size(c)
  }

  predicate ContainsIp(c: Cidr, ip: seq<byte>)
    requires c.ones <= c.bits
  {
    |Minimal(ip)| == c.bits / 8 && Holds(c, GetBE(Minimal(ip)))
  }

  // ----- blocks as intervals --------------------------------------------------

  lemma HoldsInterval(c: Cidr, x: nat)
    requires c.ones <= c.bits && c.ip % Size(c) == 0
    ensures Holds(c, x) <==> c.ip <= x < c.ip + Size(c)
    ensures Holds(c, x) ==> x == c.ip + x % Size(c)
  {
    var n, q := Size(c), c.ip / Size(c);
    assert c.ip == n * q;
    if c.ip <= x < c.ip + n {
      MulDivMod(n, q, x - c.ip);
    }
  }

  /** Addresses of a smaller block all fall into the same larger block. */
  lemma SmallerBlock(a: Cidr, b: Cidr, x: nat)
    requires a.bits == b.bits && a.ones <= b.ones <= b.bits
    requires Holds(b, x)
    ensures Holds(a, x) <==> Holds(a, b.ip)
  {
    var d, p := Pow2(b.ones - a.ones), Size(b);
    Pow2Add(b.bits - b.ones, b.ones - a.ones);
    assert Size(a) == p * d;
    DivDiv(x, p, d);
    DivDiv(b.ip, p, d);
  }

  /** Some address is in both blocks. */
  ghost predicate Intersect(a: Cidr, b: Cidr) {
    && a.ones <= a.bits == b.bits && b.ones <= b.bits
    && exists x: nat :: Holds(a, x) && Holds(b, x)
  }

  /** Two blocks intersect exactly when one contains the other's base address. */
  lemma IntersectIffContains(a: Cidr, b: Cidr)
    requires a.ones <= a.bits && b.ones <= b.bits && a.bits == b.bits
    ensures Intersect(a, b) <==> Holds(a, b.ip) || Holds(b, a.ip)
  {
    hide Holds;
    SelfContained(a);
    SelfContained(b);
    if x: nat :| Holds(a, x) && Holds(b, x) {
      if a.ones <= b.ones {
        SmallerBlock(a, b, x);
      } else {
        SmallerBlock(b, a, x);
      }
    }
  }

  lemma SelfContained(a: Cidr)
    requires a.ones <= a.bits
    ensures Holds(a, a.ip)
  {
  }

  // ----- ordinals -------------------------------------------------------------

  lemma {:induction false} Pow256IsPow2(n: nat)
    ensures Pow256(n) == Pow2(8 * n)
  {
    if n > 0 {
      Pow256IsPow2(n - 1);
      Pow2At8();
      Pow2Add(8, 8 * (n - 1));
    }
  }

  lemma {:induction false} ComplementPutBE(v: nat, n: nat)
    requires v < Pow256(n)
    ensures Complement(PutBE(v, n)) == PutBE(Pow256(n) - 1 - v, n)
    decreases n
  {
    if n > 0 {
      var w := Pow256(n) - 1 - v;
      assert w / 256 == Pow256(n - 1) - 1 - v / 256 && w % 256 == 255 - v % 256;
      ComplementPutBE(v / 256, n - 1);
    }
  }

  /** The number of addresses fits the address length, and the inverted mask selects the host digits. */
  lemma HostMask(c: Cidr)
    requires WellFormed(c)
    ensures Size(c) <= Pow256(c.bits / 8)
    ensures |MaskBytes(c)| == c.bits / 8
    ensures GetBE(Complement(MaskBytes(c))) == Size(c) - 1
  {
    hide Pow2, Pow256, GetBE, PutBE, Mapped, Complement;
    var n := c.bits / 8;
    Pow256IsPow2(n);
    Pow2Mono(c.bits - c.ones, c.bits);
    ComplementPutBE(Pow256(n) - Size(c), n);
    GetPutBE(Size(c) - 1, n);
  }

  /** The host part of an address is its remainder modulo the block size. */
  lemma HostPart(c: Cidr, ip: seq<byte>)
    requires WellFormed(c) && |ip| == c.bits / 8 == |MaskBytes(c)|
    ensures GetBE(OnBytes(And, ip, Complement(MaskBytes(c)))) == GetBE(ip) % Size(c)
  {
    hide OnBytes, Bitwise, GetBE, Complement, MaskBytes, PutBE, Pow2, Pow256, Mapped;
    HostMask(c);
    OnBytesValue(And, ip, Complement(MaskBytes(c)));
    AndIsRemainder(GetBE(ip), c.bits - c.ones, c.bits);
  }

  /** OR-ing an ordinal below the block size into the base address adds it. */
  lemma OrOrdinal(c: Cidr, ordinal: nat)
    requires WellFormed(c) && ordinal < Size(c)
    ensures GetBE(OnBytes(Or, IpBytes(c), PutBE(ordinal, c.bits / 8))) == c.ip + ordinal
  {
    hide OnBytes, Bitwise, GetBE, MaskBytes, PutBE, Pow2, Pow256, Mapped;
    var n := c.bits / 8;
    HostMask(c);
    GetPutBE(c.ip, n);
    GetPutBE(ordinal, n);
    OnBytesValue(Or, IpBytes(c), PutBE(ordinal, n));
    Pow256IsPow2(n);
    OrIsSum(c.ip, ordinal, c.bits - c.ones, c.bits);
  }

  /** The last address of a block. */
  lemma BroadcastPart(c: Cidr)
    requires WellFormed(c) && |MaskBytes(c)| == c.bits / 8
    ensures GetBE(OnBytes(Or, IpBytes(c), Complement(MaskBytes(c)))) == c.ip + Size(c) - 1
  {
    HostMask(c);
    var n := c.bits / 8;
    ComplementPutBE(Pow256(n) - Size(c), n);
    OrOrdinal(c, Size(c) - 1);
  }

  /** The address with an ordinal below the block size is in the block, and its host part is that ordinal. */
  lemma OrdinalRoundTrip(c: Cidr, ordinal: nat)
    requires WellFormed(c) && ordinal < Size(c)
    ensures Holds(c, c.ip + ordinal) && (c.ip + ordinal) % Size(c) == ordinal
  {
    hide Pow2, Pow256, Mapped;
    var n, q := Size(c), c.ip / Size(c);
    assert c.ip == n * q;
    MulDivMod(n, q, ordinal);
  }
}
