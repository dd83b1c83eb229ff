/** Ordinals and ranges of addresses in a pool, and the split of a network into equal subnets. */
module Subnets {
  import opened Bytes
  import opened Blocks
  import opened Numbers
  import opened Bitmaps
  import opened Addresses
  import opened Cidrs

  /** First and last ordinal of a sub-pool inside its master. */
  datatype Range = Range(start: u64, end: u64)

  /** The address of a host ordinal in a network. */
  method GenerateAddress(ordinal: u64, nw: Cidr) returns (ip: seq<byte>)
    requires WellFormed(nw)
    ensures |ip| == nw.bits / 8
    ensures ordinal < Size(nw) ==> GetBE(ip) == nw.ip + ordinal && Holds(nw, GetBE(ip))
  {
    hide OnBytes, Pow2, Pow256, Mapped, PutBE, MaskBytes, Holds;
    HostMask(nw);
    var address := new byte[16](_ => 0);
    var src := if |Minimal(IpBytes(nw))| == 4 then Minimal(IpBytes(nw)) else IpBytes(nw);
    forall i | 0 <= i < |src| {
      address[i] := src[i];
    }
    var end := |MaskBytes(nw)|;
    assert address[..end] == IpBytes(nw);
    AddIntToIP(address, end, ordinal);
    ip := address[..end];
    if ordinal < Size(nw) {
      OrOrdinal(nw, ordinal);
      OrdinalRoundTrip(nw, ordinal);
    }
  }

  // ----- ordinals of addresses ------------------------------------------------

  /** A host part that reads as an IPv4 address in sixteen bytes. */
  predicate LooksMapped(nw: Cidr, h: nat) {
    nw.bits == 128 && h / U32_LIMIT == 0xffff
  }

  /** The ordinal of the address `x`: its host part, cut to 64 bits, or to 32 where it reads as an IPv4 address. */
  function HostNumber(nw: Cidr, x: nat): (n: u64)
    requires nw.ones <= nw.bits
    ensures n <= x % Size(nw) < Size(nw)
  {
    var h := x % Size(nw);
    if LooksMapped(nw, h) then h % U32_LIMIT else h % U64_LIMIT
  }

  /** The ordinal is the whole host part. */
  predicate Exact(nw: Cidr, x: nat)
    requires nw.ones <= nw.bits
  {
    HostNumber(nw, x) == x % Size(nw)
  }

  /** Ordinals are exact for IPv4, and for IPv6 host parts below 2^64 that do not read as IPv4 addresses. */
  lemma ExactIff(nw: Cidr, x: nat)
    requires WellFormed(nw)
    ensures Exact(nw, x) <==> nw.bits == 32 || (x % Size(nw) < U64_LIMIT && !LooksMapped(nw, x % Size(nw)))
  {
    hide IpBytes, Pow256, Mapped;
    var h := x % Size(nw);
    if nw.bits == 32 {
      Pow2Mono(32 - nw.ones, 32);
      Pow2At32();
    } else if LooksMapped(nw, h) {
      assert h >= U32_LIMIT;
    }
    hide Pow2, Size;
  }

  /** In a large IPv6 network, the host part 0:ffff:a.b is given the ordinal of a.b. */
  lemma MappedOrdinal(nw: Cidr, low: nat)
    requires WellFormed(nw) && nw.bits == 128 && nw.ones <= 64 && low < U32_LIMIT
    ensures
      var x := nw.ip + 0xffff * U32_LIMIT + low;
      Holds(nw, x) && HostNumber(nw, x) == low && !Exact(nw, x)
  {
    hide Pow2, IpBytes, Pow256, Mapped, Holds;
    Pow2Mono(64, 128 - nw.ones);
    Pow2At64();
    OrdinalRoundTrip(nw, 0xffff * U32_LIMIT + low);
    HighLow(0xffff * U32_LIMIT + low, 0xffff, low);
  }

  /** The ordinal of an address in a network; an IPv4 address may be looked up in an IPv6 network with a long mask. */
  function HostValue(ip: seq<byte>, nw: Cidr): (n: Option<u64>)
    requires nw.ones <= nw.bits
  {
    var x := GetBE(Minimal(ip));
    if |Minimal(ip)| == nw.bits / 8 then Some(HostNumber(nw, x))
    else if |Minimal(ip)| == 4 && nw.bits == 128 && nw.ones >= 96 then
      FourBytes(Minimal(ip));
      RemainderBelow(x, Size(nw));
      Some(x % Size(nw))
    else None
  }

  /** Computes the ordinal of an address; fails on incompatible lengths. */
  method HostOrdinal(ip: seq<byte>, nw: Cidr) returns (ordinal: Option<u64>)
    requires WellFormed(nw)
    ensures ordinal == HostValue(ip, nw)
  {
    hide OnBytes, Pow2, Pow256, PutBE, MaskBytes, Complement, Size, Mapped, Minimal, MaskFor, HostNumber;
    HostMask(nw);
    var hostPart := WithHostMask(And, ip, MaskBytes(nw));
    if |Minimal(ip)| == 4 {
      ShortMask(ip, nw);
    } else {
      LongMask(ip, MaskBytes(nw));
    }
    if hostPart.None? {
      return None;
    }
    var v := IpToUint64(hostPart.value);
    ordinal := Some(v);
    if |Minimal(ip)| == 4 {
      FourByteHost(ip, nw, hostPart.value);
    } else {
      LongHost(ip, nw, hostPart.value);
    }
  }

  lemma LongMask(ip: seq<byte>, mask: seq<byte>)
    ensures |Minimal(ip)| != 4 || |mask| == 4 ==> MaskFor(ip, mask) == mask
  {
  }

  /** An IPv4 address uses the last four mask bytes exactly when the bytes before them are all ones. */
  lemma ShortMask(ip: seq<byte>, nw: Cidr)
    requires WellFormed(nw) && |Minimal(ip)| == 4
    ensures
      var mask := MaskFor(ip, MaskBytes(nw));
      if nw.bits == 32 then mask == MaskBytes(nw)
      else if nw.ones >= 96 then mask == MaskBytes(Cidr(0, nw.ones - 96, 32)) && |mask| == 4
      else |mask| == 16
  {
    hide PutBE, Minimal, Pow2, Mapped, MaskBytes;
    HostMask(nw);
    if nw.bits == 128 {
      MaskTail(nw);
    } else {
      LongMask(ip, MaskBytes(nw));
    }
  }

  lemma MaskTail(nw: Cidr)
    requires WellFormed(nw) && nw.bits == 128 && |MaskBytes(nw)| == 16
    ensures MaskBytes(nw)[..12] == seq(12, _ => 255) <==> nw.ones >= 96
    ensures nw.ones >= 96 ==> MaskBytes(nw)[12..] == MaskBytes(Cidr(0, nw.ones - 96, 32))
  {
    assert U32_LIMIT == 0x1_0000_0000;
    hide *;
    var n, p, mask := Size(nw), Pow256(12), MaskBytes(nw);
    LongBlock(nw);
    LongPowers(nw);
    var v := U32_LIMIT * p - n;
    GetPutBE(v, 16);
    GetLast4(mask);
    AllOnes(mask[..12]);
    PutGetBE(mask[12..]);
    HighPart(p, n, v);
  }

  lemma AllOnes(bs: seq<byte>)
    requires |bs| == 12
    ensures bs == seq(12, _ => 255) <==> GetBE(bs) == Pow256(12) - 1
  {
    hide *;
    GetOnes(12);
    PutGetBE(bs);
    PutGetBE(seq(12, _ => 255));
  }

  lemma LongPowers(nw: Cidr)
    requires WellFormed(nw) && nw.bits == 128
    ensures Pow256(16) == U32_LIMIT * Pow256(12) >= Size(nw)
    ensures MaskBytes(nw) == PutBE(U32_LIMIT * Pow256(12) - Size(nw), 16)
    ensures nw.ones >= 96 && Size(nw) <= U32_LIMIT ==>
      MaskBytes(Cidr(0, nw.ones - 96, 32)) == PutBE(U32_LIMIT - Size(nw), 4)
  {
    hide PutBE, Mapped, Pow2;
    HostMask(nw);
    assert Pow256(16) == 256 * Pow256(15) && Pow256(15) == 256 * Pow256(14) && Pow256(14) == 256 * Pow256(13);
    assert Pow256(4) == U32_LIMIT;
  }

  lemma LongBlock(nw: Cidr)
    requires nw.bits == 128 && nw.ones <= 128
    ensures nw.ones >= 96 <==> Size(nw) <= U32_LIMIT
  {
    Pow2At32();
    if nw.ones >= 96 {
      Pow2Mono(128 - nw.ones, 32);
    } else {
      assert Pow2(33) == 2 * Pow2(32);
      Pow2Mono(33, 128 - nw.ones);
    }
  }

  lemma HighPart(p: nat, n: nat, v: nat)
    requires p > 0 && n > 0 && v == U32_LIMIT * p - n
    ensures v / U32_LIMIT == p - 1 <==> n <= U32_LIMIT
    ensures n <= U32_LIMIT ==> v % U32_LIMIT == U32_LIMIT - n
  {
  }

  /** The host part of an IPv4 address. */
  lemma FourByteHost(ip: seq<byte>, nw: Cidr, hostPart: seq<byte>)
    requires WellFormed(nw) && |Minimal(ip)| == |MaskFor(ip, MaskBytes(nw))| == 4 <= |ip|
    requires hostPart == ip[..|ip| - 4] + OnBytes(And, Minimal(ip), Complement(MaskFor(ip, MaskBytes(nw))))
    ensures HostValue(ip, nw) == Some(GetBE(Minimal(hostPart)) % U64_LIMIT)
  {
    hide OnBytes, Pow256, Pow2, PutBE, Complement, Mapped, Minimal, MaskFor, GetBE, MaskBytes, HostValue;
    ShortMask(ip, nw);
    var c := if nw.bits == 32 then nw else Cidr(0, nw.ones - 96, 32);
    ShortWellFormed(c.ones);
    assert Size(c) == Size(nw);
    var x, h := GetBE(Minimal(ip)), OnBytes(And, Minimal(ip), Complement(MaskBytes(c)));
    FourByteValue(ip, nw);
    hide *;
    HostMask(c);
    HostPart(c, Minimal(ip));
    FourBytes(h);
    MinimalHostPart(ip, h);
  }

  lemma ShortWellFormed(ones: nat)
    requires ones <= 32
    ensures WellFormed(Cidr(0, ones, 32))
  {
  }

  lemma FourByteValue(ip: seq<byte>, nw: Cidr)
    requires |Minimal(ip)| == 4 && nw.ones <= nw.bits && (nw.bits == 32 || (nw.bits == 128 && nw.ones >= 96))
    ensures HostValue(ip, nw) == Some(GetBE(Minimal(ip)) % Size(nw))
  {
    hide Size, GetBE, Minimal;
    FourBytes(Minimal(ip));
    RemainderBelow(GetBE(Minimal(ip)), Size(nw));
  }

  /** The host part of an IPv6 address, which may read as an IPv4 address. */
  lemma LongHost(ip: seq<byte>, nw: Cidr, hostPart: seq<byte>)
    requires WellFormed(nw) && |Minimal(ip)| == |MaskBytes(nw)| == nw.bits / 8 != 4
    requires hostPart == ip[..|ip| - |Minimal(ip)|] + OnBytes(And, Minimal(ip), Complement(MaskBytes(nw)))
    ensures HostValue(ip, nw) == Some(GetBE(Minimal(hostPart)) % U64_LIMIT)
  {
    hide OnBytes, Pow2, Pow256, PutBE, MaskBytes, Complement, Size, GetBE;
    var h := OnBytes(And, Minimal(ip), Complement(MaskBytes(nw)));
    assert |ip| == 16 && Minimal(ip) == ip && hostPart == h;
    HostPart(nw, ip);
    MappedValue(h);
  }

  /** Sixteen bytes read as an IPv4 address exactly when the number before the last four bytes is 0xffff. */
  lemma MappedValue(bs: seq<byte>)
    requires |bs| == 16
    ensures Mapped(bs) <==> GetBE(bs) / U32_LIMIT == 0xffff
    ensures GetBE(Minimal(bs)) == if Mapped(bs) then GetBE(bs) % U32_LIMIT else GetBE(bs)
  {
    GetLast4(bs);
    MappedPrefix();
    hide GetBE;
    PutGetBE(bs[..12]);
    PutGetBE(MAPPED_PREFIX);
  }

  lemma MappedPrefix()
    ensures GetBE(MAPPED_PREFIX) == 0xffff
  {
    var z: seq<byte> := [0, 0, 0, 0, 0, 0, 0, 0, 0, 0];
    assert z == seq(10, _ => 0);
    Zeros(10);
    assert MAPPED_PREFIX[..11] == z + [255] && (z + [255])[..10] == z;
  }

  lemma {:induction false} Zeros(n: nat)
    ensures GetBE(seq(n, _ => 0)) == 0
  {
    if n > 0 {
      Zeros(n - 1);
      assert seq(n, _ => 0)[..n - 1] == seq(n - 1, _ => 0);
    }
  }

  /** Replacing the last four bytes of an IPv4 address leaves it an IPv4 address. */
  lemma MinimalHostPart(ip: seq<byte>, h: seq<byte>)
    requires |Minimal(ip)| == |h| == 4
    ensures |ip| >= 4 && Minimal(ip[..|ip| - 4] + h) == h
  {
    if Mapped(ip) {
      assert (ip[..12] + h)[..12] == MAPPED_PREFIX;
    } else {
      assert ip[..0] + h == h;
    }
  }

  lemma FourBytes(bs: seq<byte>)
    requires |bs| == 4
    ensures GetBE(bs) < U32_LIMIT
  {
    assert Pow256(4) == U32_LIMIT;
  }

  lemma RemainderBelow(x: nat, p: nat)
    requires p > 0
    ensures x % p <= x
  {
  }

  // ----- ranges of sub-pools --------------------------------------------------

  /** The last address of a network. */
  function LastBytes(nw: Cidr): (bs: seq<byte>)
    requires nw.ones <= nw.bits
  {
    PutBE(nw.ip + Size(nw) - 1, nw.bits / 8)
  }

  /** The ordinals, in the master, of the first and last address of a sub-pool. */
  function RangeOf(sub: Cidr, master: Cidr): (r: Option<Range>)
    requires sub.ones <= sub.bits && master.ones <= master.bits
  {
    var first, last := HostValue(IpBytes(sub), master), HostValue(LastBytes(sub), master);
    if first.Some? && last.Some? then Some(Range(first.value, last.value)) else None
  }

  method GetAddressRange(sub: Cidr, master: Cidr) returns (r: Option<Range>)
    requires WellFormed(sub) && WellFormed(master)
    ensures r == RangeOf(sub, master)
  {
    hide OnBytes, Pow2, Pow256, PutBE, MaskBytes, Complement, Mapped, MaskFor, Size, Minimal, HostValue;
    HostMask(sub);
    NotMapped(IpBytes(sub));
    var start := HostOrdinal(IpBytes(sub), master);
    if start.None? {
      return None;
    }
    var bIP := WithHostMask(Or, IpBytes(sub), MaskBytes(sub));
    LongMask(IpBytes(sub), MaskBytes(sub));
    if bIP.None? {
      return None;
    }
    BroadcastAddress(sub, bIP.value);
    var end := HostOrdinal(bIP.value, master);
    if end.None? {
      return None;
    }
    r := Some(Range(start.value, end.value));
  }

  lemma NotMapped(ip: seq<byte>)
    ensures !Mapped(ip) ==> Minimal(ip) == ip
  {
  }

  /** The broadcast address of a network is its last address. */
  lemma BroadcastAddress(sub: Cidr, bIP: seq<byte>)
    requires WellFormed(sub) && |MaskBytes(sub)| == sub.bits / 8
    requires bIP == OnBytes(Or, IpBytes(sub), Complement(MaskBytes(sub)))
    ensures bIP == LastBytes(sub)
  {
    hide OnBytes, MaskBytes, Complement, Mapped, GetBE, PutBE, Size, Pow256;
    BroadcastPart(sub);
    PutGetBE(bIP);
  }

  /** For pools of one family the ends of the range are the ordinals of the sub-pool's first and last address. */
  lemma RangeInside(sub: Cidr, nw: Cidr)
    requires WellFormed(sub) && WellFormed(nw) && nw.bits == sub.bits && nw.ones <= sub.ones
    requires RangeOf(sub, nw).Some?
    ensures RangeOf(sub, nw).value == Range(HostNumber(nw, sub.ip), HostNumber(nw, sub.ip + Size(sub) - 1))
  {
    hide Pow2, Pow256, PutBE, GetBE, MaskBytes, Complement, OnBytes, HostNumber, MaskFor;
    var last := sub.ip + Size(sub) - 1;
    GetPutBE(sub.ip, sub.bits / 8);
    HostMask(sub);
    BroadcastPart(sub);
    BroadcastAddress(sub, OnBytes(Or, IpBytes(sub), Complement(MaskBytes(sub))));
    assert GetBE(LastBytes(sub)) == last;
    hide Size;
    if Mapped(LastBytes(sub)) {
      LastNotMapped(sub);
    }
  }

  lemma LastNotMapped(sub: Cidr)
    requires WellFormed(sub) && sub.ones >= 96 && GetBE(LastBytes(sub)) == sub.ip + Size(sub) - 1
    ensures !Mapped(LastBytes(sub))
  {
    if sub.bits == 128 {
      hide Pow256, Pow2, PutBE, GetBE, Mapped, Minimal, Size;
      GetPutBE(sub.ip, 16);
      MappedValue(IpBytes(sub));
      MappedValue(LastBytes(sub));
      SameHigh(sub);
    }
  }

  /** The addresses of a short block differ in the last four bytes only. */
  lemma SameHigh(c: Cidr)
    requires c.bits == 128 && 96 <= c.ones <= 128 && c.ip % Size(c) == 0
    ensures (c.ip + Size(c) - 1) / U32_LIMIT == c.ip / U32_LIMIT
  {
    var s, d := Size(c), Pow2(c.ones - 96);
    Pow2Add(128 - c.ones, c.ones - 96);
    Pow2At32();
    assert U32_LIMIT == s * d;
    hide *;
    HoldsInterval(c, c.ip + s - 1);
    SameQuotient(c, c.ip + s - 1);
    DivDiv(c.ip + s - 1, s, d);
    DivDiv(c.ip, s, d);
  }

  lemma SameQuotient(c: Cidr, x: nat)
    requires c.ones <= c.bits && Holds(c, x)
    ensures x / Size(c) == c.ip / Size(c)
  {
  }

  // ----- splitting a network --------------------------------------------------

  /** The `i`-th block of length `size` in a network. */
  function Chunk(base: Cidr, size: nat, i: nat): (c: Cidr)
    requires size <= base.bits
  {
    Cidr(base.ip + i * Pow2(base.bits - size), size, base.bits)
  }

  /** The bytes a block index contributes stay below the size of the base network. */
  lemma ChunkOffset(base: Cidr, size: nat, i: nat)
    requires base.ones <= size <= base.bits && i < Pow2(size - base.ones)
    ensures i * Pow2(base.bits - size) + Pow2(base.bits - size) <= Size(base)
  {
    var n, p := Pow2(size - base.ones), Pow2(base.bits - size);
    Pow2Add(size - base.ones, base.bits - size);
    assert Size(base) == n * p;
    MulMono(p, i + 1, n);
    Distribute(p, i, 1);
  }

  /** An address with a mask of `ones` digits, or with no mask where the length asked for is too long. */
  datatype Piece = Piece(ip: nat, ones: Option<nat>)

  /** The split, or the panic of an allocation with a negative capacity. */
  datatype Split = Pieces(list: seq<Piece>) | Panics

  /** The number a block index is shifted to: 64 bits of it, and zero where the length asked for is too long. */
  function Offset(base: Cidr, size: nat, i: nat): (v: u64) {
    if size > base.bits then 0 else (i * Pow2(base.bits - size)) % U64_LIMIT
  }

  function PieceAt(base: Cidr, size: nat, i: nat): (p: Piece) {
    Piece(base.ip + Offset(base, size, i), if size > base.bits then None else Some(size))
  }

  /** Splits a network into the subnets of length `size`: their number is a power of two in a 64-bit integer. */
  method SplitNetwork(size: nat, base: Cidr) returns (r: Split)
    requires WellFormed(base) && base.ones <= size
    ensures r.Panics? <==> size - base.ones == 63
    ensures r.Pieces? ==> |r.list| == if size - base.ones < 63 then Pow2(size - base.ones) else 0
    ensures r.Pieces? ==> forall i: nat :: i < |r.list| ==> r.list[i] == PieceAt(base, size, i)
  {
    hide OnBytes, Pow2, Pow256, PutBE, Size, GetBE;
    if size - base.ones == 63 {
      return Panics;
    }
    var n := if size - base.ones < 63 then Pow2(size - base.ones) else 0;
    var list := [];
    var i: nat := 0;
    while i < n
      invariant |list| == i <= n
      invariant forall j: nat :: j < i ==> list[j] == PieceAt(base, size, j)
    {
      var from := IpBytes(base);
      var ip := new byte[|from|](j requires 0 <= j < |from| => from[j]);
      assert ip[..ip.Length] == from;
      AddIntToIP(ip, ip.Length, Offset(base, size, i));
      OffsetBelow(base, size, i);
      OrOrdinal(base, Offset(base, size, i));
      assert ip[..ip.Length] == ip[..];
      list := list + [Piece(GetBE(ip[..]), if size > base.bits then None else Some(size))];
      i := i + 1;
    }
    return Pieces(list);
  }

  lemma OffsetBelow(base: Cidr, size: nat, i: nat)
    requires base.ones <= size && base.ones <= base.bits && i < Pow2(size - base.ones)
    ensures Offset(base, size, i) < Size(base)
  {
    if size <= base.bits {
      ChunkOffset(base, size, i);
    }
  }

  /** The pieces of a split are the blocks of the network exactly when the host part has at most 64 digits. */
  lemma SplitExactIff(base: Cidr, size: nat)
    requires base.ones <= size <= base.bits
    ensures (forall i: nat :: i < Pow2(size - base.ones) ==> PieceAt(base, size, i).ip == Chunk(base, size, i).ip)
      <==> base.bits - base.ones <= 64 || size == base.ones
  {
    var n := Pow2(size - base.ones);
    hide Pow2;
    if base.bits - base.ones <= 64 || size == base.ones {
      forall i: nat | i < n ensures PieceAt(base, size, i).ip == Chunk(base, size, i).ip {
        PieceExact(base, size, i);
      }
    } else {
      SplitCollides(base, size);
      assert PieceAt(base, size, Pow2(size - base.ones - 1)).ip != Chunk(base, size, Pow2(size - base.ones - 1)).ip;
    }
  }

  lemma PieceExact(base: Cidr, size: nat, i: nat)
    requires base.ones <= size <= base.bits && i < Pow2(size - base.ones)
    requires base.bits - base.ones <= 64 || size == base.ones
    ensures PieceAt(base, size, i).ip == Chunk(base, size, i).ip
  {
    if size == base.ones {
      assert Pow2(0) == 1;
    } else {
      ChunkOffset(base, size, i);
      Pow2Mono(base.bits - base.ones, 64);
      Pow2At64();
    }
  }

  /** Beyond 64 digits the block in the middle of a split is the first block again. */
  lemma SplitCollides(base: Cidr, size: nat)
    requires base.ones < size <= base.bits && base.bits - base.ones > 64
    ensures Pow2(size - base.ones - 1) < Pow2(size - base.ones)
    ensures Offset(base, size, Pow2(size - base.ones - 1)) == 0 == Offset(base, size, 0)
    ensures Chunk(base, size, Pow2(size - base.ones - 1)).ip > base.ip
  {
    var a, s := size - base.ones - 1, base.bits - size;
    assert Pow2(a + 1) == 2 * Pow2(a);
    Pow2Add(a, s);
    Pow2Add(64, a + s - 64);
    Pow2At64();
    hide Pow2;
    DivMul(Pow2(a + s - 64), U64_LIMIT);
  }

  lemma Pow2At64()
    ensures Pow2(64) == 2 * Pow2(63) == U64_LIMIT
  {
    Pow2At32();
    Pow2Add(32, 32);
  }

  lemma ChunkAligned(base: Cidr, size: nat, i: nat)
    requires WellFormed(base) && base.ones <= size <= base.bits
    ensures Chunk(base, size, i).ip % Size(Chunk(base, size, i)) == 0
  {
    hide Pow2, Pow256, Mapped, IpBytes;
    var p, m := Pow2(base.bits - size), Pow2(size - base.ones);
    Pow2Add(base.bits - size, size - base.ones);
    SplitMultiple(base.ip, p, m);
    AlignedSum(base.ip, p, i);
  }

  predicate InChunk(base: Cidr, size: nat, i: nat, x: nat)
    requires size <= base.bits
  {
    Holds(Chunk(base, size, i), x)
  }

  /** An address is in the `i`-th block exactly when `i` counts the blocks before it. */
  lemma ChunkHolds(base: Cidr, size: nat, i: nat, x: nat)
    requires WellFormed(base) && base.ones <= size <= base.bits
    ensures InChunk(base, size, i, x) <==> base.ip <= x && (x - base.ip) / Pow2(base.bits - size) == i
  {
    hide Pow2, Pow256, Mapped, IpBytes, Holds, WellFormed;
    ChunkAligned(base, size, i);
    HoldsInterval(Chunk(base, size, i), x);
    if x >= base.ip {
      QuotientIs(x - base.ip, Pow2(base.bits - size), i);
    }
  }

  lemma AlignedSum(b: nat, p: nat, i: nat)
    requires p > 0 && b % p == 0
    ensures (b + i * p) % p == 0
  {
    var q := b / p;
    Distribute(p, q, i);
    DivMul(q + i, p);
  }

  lemma QuotientIs(y: nat, p: nat, i: nat)
    requires p > 0
    ensures y / p == i <==> i * p <= y < i * p + p
  {
    if i * p <= y < i * p + p {
      MulDivMod(p, i, y - i * p);
    }
  }

  /** The blocks of a split are pairwise disjoint and exactly cover the base network. */
  lemma SplitPartitions(base: Cidr, size: nat, x: nat)
    requires WellFormed(base) && base.ones <= size <= base.bits
    ensures Holds(base, x) <==> exists i: nat :: i < Pow2(size - base.ones) && InChunk(base, size, i, x)
    ensures forall i: nat, j: nat :: InChunk(base, size, i, x) && InChunk(base, size, j, x) ==> i == j
  {
    hide Pow2, Holds, InChunk, Pow256, Mapped, IpBytes;
    var n, p := Pow2(size - base.ones), Pow2(base.bits - size);
    forall i: nat
      ensures InChunk(base, size, i, x) <==> base.ip <= x && (x - base.ip) / p == i
    {
      ChunkHolds(base, size, i, x);
    }
    HoldsInterval(base, x);
    Pow2Add(base.bits - size, size - base.ones);
    if Holds(base, x) {
      QuotientBelow(x - base.ip, p, n);
      assert InChunk(base, size, (x - base.ip) / p, x);
    }
    if i: nat :| i < n && InChunk(base, size, i, x) {
      ChunkOffset(base, size, i);
      QuotientIs(x - base.ip, p, i);
    }
  }
}
