/**
 Address allocation over pools and bitmasks, as values: every request or release
 is a step on the pool table and the bitmask of the master pool.
 */
module Allocation {
  import opened Blocks
  import opened Bitmaps
  import opened Numbers
  import opened Cidrs
  import opened Subnets
  import opened Pools
  import H = Handles

  datatype Book = Book(table: PoolTable, masks: map<SubnetKey, H.Mask>)

  datatype Reply =
    | Address(ip: nat)
    | Released
    | NotFound
    | OutOfRange
    | NoAvailableIPs
    | AlreadyAllocated
    | Refused

  // ----- bitmasks -------------------------------------------------------------

  /** The number of ordinals of a pool, capped for large IPv6 pools. */
  function NumAddresses(nw: Cidr): (n: u64)
    requires nw.ones <= nw.bits
    ensures n == if Size(nw) < U64_LIMIT then Size(nw) else U64_LIMIT - 1
    ensures nw.bits == 32 ==> n == Size(nw)
  {
    if nw.bits - nw.ones >= 64 then
      Pow2Mono(64, nw.bits - nw.ones);
      Pow2At64();
      U64_LIMIT - 1
    else
      Pow2Mono(nw.bits - nw.ones, 63);
      Pow2At64();
      Pow2(nw.bits - nw.ones)
  }

  /** A new bitmask: the network address is taken and, for IPv4, the broadcast address. */
  ghost function NewMask(nw: Cidr): (m: H.Mask)
    requires nw.ones <= nw.bits
  {
    var n := NumAddresses(nw);
    var m := H.SetBit(H.Fresh(n), 0).0;
    if nw.bits == 32 then H.SetBit(m, n - 1).0 else m
  }

  ghost function GetAddress(m: H.Mask, nw: Cidr, host: Option<nat>, range: Option<Range>, serial: bool)
    : (r: (H.Mask, Reply))
  {
    if m.unselected == 0 then (m, NoAvailableIPs)
    else
      var (m', o) :=
        if host.Some? then H.SetBit(m, host.value)
        else if range.None? then H.SetAny(m, serial)
        else H.SetAnyInRange(m, range.value.start, range.value.end, serial);
      match o
      case Granted(ordinal) => (m', Address(nw.ip + ordinal))
      case Done => (m', if host.Some? then Address(nw.ip + host.value) else Refused)
      case BitAllocated => (m', AlreadyAllocated)
      case NoBitAvailable => (m', NoAvailableIPs)
      case BadRequest => (m', Refused)
  }

  // ----- steps ----------------------------------------------------------------

  ghost function MaskOf(b: Book, j: SubnetKey): (m: H.Mask)
    requires j in b.table && b.table[j].pool.ones <= b.table[j].pool.bits
  {
    if j in b.masks then b.masks[j] else NewMask(b.table[j].pool)
  }

  ghost function AskPool(b: Book, k: SubnetKey, nw: Cidr, ipr: Option<Range>, pdf: bool): (r: (AddResult, Book))
    requires nw.ones <= nw.bits
  {
    var (r, t) := AddPool(b.table, k, nw, ipr, pdf);
    (r, Book(t, if r.Added? && r.inserts.Some? then b.masks[r.inserts.value := NewMask(nw)] else b.masks))
  }

  ghost function GivePool(b: Book, k: SubnetKey): (r: (RemoveResult, Book)) {
    var (r, t) := RemovePool(b.table, k);
    (r, b.(table := t))
  }

  ghost function AskAddress(b: Book, k: SubnetKey, pref: Option<nat>, serial: bool): (r: (Reply, Book))
    requires Linkage(b.table)
  {
    if k !in b.table then (NotFound, b)
    else
      assert Linked(b.table, k) && Linked(b.table, MasterOf(k));
      var p, j := b.table[k], MasterOf(k);
      if pref.Some? && !Holds(p.pool, pref.value) then (OutOfRange, b)
      else
        var host := if pref.Some? then Some(HostNumber(p.pool, pref.value)) else None;
        var (m', r) := GetAddress(MaskOf(b, j), p.pool, host, p.range, serial);
        (r, b.(masks := b.masks[j := m']))
  }

  ghost function GiveAddress(b: Book, k: SubnetKey, address: nat): (r: (Reply, Book))
    requires Linkage(b.table)
  {
    if k !in b.table then (NotFound, b)
    else
      assert Linked(b.table, k) && Linked(b.table, MasterOf(k));
      var p, j := b.table[k], MasterOf(k);
      if !Holds(p.pool, address) then (OutOfRange, b)
      else
        var (m', o) := H.Unset(MaskOf(b, j), HostNumber(p.pool, address));
        (if o.Done? then Released else Refused, b.(masks := b.masks[j := m']))
  }

  // ----- one master -----------------------------------------------------------

  /** Ordinals are handed out below the top: the broadcast address, or the end of the ordinals of an IPv6 pool. */
  function Top(nw: Cidr): (n: nat)
    requires nw.ones <= nw.bits
    ensures n <= NumAddresses(nw) <= Size(nw)
  {
    if nw.bits == 32 then Size(nw) - 1 else NumAddresses(nw)
  }

  /** The ordinals of a pool that are never handed out. */
  predicate Edge(nw: Cidr, i: nat)
    requires nw.ones <= nw.bits
  {
    i == 0 || i >= Top(nw)
  }

  /** The bitmask marks exactly the held addresses and the edges. */
  ghost predicate Marks(nw: Cidr, m: H.Mask, held: set<nat>) {
    && nw.ones <= nw.bits
    && H.WellFormed(m) && H.Conserved(m) && m.bits == NumAddresses(nw)
    && (forall i: nat :: i < m.bits ==> (H.Taken(m, i) <==> Edge(nw, i) || nw.ip + i in held))
    && (forall a :: a in held ==> nw.ip < a < nw.ip + Top(nw))
  }

  /** Setting a bit, taken or not, leaves it taken. */
  lemma SetTakes(m: H.Mask, i: nat)
    requires H.WellFormed(m) && H.Conserved(m) && i < m.bits
    ensures
      var m' := H.SetBit(m, i).0;
      && H.WellFormed(m') && H.Conserved(m') && m'.bits == m.bits
      && forall j: nat :: H.Taken(m', j) <==> j == i || H.Taken(m, j)
  {
    hide H.WellFormed, H.Conserved, H.Taken;
    H.SetBitSpec(m, i);
    assert H.SetBit(m, i).0.bits == m.bits;
  }

  lemma NewMaskMarks(nw: Cidr)
    requires WellFormed(nw)
    ensures Marks(nw, NewMask(nw), {})
  {
    hide H.SetBit, H.WellFormed, H.Conserved, H.Taken, IpBytes, Marks, Pow2, NumAddresses;
    var n: nat := NumAddresses(nw);
    var m0 := H.Fresh(n);
    var m1 := H.SetBit(m0, 0).0;
    var m2 := H.SetBit(m1, n - 1).0;
    assert m0.bits == n && NewMask(nw) == if nw.bits == 32 then m2 else m1;
    H.FreshSpec(n);
    SetTakes(m0, 0);
    SetTakes(m1, n - 1);
    MarksEdges(nw, if nw.bits == 32 then m2 else m1);
  }

  lemma MarksEdges(nw: Cidr, m: H.Mask)
    requires nw.ones <= nw.bits && H.WellFormed(m) && H.Conserved(m) && m.bits == NumAddresses(nw)
    requires forall i: nat :: H.Taken(m, i) <==> i == 0 || (nw.bits == 32 && i == NumAddresses(nw) - 1)
    ensures Marks(nw, m, {})
  {
    hide H.WellFormed, H.Conserved, H.Taken, Size, NumAddresses;
  }

  /**
   A granted address is free, inside the pool and not at its edge; it becomes held.
   A refusal changes nothing.
   */
  lemma GetAddressGrants(nw: Cidr, m: H.Mask, held: set<nat>, host: Option<nat>, range: Option<Range>, serial: bool)
    requires Marks(nw, m, held)
    ensures
      var (m', r) := GetAddress(m, nw, host, range, serial);
      if r.Address? then
        && r.ip !in held && nw.ip < r.ip < nw.ip + Top(nw)
        && Marks(nw, m', held + {r.ip})
        && (host.Some? ==> r.ip == nw.ip + host.value)
        && (host.None? && range.Some? ==> range.value.start <= r.ip - nw.ip <= range.value.end)
      else m' == m
  {
    hide H.WellFormed, H.Conserved, H.Taken, Size, H.SetBit, H.SetAny, H.SetAnyInRange;
    if m.unselected != 0 {
      if host.Some? {
        HostSpec(m, host.value);
      } else if range.None? {
        AnySpec(m, serial);
      } else {
        RangeSpec(m, range.value.start, range.value.end, serial);
      }
      var (m', r) := GetAddress(m, nw, host, range, serial);
      if r.Address? {
        GrantMarks(nw, m, held, m', r.ip - nw.ip);
      }
    }
  }

  /** The ordinal may be handed out and is not held. */
  predicate Available(nw: Cidr, held: set<nat>, i: nat)
    requires nw.ones <= nw.bits
  {
    0 < i < Top(nw) && nw.ip + i !in held
  }

  ghost predicate AvailableIn(nw: Cidr, held: set<nat>, lo: nat, hi: nat)
    requires nw.ones <= nw.bits
  {
    exists i: nat :: lo <= i < hi && Available(nw, held, i)
  }

  lemma FreeIffAvailable(nw: Cidr, m: H.Mask, held: set<nat>, lo: nat, hi: nat)
    requires Marks(nw, m, held)
    ensures H.FreeIn(m, lo, hi) <==> AvailableIn(nw, held, lo, hi)
    ensures m.unselected == 0 <==> !AvailableIn(nw, held, 0, m.bits)
  {
    hide H.WellFormed, H.Conserved, H.Taken, Size, NumAddresses;
    forall i: nat ensures i < m.bits && !H.Taken(m, i) <==> Available(nw, held, i) {
    }
    H.NoneLeftIff(m);
  }

  /**
   With a preferred ordinal: a full pool has none; else the ordinal is granted exactly if it is available, and
   is already allocated or beyond the ordinals otherwise.
   */
  lemma PreferredIff(nw: Cidr, m: H.Mask, held: set<nat>, host: nat, range: Option<Range>, serial: bool)
    requires Marks(nw, m, held)
    ensures GetAddress(m, nw, Some(host), range, serial).1 ==
      if !AvailableIn(nw, held, 0, NumAddresses(nw)) then NoAvailableIPs
      else if host >= NumAddresses(nw) then Refused
      else if Available(nw, held, host) then Address(nw.ip + host)
      else AlreadyAllocated
  {
    hide H.WellFormed, H.Conserved, H.Taken, Size, NumAddresses, H.SetBit, AvailableIn;
    FreeIffAvailable(nw, m, held, 0, m.bits);
    H.SetBitSpec(m, host);
  }

  /** Without one: an address of the range, or of the whole pool, is granted exactly if one is available. */
  lemma AutomaticIff(nw: Cidr, m: H.Mask, held: set<nat>, range: Option<Range>, serial: bool)
    requires Marks(nw, m, held)
    ensures
      var r := GetAddress(m, nw, None, range, serial).1;
      if range.None? then r.Address? <==> AvailableIn(nw, held, 0, NumAddresses(nw))
      else if range.value.start <= range.value.end < NumAddresses(nw) then
        r.Address? <==> AvailableIn(nw, held, range.value.start, range.value.end + 1)
      else !r.Address?
    ensures
      var r := GetAddress(m, nw, None, range, serial).1;
      var bad := range.Some? && !(range.value.start <= range.value.end < NumAddresses(nw));
      !r.Address? ==> r == if bad && AvailableIn(nw, held, 0, NumAddresses(nw)) then Refused else NoAvailableIPs
  {
    hide H.WellFormed, H.Conserved, H.Taken, Size, NumAddresses, H.SetAny, H.SetAnyInRange, Available;
    FreeIffAvailable(nw, m, held, 0, m.bits);
    if range.None? {
      H.SetAnyIff(m, serial);
    } else {
      FreeIffAvailable(nw, m, held, range.value.start, range.value.end + 1);
      H.SetAnyInRangeIff(m, range.value.start, range.value.end, serial);
    }
  }

  lemma GrantMarks(nw: Cidr, m: H.Mask, held: set<nat>, m': H.Mask, i: nat)
    requires Marks(nw, m, held) && GrantSpec(m, 0, m.bits, m', H.Granted(i))
    ensures !Edge(nw, i) && nw.ip + i !in held
    ensures Marks(nw, m', held + {nw.ip + i})
  {
    hide H.WellFormed, H.Conserved, H.Taken, Size;
  }

  lemma HostSpec(m: H.Mask, i: nat)
    requires H.WellFormed(m) && H.Conserved(m)
    ensures
      var (m', o) := H.SetBit(m, i);
      if o.Done? then GrantSpec(m, i, i + 1, m', H.Granted(i)) else m' == m && !o.Granted?
  {
    H.SetBitSpec(m, i);
    assert H.SetBit(m, i).0.bits == m.bits;
    hide H.WellFormed, H.Conserved, H.Taken, H.SetBit;
  }

  lemma AnySpec(m: H.Mask, serial: bool)
    requires H.WellFormed(m) && H.Conserved(m)
    ensures GrantSpec(m, 0, m.bits, H.SetAny(m, serial).0, H.SetAny(m, serial).1)
  {
    hide H.WellFormed, H.Conserved, H.Taken;
    if m.bits == 0 {
      EmptyMask(m);
    }
    if m.unselected != 0 {
      H.SetAnyInSpec(m, 0, m.bits - 1, serial);
    }
  }

  lemma EmptyMask(m: H.Mask)
    requires H.Conserved(m) && m.bits == 0
    ensures m.unselected == 0
  {
    hide H.BitsOf;
  }

  lemma RangeSpec(m: H.Mask, start: nat, end: nat, serial: bool)
    requires H.WellFormed(m) && H.Conserved(m)
    ensures
      var (m', o) := H.SetAnyInRange(m, start, end, serial);
      GrantSpec(m, start, end + 1, m', o)
  {
    hide H.WellFormed, H.Conserved, H.Taken;
    if start <= end < m.bits {
      H.SetAnyInSpec(m, start, end, serial);
    }
  }

  /** A free ordinal of `[lo, hi)` is taken, or nothing changes. */
  ghost predicate GrantSpec(m: H.Mask, lo: nat, hi: nat, m': H.Mask, o: H.Outcome) {
    if o.Granted? then
      && lo <= o.ordinal < hi && o.ordinal < m.bits && !H.Taken(m, o.ordinal)
      && H.WellFormed(m') && H.Conserved(m') && m'.bits == m.bits
      && forall j: nat :: H.Taken(m', j) <==> j == o.ordinal || H.Taken(m, j)
    else m' == m && !o.Done?
  }
}
