/**
 The allocator object. The pools of all address spaces are kept in one table, since
 every key carries the name of its space; the bitmask of a master pool is a handle.
 */
module Allocators {
  import opened Bytes
  import opened Bitmaps
  import opened Addresses
  import opened Cidrs
  import opened Subnets
  import opened Pools
  import opened AddressSpaces
  import opened Sequences
  import A = Allocation
  import H = Handles

  datatype IpReply = Granted(ip: seq<byte>) | Failed(reason: A.Reply)

  function Abstract(r: IpReply): (a: A.Reply) {
    match r
    case Granted(ip) => A.Address(GetBE(ip))
    case Failed(reason) => reason
  }

  ghost function Host(nw: Cidr, pref: Option<seq<byte>>): (h: Option<nat>)
    requires nw.ones <= nw.bits
  {
    if pref.Some? then Some(HostNumber(nw, GetBE(Minimal(pref.value)))) else None
  }

  /** Takes an ordinal in the bitmask: the given one, any in the range, or any at all. */
  method Claim(bm: H.Handle, host: Option<u64>, range: Option<Range>, serial: bool) returns (o: H.Outcome)
    requires bm.Valid() && bm.bits > 0
    modifies bm
    ensures bm.Valid() && fresh(bm.nodes - old(bm.nodes)) && bm.bits == old(bm.bits)
    ensures (bm.Value(), o) ==
      if host.Some? then H.SetBit(old(bm.Value()), host.value)
      else if range.None? then H.SetAny(old(bm.Value()), serial)
      else H.SetAnyInRange(old(bm.Value()), range.value.start, range.value.end, serial)
    ensures o.Granted? ==> host.None? && o.ordinal < bm.bits
    ensures o.Done? ==> host.Some? && host.value < bm.bits
  {
    hide H.SetBit, H.SetAny, H.SetAnyInRange, H.WellFormed;
    ghost var m := bm.Value();
    if range.None? && host.None? {
      o := bm.SetAnyBit(serial);
      AnyBelow(m, serial);
    } else if host.Some? {
      o := bm.SetOne(host.value);
      SetBelow(m, host.value);
    } else {
      o := bm.SetAnyBitInRange(range.value.start, range.value.end, serial);
      RangeBelow(m, range.value.start, range.value.end, serial);
    }
  }

  /** Takes an ordinal and turns it into an address. */
  method GetAddress(nw: Cidr, bm: H.Handle, pref: Option<seq<byte>>, range: Option<Range>, serial: bool)
    returns (r: IpReply)
    requires WellFormed(nw) && bm.Valid() && bm.bits == A.NumAddresses(nw)
    requires pref.Some? ==> |Minimal(pref.value)| == nw.bits / 8
    modifies bm
    ensures bm.Valid() && fresh(bm.nodes - old(bm.nodes)) && bm.bits == old(bm.bits)
    ensures (bm.Value(), Abstract(r)) == A.GetAddress(old(bm.Value()), nw, Host(nw, pref), range, serial)
  {
    hide Minimal, H.SetBit, H.SetAny, H.SetAnyInRange, H.WellFormed, IpBytes, Size, GetBE;
    hide A.NumAddresses;
    if bm.unselected <= 0 {
      return Failed(A.NoAvailableIPs);
    }
    var host := None;
    if pref.Some? {
      host := HostOrdinal(pref.value, nw);
      if host.None? {
        return Failed(A.Refused);
      }
    }
    var o := Claim(bm, host, range, serial);
    if o.Granted? || o.Done? {
      var ordinal: u64 := if o.Granted? then o.ordinal else host.value;
      var ip := GenerateAddress(ordinal, nw);
      return Granted(ip);
    }
    match o
    case BitAllocated => return Failed(A.AlreadyAllocated);
    case NoBitAvailable => return Failed(A.NoAvailableIPs);
    case BadRequest => return Failed(A.Refused);
  }

  lemma AnyBelow(m: H.Mask, serial: bool)
    requires H.WellFormed(m) && m.bits > 0
    ensures var (m', o) := H.SetAny(m, serial); m'.bits == m.bits && !o.Done? && (o.Granted? ==> o.ordinal < m.bits)
  {
    hide H.WellFormed, H.Taken;
    if m.unselected != 0 {
      H.SetAnyInSpec(m, 0, m.bits - 1, serial);
    }
  }

  lemma RangeBelow(m: H.Mask, start: nat, end: nat, serial: bool)
    requires H.WellFormed(m)
    ensures
      var (m', o) := H.SetAnyInRange(m, start, end, serial);
      m'.bits == m.bits && !o.Done? && (o.Granted? ==> o.ordinal < m.bits)
  {
    hide H.WellFormed, H.Taken;
    if start <= end < m.bits {
      H.SetAnyInSpec(m, start, end, serial);
    }
  }

  lemma UnsetBits(m: H.Mask, i: nat)
    ensures H.Unset(m, i).0.bits == m.bits
  {
  }

  lemma SetBelow(m: H.Mask, i: nat)
    ensures
      var (m', o) := H.SetBit(m, i);
      m'.bits == m.bits && !o.Granted? && (o.Done? ==> i < m.bits)
  {
  }

  datatype PoolReply =
    | Pool(id: SubnetKey, nw: Cidr)
    | InvalidAddressSpace
    | InvalidSubPool
    | NoDefaultPool
    | PoolOverlap

  /** The text of a sub-pool and the network it denotes. */
  datatype SubPool = SubPool(text: string, nw: Cidr)

  const LOCAL := "LocalDefault"
  const GLOBAL := "GlobalDefault"

  ghost function Values(addresses: map<SubnetKey, H.Handle>): (r: map<SubnetKey, H.Mask>)
    reads addresses.Values
  {
    map k | k in addresses :: addresses[k].Value()
  }

  lemma ValuesAdd(addresses: map<SubnetKey, H.Handle>, k: SubnetKey, h: H.Handle)
    ensures Values(addresses[k := h]) == Values(addresses)[k := h.Value()]
  {
  }

  ghost predicate HandleOk(k: SubnetKey, h: H.Handle, nodes: set<Sequence>)
    reads h, nodes
  {
    && h.nodes <= nodes && h.Valid()
    && k.subnet.Some? && WellFormed(k.subnet.value) && h.bits == A.NumAddresses(k.subnet.value)
  }

  /** Every bitmask is a valid handle of its own, as large as its pool. */
  ghost predicate HandlesOk(addresses: map<SubnetKey, H.Handle>, nodes: set<Sequence>)
    reads addresses.Values, nodes
  {
    && (forall k :: k in addresses ==> HandleOk(k, addresses[k], nodes))
    && (forall i, j :: i in addresses && j in addresses && i != j ==> addresses[i] != addresses[j])
  }

  lemma HandlesAdd(addresses: map<SubnetKey, H.Handle>, nodes: set<Sequence>, k: SubnetKey, h: H.Handle)
    requires HandlesOk(addresses, nodes) && HandleOk(k, h, h.nodes)
    requires h !in addresses.Values
    ensures HandlesOk(addresses[k := h], nodes + h.nodes)
  {
    hide WellFormed, A.NumAddresses;
    var a := addresses[k := h];
    forall j | j in a ensures HandleOk(j, a[j], nodes + h.nodes) {
      assert j != k ==> HandleOk(j, addresses[j], nodes);
    }
  }

  class Allocator {
    var predefined: map<string, seq<Cidr>>
    var startIndices: map<string, nat>
    const space: AddrSpace
    var addresses: map<SubnetKey, H.Handle>
    ghost var nodes: set<Sequence>

    /** Every master pool has its bitmask. */
    ghost predicate Valid()
      reads this, space, addresses.Values, nodes
    {
      Sound() && forall k :: k in space.subnets && k.child == "" ==> k in addresses
    }

    ghost predicate Sound()
      reads this, space, addresses.Values, nodes
    {
      && Linkage(space.subnets)
      && HandlesOk(addresses, nodes)
      && (forall a, i: nat :: a in predefined && i < |predefined[a]| ==> WellFormed(predefined[a][i]))
    }

    ghost function Book(): (b: A.Book)
      reads this, space, addresses.Values
    {
      A.Book(space.subnets, Values(addresses))
    }

    constructor (predefined: map<string, seq<Cidr>>)
      requires forall a, i: nat :: a in predefined && i < |predefined[a]| ==> WellFormed(predefined[a][i])
      ensures Valid() && fresh(space) && Book() == A.Book(map[], map[])
    {
      this.predefined := predefined;
      startIndices := map[];
      addresses := map[];
      space := new AddrSpace();
      nodes := {};
    }

    /** Installs a new bitmask for a pool, with its edge addresses taken. */
    method InsertBitMask(key: SubnetKey, pool: Cidr) returns (h: H.Handle)
      requires Sound() && key.subnet == Some(pool) && WellFormed(pool)
      modifies this`addresses, this`nodes
      ensures Sound() && fresh(h) && fresh(nodes - old(nodes))
      ensures addresses == old(addresses)[key := h] && h.Value() == A.NewMask(pool)
      ensures Values(addresses) == old(Values(addresses))[key := A.NewMask(pool)]
    {
      hide H.WellFormed, WellFormed, A.NewMask, A.NumAddresses, Linkage, HandlesOk, Values;
      h := NewBitMask(pool);
      HandlesAdd(addresses, nodes, key, h);
      ValuesAdd(addresses, key, h);
      addresses := addresses[key := h];
      nodes := nodes + h.nodes;
    }

    method RetrieveBitmask(k: SubnetKey, n: Cidr) returns (bm: H.Handle)
      requires Sound() && k.subnet == Some(n) && WellFormed(n)
      modifies this`addresses, this`nodes
      ensures Sound() && fresh(nodes - old(nodes))
      ensures k in addresses && bm == addresses[k]
      ensures if k in old(addresses) then addresses == old(addresses)
              else addresses == old(addresses)[k := bm] && fresh(bm) && bm.Value() == A.NewMask(n)
    {
      if k !in addresses {
        var _ := InsertBitMask(k, n);
      }
      bm := addresses[k];
    }

    function Defaults(a: string): (p: seq<Cidr>)
      reads this`predefined
    {
      if a in predefined then predefined[a] else []
    }

    /** Where the search for a default pool starts; an index beyond the list is taken as zero. */
    function StartIndex(a: string): (i: nat)
      reads this`predefined, this`startIndices
      ensures i <= |Defaults(a)|
    {
      if a in startIndices && startIndices[a] < |Defaults(a)| then startIndices[a] else 0
    }

    /** The default networks of a space, the next candidate first. */
    function Predefineds(a: string): (p: seq<Cidr>)
      reads this`predefined, this`startIndices
      ensures multiset(p) == multiset(Defaults(a)) && |p| == |Defaults(a)|
      ensures forall k: nat :: k < |p| ==>
        p[k] == Defaults(a)[if StartIndex(a) + k < |p| then StartIndex(a) + k else StartIndex(a) + k - |p|]
    {
      var p, i := Defaults(a), StartIndex(a);
      assert p == p[..i] + p[i..];
      p[i..] + p[..i]
    }

    /** The index that many places on, or zero where that leaves the list. */
    function After(indices: map<string, nat>, a: string, amt: nat): (i: nat)
      reads this`predefined
    {
      var i := (if a in indices then indices[a] else 0) + amt;
      if a in predefined && i < |predefined[a]| then i else 0
    }

    method UpdateStartIndex(a: string, amt: nat)
      modifies this`startIndices
      ensures startIndices == old(startIndices)[a := After(old(startIndices), a, amt)]
    {
      var i := (if a in startIndices then startIndices[a] else 0) + amt;
      if a !in predefined || i >= |predefined[a]| {
        i := 0;
      }
      startIndices := startIndices[a := i];
    }

    ghost predicate Unusable(a: string, nw: Cidr)
      reads space
    {
      SubnetKey(a, Some(nw), "") in space.subnets || Overlaps(space.subnets, a, nw)
    }

    /** The i-th of the candidates is the first of the version that can be used. */
    ghost predicate FirstIs(a: string, pools: seq<Cidr>, v6: bool, i: nat)
      reads space
    {
      && i < |pools| && (pools[i].bits == 128 <==> v6) && !Unusable(a, pools[i])
      && forall j: nat :: j < i && (pools[j].bits == 128 <==> v6) ==> Unusable(a, pools[j])
    }

    /**
     The first default pool, from the start index on, that is free and overlaps no master; the next search starts
     behind it. It fails only if there is none of that version, or the space has no defaults.
     */
    method GetPredefinedPool(a: string, v6: bool) returns (r: Option<Cidr>, ghost n: nat)
      requires Sound()
      modifies this`startIndices
      ensures Sound()
      ensures r.Some? ==> a in predefined && r.value in predefined[a] && (r.value.bits == 128 <==> v6)
      ensures r.Some? ==> WellFormed(r.value) && !Unusable(a, r.value)
      ensures r.Some? ==>
        && (a == LOCAL || a == GLOBAL)
        && FirstIs(a, old(Predefineds(a)), v6, n) && r.value == old(Predefineds(a))[n]
        && startIndices == old(startIndices)[a := After(old(startIndices), a, n + 1)]
      ensures r.None? ==> startIndices == old(startIndices)
      ensures r.None? && (a == LOCAL || a == GLOBAL) && a in predefined ==>
        forall nw :: nw in predefined[a] && (nw.bits == 128 <==> v6) ==> Unusable(a, nw)
    {
      hide WellFormed, Overlaps, Linkage, HandlesOk, Allocator.Unusable, Allocator.After;
      n := 0;
      if a != LOCAL && a != GLOBAL {
        return None, 0;
      }
      var pools := Predefineds(a);
      SameElements(pools, Defaults(a));
      hide Allocator.Predefineds;
      var i := FirstUsable(a, pools, v6);
      if i == |pools| {
        return None, 0;
      }
      UpdateStartIndex(a, i + 1);
      return Some(pools[i]), i;
    }

    method FirstUsable(a: string, pools: seq<Cidr>, v6: bool) returns (i: nat)
      requires Linkage(space.subnets) && forall nw :: nw in pools ==> WellFormed(nw)
      ensures i <= |pools|
      ensures i < |pools| ==> FirstIs(a, pools, v6, i)
      ensures i == |pools| ==> forall nw :: nw in pools && (nw.bits == 128 <==> v6) ==> Unusable(a, nw)
    {
      hide WellFormed, Overlaps, Linkage, IpBytes, Minimal;
      i := 0;
      while i < |pools|
        invariant i <= |pools|
        invariant forall j: nat :: j < i && (pools[j].bits == 128 <==> v6) ==> Unusable(a, pools[j])
      {
        var nw := pools[i];
        VersionIs(nw);
        if v6 == (|Minimal(IpBytes(nw))| != 4) && SubnetKey(a, Some(nw), "") !in space.subnets {
          var taken := space.Contains(a, nw);
          if !taken {
            return;
          }
        }
        i := i + 1;
      }
    }

    /** Adds the pool to the table and installs the bitmask of a new master. */
    method AddToTable(k: SubnetKey, nw: Cidr, ipr: Option<Range>, pdf: bool) returns (r: AddResult)
      requires Valid() && Request(k, nw, ipr)
      modifies this`addresses, this`nodes, space
      ensures Valid() && fresh(nodes - old(nodes))
      ensures (r, Book()) == A.AskPool(old(Book()), k, nw, ipr, pdf)
    {
      hide WellFormed, HandlesOk, A.NewMask, A.NumAddresses, Values;
      r := space.UpdatePoolDBOnAdd(k, nw, ipr, pdf);
      AddOutcome(old(space.subnets), k, nw, ipr, pdf);
      assert r.Added? ==> space.subnets.Keys == old(space.subnets).Keys + {k, MasterOf(k)};
      hide AddPool, AddedTo, Linkage, Values;
      if r.Added? && r.inserts.Some? {
        var _ := InsertBitMask(r.inserts.value, nw);
      }
    }

    /** Grants the requested pool, or a default one when none is named; a refusal changes no pool. */
    method RequestPool(a: string, pool: Option<Cidr>, sub: Option<SubPool>, v6: bool)
      returns (r: PoolReply, ghost ipr: Option<Range>)
      requires Valid() && (pool.Some? ==> WellFormed(pool.value))
      requires sub.Some? ==> WellFormed(sub.value.nw) && sub.value.text != ""
      modifies this`addresses, this`nodes, this`startIndices, space
      ensures Valid()
      ensures !r.Pool? ==> Book() == old(Book())
      ensures r.Pool? ==> Request(r.id, r.nw, ipr) && A.AskPool(old(Book()), r.id, r.nw, ipr, pool.None?).0.Added?
      ensures r.Pool? ==> A.AskPool(old(Book()), r.id, r.nw, ipr, pool.None?).1 == Book()
      ensures r.Pool? && pool.Some? ==> r.id == SubnetKey(a, pool, if sub.Some? then sub.value.text else "")
      ensures r.Pool? && pool.None? ==> sub.None? && r.id == SubnetKey(a, Some(r.nw), "") && (r.nw.bits == 128 <==> v6)
      ensures r.Pool? ==> ipr == if sub.Some? then RangeOf(sub.value.nw, r.nw) else None
      ensures r.InvalidAddressSpace? <==> a == ""
      ensures r.InvalidSubPool? <==>
        a != "" && sub.Some? && (pool.None? || RangeOf(sub.value.nw, pool.value).None?)
      ensures a != "" && pool.Some? && (sub.Some? ==> RangeOf(sub.value.nw, pool.value).Some?) ==>
        var k := SubnetKey(a, pool, if sub.Some? then sub.value.text else "");
        if k !in old(space.subnets) && (sub.Some? || !Overlaps(old(space.subnets), a, pool.value)) then r.Pool?
        else r.PoolOverlap?
      ensures a != "" && pool.None? && sub.None? ==> r.Pool? || r.NoDefaultPool?
      ensures r.Pool? && pool.None? ==> a == LOCAL || a == GLOBAL
      ensures r.NoDefaultPool? && (a == LOCAL || a == GLOBAL) && a in predefined ==>
        forall nw :: nw in predefined[a] && (nw.bits == 128 <==> v6) ==> Unusable(a, nw)
    {
      hide WellFormed, HandlesOk, AddPool, Linkage, Overlaps, Size;
      ipr := None;
      if a == "" {
        return InvalidAddressSpace, None;
      }
      if pool.None? {
        if sub.Some? {
          return InvalidSubPool, None;
        }
        var found, _ := GetPredefinedPool(a, v6);
        if found.None? {
          return NoDefaultPool, None;
        }
        var id := SubnetKey(a, found, "");
        FreePool(space.subnets, a, found.value);
        var _ := AddToTable(id, found.value, None, true);
        return Pool(id, found.value), None;
      }
      var range := None;
      if sub.Some? {
        range := GetAddressRange(sub.value.nw, pool.value);
        if range.None? {
          return InvalidSubPool, None;
        }
      }
      var id := SubnetKey(a, pool, if sub.Some? then sub.value.text else "");
      NamedPool(space.subnets, id, pool.value, range);
      var result := AddToTable(id, pool.value, range, false);
      if !result.Added? {
        AddOutcome(old(space.subnets), id, pool.value, range, false);
        return PoolOverlap, None;
      }
      return Pool(id, pool.value), range;
    }

    /** Releases a pool; the bitmask of a master whose last grant goes is destroyed. */
    method ReleasePool(k: SubnetKey) returns (r: RemoveResult)
      requires Valid()
      modifies space
      ensures (r, Book()) == A.GivePool(old(Book()), k)
      ensures forall granted :: Counted(old(space.subnets), granted) && (k in old(space.subnets) ==> k in granted) ==>
        Valid() && Counted(space.subnets, granted - {k})
    {
      hide HandlesOk, Counted, Linkage, RemovePool, Values;
      r := space.UpdatePoolDBOnRemoval(k);
      ghost var m := old(space.subnets);
      RemovedKeys(m, k);
      forall granted | Counted(m, granted) && (k in m ==> k in granted)
        ensures Counted(space.subnets, granted - {k}) && Linkage(space.subnets)
      {
        ReleaseCounted(m, granted, k);
        CountedLinks(space.subnets, granted - {k});
      }
    }

    /** The key of the master above a pool, found by walking the parents. */
    method MasterKey(k0: SubnetKey) returns (k: SubnetKey)
      requires Linkage(space.subnets) && k0 in space.subnets
      ensures k == MasterOf(k0) && k in space.subnets && space.subnets[k].pool == space.subnets[k0].pool
    {
      hide WellFormed;
      k := k0;
      var c := space.subnets[k];
      assert Linked(space.subnets, k0) && Linked(space.subnets, MasterOf(k0));
      while c.range.Some?
        invariant k in space.subnets && c == space.subnets[k] && (k == k0 || k == MasterOf(k0))
        decreases k.child != ""
      {
        k := c.parent;
        c := space.subnets[k];
      }
    }

    /** Takes an address from the bitmask of a master. */
    method TakeFrom(j: SubnetKey, nw: Cidr, pref: Option<seq<byte>>, range: Option<Range>, serial: bool)
      returns (r: IpReply)
      requires Sound() && j in addresses && j.subnet == Some(nw) && WellFormed(nw)
      requires pref.Some? ==> |Minimal(pref.value)| == nw.bits / 8
      modifies this`nodes, addresses[j]
      ensures Sound() && fresh(nodes - old(nodes))
      ensures
        var (m, a) := A.GetAddress(old(addresses[j].Value()), nw, Host(nw, pref), range, serial);
        Abstract(r) == a && Values(addresses) == old(Values(addresses))[j := m]
    {
      hide WellFormed, A.NumAddresses, Linkage, A.GetAddress, H.WellFormed, Minimal, Size, Values, HandlesOk;
      var bm := addresses[j];
      ghost var rest := addresses - {j};
      HandlesSplit(addresses, nodes, j);
      ValuesAdd(rest, j, bm);
      r := GetAddress(nw, bm, pref, range, serial);
      HandlesAdd(rest, nodes, j, bm);
      ValuesAdd(rest, j, bm);
      nodes := nodes + bm.nodes;
    }

    /** Grants an address of a pool. */
    method RequestAddress(k: SubnetKey, pref: Option<seq<byte>>, serial: bool) returns (r: IpReply)
      requires Valid()
      modifies this`addresses, this`nodes, addresses.Values
      ensures Valid() && fresh(nodes - old(nodes))
      ensures k !in space.subnets ==> r == Failed(A.NotFound) && Book() == old(Book())
      ensures k in space.subnets && Outside(k, pref) ==> r == Failed(A.OutOfRange) && Book() == old(Book())
      ensures k in space.subnets && !Outside(k, pref) ==>
        (Abstract(r), Book()) == A.AskAddress(old(Book()), k, PrefValue(pref), serial)
    {
      hide WellFormed, Linkage, HandlesOk, Values, A.GetAddress, Minimal, Size, H.WellFormed;
      if k !in space.subnets {
        return Failed(A.NotFound);
      }
      var p := space.subnets[k];
      PoolForm(space.subnets, k);
      if pref.Some? && !ContainsIp(p.pool, pref.value) {
        return Failed(A.OutOfRange);
      }
      var j := MasterKey(k);
      PoolForm(space.subnets, j);
      var bm := RetrieveBitmask(j, p.pool);
      assert bm == old(addresses)[j];
      ValuesAt(addresses, j);
      r := TakeFrom(j, p.pool, pref, p.range, serial);
    }

    /** Clears an ordinal in the bitmask of a master. */
    method DropFrom(j: SubnetKey, ordinal: u64) returns (o: H.Outcome)
      requires Sound() && j in addresses
      modifies this`nodes, addresses[j]
      ensures Sound() && fresh(nodes - old(nodes))
      ensures var (m, a) := H.Unset(old(addresses[j].Value()), ordinal);
              o == a && Values(addresses) == old(Values(addresses))[j := m]
    {
      hide WellFormed, A.NumAddresses, Linkage, H.WellFormed, Values, HandlesOk, H.Unset;
      var bm := addresses[j];
      ghost var rest, m := addresses - {j}, bm.Value();
      HandlesSplit(addresses, nodes, j);
      ValuesAdd(rest, j, bm);
      o := bm.UnsetOne(ordinal);
      UnsetBits(m, ordinal);
      HandlesAdd(rest, nodes, j, bm);
      ValuesAdd(rest, j, bm);
      nodes := nodes + bm.nodes;
    }

    /** Releases an address of a pool. */
    method ReleaseAddress(k: SubnetKey, address: Option<seq<byte>>) returns (r: A.Reply)
      requires Valid()
      modifies this`addresses, this`nodes, addresses.Values
      ensures Valid() && fresh(nodes - old(nodes))
      ensures k !in space.subnets ==> r == A.NotFound && Book() == old(Book())
      ensures k in space.subnets && address.None? ==> r == A.Refused && Book() == old(Book())
      ensures k in space.subnets && Outside(k, address) ==> r == A.OutOfRange && Book() == old(Book())
      ensures k in space.subnets && address.Some? && !Outside(k, address) ==>
        (r, Book()) == A.GiveAddress(old(Book()), k, GetBE(Minimal(address.value)))
    {
      hide WellFormed, Linkage, HandlesOk, Values, Minimal, Size, H.WellFormed, H.Unset;
      if k !in space.subnets {
        return A.NotFound;
      }
      if address.None? {
        return A.Refused;
      }
      var p := space.subnets[k];
      PoolForm(space.subnets, k);
      if !ContainsIp(p.pool, address.value) {
        return A.OutOfRange;
      }
      var j := MasterKey(k);
      PoolForm(space.subnets, j);
      var h := HostOrdinal(address.value, p.pool);
      if h.None? {
        return A.Refused;
      }
      var bm := RetrieveBitmask(j, p.pool);
      assert bm == old(addresses)[j];
      ValuesAt(addresses, j);
      var o := DropFrom(j, h.value);
      return if o.Done? then A.Released else A.Refused;
    }

    ghost predicate Outside(k: SubnetKey, pref: Option<seq<byte>>)
      requires Linkage(space.subnets) && k in space.subnets
      reads space
    {
      assert Linked(space.subnets, k);
      pref.Some? && !ContainsIp(space.subnets[k].pool, pref.value)
    }
  }

  lemma ValuesAt(addresses: map<SubnetKey, H.Handle>, j: SubnetKey)
    requires j in addresses
    ensures j in Values(addresses) && Values(addresses)[j] == addresses[j].Value()
  {
  }

  ghost function PrefValue(pref: Option<seq<byte>>): (v: Option<nat>) {
    if pref.Some? then Some(GetBE(Minimal(pref.value))) else None
  }

  lemma PoolForm(m: PoolTable, k: SubnetKey)
    requires Linkage(m) && k in m
    ensures m[k].pool.ones <= m[k].pool.bits && WellFormed(m[k].pool) && k.subnet == Some(m[k].pool)
  {
    assert Linked(m, k);
  }

  /** One handle set apart from the others. */
  lemma HandlesSplit(addresses: map<SubnetKey, H.Handle>, nodes: set<Sequence>, j: SubnetKey)
    requires HandlesOk(addresses, nodes) && j in addresses
    ensures var rest := addresses - {j};
            HandlesOk(rest, nodes) && addresses[j] !in rest.Values && rest[j := addresses[j]] == addresses
    ensures HandleOk(j, addresses[j], nodes)
  {
  }

  /** A new bitmask in which the network address and, for IPv4, the broadcast address are taken. */
  method NewBitMask(pool: Cidr) returns (h: H.Handle)
    requires WellFormed(pool)
    ensures fresh(h) && h.Valid() && fresh(h.nodes)
    ensures h.Value() == A.NewMask(pool) && h.bits == A.NumAddresses(pool)
  {
    hide H.SetBit, H.WellFormed, H.Fresh, IpBytes, A.NumAddresses;
    var numAddresses := A.NumAddresses(pool);
    h := new H.Handle(numAddresses);
    FreshBits(numAddresses);
    var _ := h.SetOne(0);
    SetBelow(H.Fresh(numAddresses), 0);
    if |Minimal(IpBytes(pool))| == 4 {
      var _ := h.SetOne(numAddresses - 1);
      SetBelow(H.SetBit(H.Fresh(numAddresses), 0).0, numAddresses - 1);
    }
    ShortForm(pool);
  }

  lemma SameElements(p: seq<Cidr>, q: seq<Cidr>)
    requires multiset(p) == multiset(q)
    ensures forall c :: c in p <==> c in q
  {
    assert forall c :: c in p <==> c in multiset(p);
    assert forall c :: c in q <==> c in multiset(q);
  }

  lemma RemovedKeys(m: PoolTable, k: SubnetKey)
    ensures RemovePool(m, k).1.Keys <= m.Keys
  {
  }

  lemma CountedLinks(m: PoolTable, granted: set<SubnetKey>)
    requires Counted(m, granted)
    ensures Linkage(m)
  {
  }

  lemma FreePool(m: PoolTable, a: string, nw: Cidr)
    requires SubnetKey(a, Some(nw), "") !in m && !Overlaps(m, a, nw)
    ensures AddPool(m, SubnetKey(a, Some(nw), ""), nw, None, true).0.Added?
  {
  }

  lemma NamedPool(m: PoolTable, k: SubnetKey, nw: Cidr, ipr: Option<Range>)
    ensures AddPool(m, k, nw, ipr, false).0.Added? <==> k !in m && (ipr.Some? || !Overlaps(m, k.space, nw))
  {
    AddPoolIff(m, k, nw, ipr, false);
  }

  lemma VersionIs(nw: Cidr)
    requires WellFormed(nw)
    ensures |Minimal(IpBytes(nw))| != 4 <==> nw.bits == 128
  {
  }

  lemma FreshBits(n: nat)
    ensures H.Fresh(n).bits == n
  {
  }

  lemma ShortForm(nw: Cidr)
    requires WellFormed(nw)
    ensures |Minimal(IpBytes(nw))| == 4 <==> nw.bits == 32
  {
  }
}
