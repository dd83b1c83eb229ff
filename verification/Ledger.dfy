/** Whole runs of the allocator: which pools are granted and which addresses are held. */
module Ledgers {
  import opened Bitmaps
  import opened Cidrs
  import opened Subnets
  import opened Pools
  import opened Allocation
  import H = Handles

  /** `held` pairs a master pool with an address granted through it and not released. */
  datatype Ledger = Ledger(book: Book, granted: set<SubnetKey>, held: set<(SubnetKey, nat)>)

  datatype Call =
    | RequestPool(k: SubnetKey, nw: Cidr, ipr: Option<Range>, pdf: bool)
    | ReleasePool(k: SubnetKey)
    | RequestAddress(k: SubnetKey, pref: Option<nat>, serial: bool)
    | ReleaseAddress(k: SubnetKey, address: nat)

  function HeldAt(held: set<(SubnetKey, nat)>, j: SubnetKey): (r: set<nat>) {
    set h | h in held && h.0 == j :: h.1
  }

  function Without(held: set<(SubnetKey, nat)>, j: SubnetKey): (r: set<(SubnetKey, nat)>) {
    set h | h in held && h.0 != j
  }

  ghost predicate MaskOk(l: Ledger, j: SubnetKey)
    requires j in l.book.table
  {
    j in l.book.masks && Marks(l.book.table[j].pool, l.book.masks[j], HeldAt(l.held, j))
  }

  ghost predicate LedgerOk(l: Ledger) {
    && Counted(l.book.table, l.granted)
    && (forall j :: j in l.book.table && j.child == "" ==> MaskOk(l, j))
    && (forall h :: h in l.held ==> h.0 in l.book.table && h.0.child == "")
  }

  /** Pools come from parsed requests, releases match grants, and a released address has its own ordinal. */
  ghost predicate Legal(l: Ledger, c: Call) {
    match c
    case RequestPool(k, nw, ipr, _) => Request(k, nw, ipr)
    case ReleasePool(k) => k in l.book.table ==> k in l.granted
    case RequestAddress(_, _, _) => true
    case ReleaseAddress(k, address) =>
      k in l.book.table && InPool(l, k, address) ==>
        (MasterOf(k), address) in l.held && Exact(l.book.table[k].pool, address)
  }

  predicate InPool(l: Ledger, k: SubnetKey, address: nat)
    requires k in l.book.table
  {
    var p := l.book.table[k].pool;
    p.ones <= p.bits && Holds(p, address)
  }

  ghost function Next(l: Ledger, c: Call): (l': Ledger)
    requires LedgerOk(l) && Legal(l, c)
  {
    match c
    case RequestPool(k, nw, ipr, pdf) =>
      var (r, b) := AskPool(l.book, k, nw, ipr, pdf);
      Ledger(b, if r.Added? then l.granted + {k} else l.granted, l.held)
    case ReleasePool(k) =>
      var (r, b) := GivePool(l.book, k);
      Ledger(b, l.granted - {k}, if r.Removed? && r.destroys.Some? then Without(l.held, r.destroys.value) else l.held)
    case RequestAddress(k, pref, serial) =>
      var (r, b) := AskAddress(l.book, k, pref, serial);
      Ledger(b, l.granted, if r.Address? then l.held + {(MasterOf(k), r.ip)} else l.held)
    case ReleaseAddress(k, address) =>
      var (r, b) := GiveAddress(l.book, k, address);
      Ledger(b, l.granted, if r.Released? then l.held - {(MasterOf(k), address)} else l.held)
  }

  lemma HeldAtAdd(held: set<(SubnetKey, nat)>, j: SubnetKey, ip: nat, i: SubnetKey)
    ensures HeldAt(held + {(j, ip)}, i) == if i == j then HeldAt(held, i) + {ip} else HeldAt(held, i)
  {
    assert forall a :: a in HeldAt(held + {(j, ip)}, i) <==> (i, a) in held + {(j, ip)};
    assert forall a :: a in HeldAt(held, i) <==> (i, a) in held;
  }

  lemma HeldAtDrop(held: set<(SubnetKey, nat)>, j: SubnetKey, ip: nat, i: SubnetKey)
    ensures HeldAt(held - {(j, ip)}, i) == if i == j then HeldAt(held, i) - {ip} else HeldAt(held, i)
  {
    assert forall a :: a in HeldAt(held - {(j, ip)}, i) <==> (i, a) in held - {(j, ip)};
    assert forall a :: a in HeldAt(held, i) <==> (i, a) in held;
  }

  lemma HeldAtWithout(held: set<(SubnetKey, nat)>, j: SubnetKey, i: SubnetKey)
    requires i != j
    ensures HeldAt(Without(held, j), i) == HeldAt(held, i)
  {
    assert forall a :: a in HeldAt(Without(held, j), i) <==> (i, a) in Without(held, j);
    assert forall a :: a in HeldAt(held, i) <==> (i, a) in held;
  }

  // ----- pools ----------------------------------------------------------------

  lemma RequestPoolKeeps(l: Ledger, k: SubnetKey, nw: Cidr, ipr: Option<Range>, pdf: bool)
    requires LedgerOk(l) && Request(k, nw, ipr)
    ensures LedgerOk(Next(l, RequestPool(k, nw, ipr, pdf)))
  {
    hide Counted, Marks, NewMask, WellFormed;
    var l' := Next(l, RequestPool(k, nw, ipr, pdf));
    AddKeepsCounts(l.book.table, l.granted, k, nw, ipr, pdf);
    AddOutcome(l.book.table, k, nw, ipr, pdf);
    hide AddPool;
    var p := MasterOf(k);
    forall j | j in l'.book.table && j.child == "" ensures MaskOk(l', j) {
      if j in l.book.table {
        assert MaskOk(l, j);
      } else {
        assert j == p && HeldAt(l.held, p) == {};
        NewMaskMarks(nw);
      }
    }
  }

  lemma ReleasePoolKeeps(l: Ledger, k: SubnetKey)
    requires LedgerOk(l) && Legal(l, ReleasePool(k))
    ensures LedgerOk(Next(l, ReleasePool(k)))
  {
    hide Marks, HeldAt, Counted, RemovePool;
    if k in l.granted {
      var l', p := Next(l, ReleasePool(k)), MasterOf(k);
      RemoveGranted(l.book.table, l.granted, k);
      RemovedTable(l.book.table, l.granted, k);
      hide Grants;
      forall j | j in l'.book.table && j.child == "" ensures MaskOk(l', j) {
        assert MaskOk(l, j);
        if j != p {
          HeldAtWithout(l.held, p, j);
        }
      }
    } else {
      Unknown(l, k);
      assert l.granted - {k} == l.granted;
    }
  }

  lemma Unknown(l: Ledger, k: SubnetKey)
    requires k !in l.book.table
    ensures RemovePool(l.book.table, k) == (BadPool, l.book.table)
  {
  }

  // ----- addresses ------------------------------------------------------------

  /** A pool has the network of its master, whose mask is in place. */
  lemma MasterMask(l: Ledger, k: SubnetKey)
    requires LedgerOk(l) && k in l.book.table
    ensures
      var t, j := l.book.table, MasterOf(k);
      && j in t && t[j].pool == t[k].pool && WellFormed(t[k].pool)
      && j in l.book.masks && Marks(t[k].pool, l.book.masks[j], HeldAt(l.held, j))
  {
    assert Linked(l.book.table, k) && Linked(l.book.table, MasterOf(k)) && MaskOk(l, MasterOf(k));
  }

  /** What a granted address is. */
  ghost predicate FreshAddress(l: Ledger, k: SubnetKey, ip: nat)
    requires k in l.book.table
  {
    var nw := l.book.table[k].pool;
    && nw.ones <= nw.bits
    && Holds(nw, ip)
    && nw.ip < ip < nw.ip + Top(nw)
    && (MasterOf(k), ip) !in l.held
  }

  /** The address granted for a preferred one has its ordinal, and is that one exactly if the ordinal is exact. */
  predicate AsPreferred(nw: Cidr, ip: nat, pref: nat) {
    nw.ones <= nw.bits && ip == nw.ip + HostNumber(nw, pref) && (ip == pref <==> Exact(nw, pref))
  }

  /** A granted address lies in the pool, off its edges, and is not held; a refusal changes nothing. */
  lemma RequestAddressGrants(l: Ledger, k: SubnetKey, pref: Option<nat>, serial: bool)
    requires LedgerOk(l) && k in l.book.table
    ensures
      var (r, b) := AskAddress(l.book, k, pref, serial);
      var nw, j := l.book.table[k].pool, MasterOf(k);
      && b.table == l.book.table
      && (forall i :: i in l.book.masks && i != j ==> i in b.masks && b.masks[i] == l.book.masks[i])
      && (pref.Some? && r.Address? ==> AsPreferred(nw, r.ip, pref.value))
      && j in b.masks
      && if r.Address? then FreshAddress(l, k, r.ip) && Marks(nw, b.masks[j], HeldAt(l.held, j) + {r.ip})
         else b.masks[j] == l.book.masks[j]
  {
    hide LedgerOk, Linkage;
    MasterMask(l, k);
    Linkages(l);
    var t, j := l.book.table, MasterOf(k);
    var nw, m, held := t[k].pool, l.book.masks[j], HeldAt(l.held, j);
    if pref.None? || Holds(nw, pref.value) {
      var host := if pref.Some? then Some(HostNumber(nw, pref.value)) else None;
      hide Marks, GetAddress, WellFormed, Size, HeldAt, HostNumber, Top;
      AlignedPool(nw);
      GetAddressGrants(nw, m, held, host, t[k].range, serial);
      var r := GetAddress(m, nw, host, t[k].range, serial).1;
      if r.Address? {
        GrantedAddress(l, k, r.ip, pref);
      }
    }
  }

  /** The ordinal of the pool's master may be handed out and is not held. */
  predicate FreeAt(l: Ledger, k: SubnetKey, i: nat)
    requires k in l.book.table
  {
    var nw := l.book.table[k].pool;
    nw.ones <= nw.bits && 0 < i < Top(nw) && (MasterOf(k), nw.ip + i) !in l.held
  }

  ghost predicate FreeWithin(l: Ledger, k: SubnetKey, lo: nat, hi: nat)
    requires k in l.book.table
  {
    exists i: nat :: lo <= i < hi && FreeAt(l, k, i)
  }

  lemma FreeWithinIs(l: Ledger, k: SubnetKey, lo: nat, hi: nat)
    requires LedgerOk(l) && k in l.book.table
    ensures l.book.table[k].pool.ones <= l.book.table[k].pool.bits
    ensures FreeWithin(l, k, lo, hi) <==> AvailableIn(l.book.table[k].pool, HeldAt(l.held, MasterOf(k)), lo, hi)
  {
    hide LedgerOk, Marks, Top;
    MasterMask(l, k);
    AlignedPool(l.book.table[k].pool);
    var nw, j := l.book.table[k].pool, MasterOf(k);
    hide WellFormed, HeldAt;
    forall i: nat ensures FreeAt(l, k, i) <==> Available(nw, HeldAt(l.held, j), i) {
      HeldPair(l.held, j, nw.ip + i);
    }
  }

  /** When a request with a preferred address of the pool is granted, and what it is refused with. */
  lemma PreferredRequestIff(l: Ledger, k: SubnetKey, pref: nat, serial: bool)
    requires LedgerOk(l) && k in l.book.table && InPool(l, k, pref)
    ensures Linkage(l.book.table)
    ensures
      var nw := l.book.table[k].pool;
      AskAddress(l.book, k, Some(pref), serial).0 ==
        if !FreeWithin(l, k, 0, NumAddresses(nw)) then NoAvailableIPs
        else if HostNumber(nw, pref) >= NumAddresses(nw) then Refused
        else if FreeAt(l, k, HostNumber(nw, pref)) then Address(nw.ip + HostNumber(nw, pref))
        else AlreadyAllocated
  {
    hide LedgerOk, Marks, GetAddress, HostNumber, NumAddresses, AvailableIn, FreeWithin;
    Linkages(l);
    MasterMask(l, k);
    var nw, j := l.book.table[k].pool, MasterOf(k);
    AlignedPool(nw);
    hide WellFormed, Linkage, HeldAt, Top, Size;
    var host := HostNumber(nw, pref);
    PreferredIff(nw, l.book.masks[j], HeldAt(l.held, j), host, l.book.table[k].range, serial);
    FreeWithinIs(l, k, 0, NumAddresses(nw));
    HeldPair(l.held, j, nw.ip + host);
  }

  /** Without a preferred address a request is granted exactly if one of its range, or of the pool, is free. */
  lemma AutomaticRequestIff(l: Ledger, k: SubnetKey, serial: bool)
    requires LedgerOk(l) && k in l.book.table
    ensures Linkage(l.book.table) && l.book.table[k].pool.ones <= l.book.table[k].pool.bits
    ensures
      var r := AskAddress(l.book, k, None, serial).0;
      var range, n := l.book.table[k].range, NumAddresses(l.book.table[k].pool);
      r.Address? <==>
        if range.None? then FreeWithin(l, k, 0, n)
        else range.value.start <= range.value.end < n && FreeWithin(l, k, range.value.start, range.value.end + 1)
  {
    hide LedgerOk, Marks, GetAddress, HostNumber, NumAddresses, AvailableIn, FreeWithin;
    Linkages(l);
    MasterMask(l, k);
    var nw, j, range := l.book.table[k].pool, MasterOf(k), l.book.table[k].range;
    AlignedPool(nw);
    hide WellFormed, Linkage, HeldAt, Top, Size;
    AutomaticIff(nw, l.book.masks[j], HeldAt(l.held, j), range, serial);
    FreeWithinIs(l, k, 0, NumAddresses(nw));
    if range.Some? {
      FreeWithinIs(l, k, range.value.start, range.value.end + 1);
    }
  }

  /** Requests and releases on an unknown pool, or of an address outside the pool, are refused and change nothing. */
  lemma OutsideRefused(l: Ledger, k: SubnetKey, address: nat, serial: bool)
    requires LedgerOk(l) && (k !in l.book.table || !InPool(l, k, address))
    ensures Linkage(l.book.table)
    ensures
      var r := if k in l.book.table then OutOfRange else NotFound;
      && AskAddress(l.book, k, Some(address), serial) == (r, l.book)
      && GiveAddress(l.book, k, address) == (r, l.book)
      && (k !in l.book.table ==> AskAddress(l.book, k, None, serial) == (NotFound, l.book))
  {
    Linkages(l);
    if k in l.book.table {
      MasterMask(l, k);
      AlignedPool(l.book.table[k].pool);
    }
  }

  ghost predicate Freed(l: Ledger, l': Ledger, k: SubnetKey, i: nat)
    requires k in l.book.table
  {
    && LedgerOk(l') && l'.book.table == l.book.table && FreeAt(l', k, i)
    && l'.held == l.held - {(MasterOf(k), l.book.table[k].pool.ip + i)}
  }

  /** A legal release of an address of the pool, so of a held one with its own ordinal, is done, and makes it free. */
  lemma HeldReleased(l: Ledger, k: SubnetKey, i: nat)
    requires LedgerOk(l) && k in l.book.table && InPool(l, k, l.book.table[k].pool.ip + i)
    requires Legal(l, ReleaseAddress(k, l.book.table[k].pool.ip + i))
    ensures Linkage(l.book.table) && GiveAddress(l.book, k, l.book.table[k].pool.ip + i).0 == Released
    ensures Freed(l, Next(l, ReleaseAddress(k, l.book.table[k].pool.ip + i)), k, i)
  {
    hide LedgerOk, Marks, HeldAt, HostNumber, NumAddresses, Top, H.Unset;
    var nw, j, address := l.book.table[k].pool, MasterOf(k), l.book.table[k].pool.ip + i;
    ReleaseAddressKeeps(l, k, address);
    Linkages(l);
    MasterMask(l, k);
    AlignedPool(nw);
    HeldInside(l, k, i);
    hide WellFormed, Linkage, Holds, Size;
    HeldPair(l.held, j, address);
    ReleaseMarks(nw, l.book.masks[j], HeldAt(l.held, j), address);
    assert GiveAddress(l.book, k, address).0 == Released;
  }

  lemma HeldInside(l: Ledger, k: SubnetKey, i: nat)
    requires LedgerOk(l) && k in l.book.table && (MasterOf(k), l.book.table[k].pool.ip + i) in l.held
    ensures l.book.table[k].pool.ones <= l.book.table[k].pool.bits && 0 < i < Top(l.book.table[k].pool)
  {
    hide LedgerOk, HeldAt, NumAddresses, Top, H.WellFormed, H.Conserved, H.Taken;
    MasterMask(l, k);
    HeldPair(l.held, MasterOf(k), l.book.table[k].pool.ip + i);
  }

  lemma Linkages(l: Ledger)
    requires LedgerOk(l)
    ensures Linkage(l.book.table)
  {
  }

  lemma AlignedPool(nw: Cidr)
    requires WellFormed(nw)
    ensures nw.ones <= nw.bits && nw.ip % Size(nw) == 0
  {
  }

  lemma GrantedAddress(l: Ledger, k: SubnetKey, ip: nat, pref: Option<nat>)
    requires k in l.book.table && l.book.table[k].pool.ones <= l.book.table[k].pool.bits
    requires
      var nw := l.book.table[k].pool;
      && nw.ip % Size(nw) == 0 && ip !in HeldAt(l.held, MasterOf(k)) && nw.ip < ip < nw.ip + Top(nw)
      && (pref.Some? ==> Holds(nw, pref.value) && ip == nw.ip + HostNumber(nw, pref.value))
    ensures FreshAddress(l, k, ip) && (pref.Some? ==> AsPreferred(l.book.table[k].pool, ip, pref.value))
  {
    hide Size, Holds, HostNumber, Top;
    HoldsInterval(l.book.table[k].pool, ip);
    if pref.Some? {
      HoldsInterval(l.book.table[k].pool, pref.value);
    }
    HeldPair(l.held, MasterOf(k), ip);
  }

  lemma HeldPair(held: set<(SubnetKey, nat)>, j: SubnetKey, ip: nat)
    ensures (j, ip) in held <==> ip in HeldAt(held, j)
  {
    assert (j, ip).1 == ip;
  }

  lemma RequestAddressKeeps(l: Ledger, k: SubnetKey, pref: Option<nat>, serial: bool)
    requires LedgerOk(l) && Legal(l, RequestAddress(k, pref, serial))
    ensures LedgerOk(Next(l, RequestAddress(k, pref, serial)))
  {
    hide Marks, Counted, HeldAt, WellFormed, FreshAddress, GetAddress, MaskOf;
    if k in l.book.table {
      var l' := Next(l, RequestAddress(k, pref, serial));
      MasterMask(l, k);
      RequestAddressGrants(l, k, pref, serial);
      Linkages(l);
      hide AskAddress;
      var r := AskAddress(l.book, k, pref, serial).0;
      forall i | i in l'.book.table && i.child == "" ensures MaskOk(l', i) {
        assert MaskOk(l, i);
        if r.Address? {
          HeldAtAdd(l.held, MasterOf(k), r.ip, i);
        }
      }
    }
  }

  /** Releasing a held address clears its own mark exactly if its ordinal is exact. */
  lemma ReleaseMarks(nw: Cidr, m: H.Mask, held: set<nat>, address: nat)
    requires Marks(nw, m, held) && address in held && nw.ip % Size(nw) == 0
    ensures
      var (m', o) := H.Unset(m, HostNumber(nw, address));
      o.Done? && (Marks(nw, m', held - {address}) <==> Exact(nw, address))
  {
    hide H.WellFormed, H.Conserved, H.Taken, Size, Holds, HostNumber, NumAddresses;
    HoldsInterval(nw, address);
    var i, own: nat := HostNumber(nw, address), address % Size(nw);
    assert own == address - nw.ip;
    H.UnsetSpec(m, i);
    var m' := H.Unset(m, i).0;
    assert m'.bits == m.bits;
    if i != own {
      assert H.Taken(m', own);
    }
  }

  lemma ReleaseAddressKeeps(l: Ledger, k: SubnetKey, address: nat)
    requires LedgerOk(l) && Legal(l, ReleaseAddress(k, address))
    ensures LedgerOk(Next(l, ReleaseAddress(k, address)))
  {
    if k in l.book.table && InPool(l, k, address) {
      var l', j := Next(l, ReleaseAddress(k, address)), MasterOf(k);
      MasterMask(l, k);
      var nw, m := l.book.table[k].pool, l.book.masks[j];
      AlignedPool(nw);
      HeldPair(l.held, j, address);
      ReleaseMarks(nw, m, HeldAt(l.held, j), address);
      assert l'.book.masks == l.book.masks[j := H.Unset(m, HostNumber(nw, address)).0];
      assert l'.held == l.held - {(j, address)} && l'.book.table == l.book.table;
      hide *;
      forall i | i in l'.book.table && i.child == "" ensures MaskOk(l', i) {
        ReleasedMaskOk(l, l', j, address, i);
      }
      ReleasedOk(l, l');
    }
  }

  lemma ReleasedMaskOk(l: Ledger, l': Ledger, j: SubnetKey, address: nat, i: SubnetKey)
    requires LedgerOk(l) && j in l'.book.masks && j in l.book.table
    requires l'.book.table == l.book.table && l'.held == l.held - {(j, address)}
    requires l'.book.masks == l.book.masks[j := l'.book.masks[j]]
    requires Marks(l.book.table[j].pool, l'.book.masks[j], HeldAt(l.held, j) - {address})
    requires i in l.book.table && i.child == ""
    ensures MaskOk(l', i)
  {
    hide Marks, HeldAt, Counted;
    assert MaskOk(l, i);
    HeldAtDrop(l.held, j, address, i);
  }

  lemma ReleasedOk(l: Ledger, l': Ledger)
    requires LedgerOk(l) && l'.book.table == l.book.table && l'.granted == l.granted && l'.held <= l.held
    requires forall i :: i in l'.book.table && i.child == "" ==> MaskOk(l', i)
    ensures LedgerOk(l')
  {
    hide MaskOk, Counted;
  }

  // ----- whole runs -----------------------------------------------------------

  /** Every call keeps the ledger right. */
  lemma NextKeeps(l: Ledger, c: Call)
    requires LedgerOk(l) && Legal(l, c)
    ensures LedgerOk(Next(l, c))
  {
    match c
    case RequestPool(k, nw, ipr, pdf) => RequestPoolKeeps(l, k, nw, ipr, pdf);
    case ReleasePool(k) => ReleasePoolKeeps(l, k);
    case RequestAddress(k, pref, serial) => RequestAddressKeeps(l, k, pref, serial);
    case ReleaseAddress(k, address) => ReleaseAddressKeeps(l, k, address);
  }

  const EMPTY := Ledger(Book(map[], map[]), {}, {})

  ghost predicate Step(l: Ledger, c: Call, l': Ledger) {
    LedgerOk(l) ==> Legal(l, c) && l' == Next(l, c)
  }

  /** A run of legal calls from the empty allocator. */
  ghost predicate Run(cs: seq<Call>, ls: seq<Ledger>) {
    && |ls| == |cs| + 1
    && ls[0] == EMPTY
    && forall i: nat :: i < |cs| ==> Step(ls[i], cs[i], ls[i + 1])
  }

  /** In every reachable state the counts are exact and the bitmasks mark the held addresses. */
  lemma {:induction false} RunOk(cs: seq<Call>, ls: seq<Ledger>, n: nat)
    requires Run(cs, ls) && n < |ls|
    ensures LedgerOk(ls[n])
  {
    if n > 0 {
      RunOk(cs, ls, n - 1);
      hide LedgerOk, Legal, Next;
      assert Step(ls[n - 1], cs[n - 1], ls[n - 1 + 1]);
      NextKeeps(ls[n - 1], cs[n - 1]);
    }
  }

  /** In every reachable state a granted address is in the pool, off its edges and not held. */
  lemma AddressUnique(cs: seq<Call>, ls: seq<Ledger>, n: nat, k: SubnetKey, pref: Option<nat>, serial: bool)
    requires Run(cs, ls) && n < |ls|
    requires k in ls[n].book.table
    ensures LedgerOk(ls[n])
    ensures
      var l := ls[n];
      var r := AskAddress(l.book, k, pref, serial).0;
      r.Address? ==> FreshAddress(l, k, r.ip) && (pref.Some? ==> AsPreferred(l.book.table[k].pool, r.ip, pref.value))
  {
    hide LedgerOk, AskAddress, FreshAddress, AsPreferred, Run;
    RunOk(cs, ls, n);
    Linkages(ls[n]);
    RequestAddressGrants(ls[n], k, pref, serial);
  }

  /** While masters are disjoint, an address granted through one is not held through any other of its space. */
  lemma UniqueAcrossMasters(l: Ledger, k: SubnetKey, i: SubnetKey, ip: nat)
    requires LedgerOk(l) && DisjointMasters(l.book.table)
    requires k in l.book.table && FreshAddress(l, k, ip)
    requires i in l.book.table && i.child == "" && i.space == k.space
    requires l.book.table[i].pool.bits == l.book.table[k].pool.bits
    ensures (i, ip) !in l.held
  {
    hide Size, LedgerOk, Marks;
    var t, j := l.book.table, MasterOf(k);
    MasterMask(l, k);
    assert MasterAt(t, i.space, i) && MasterAt(t, i.space, j);
    if i != j && (i, ip) in l.held {
      HeldInPool(l, i, ip);
    }
  }

  lemma HeldInPool(l: Ledger, i: SubnetKey, ip: nat)
    requires LedgerOk(l) && i in l.book.table && i.child == ""
    requires (i, ip) in l.held
    ensures l.book.table[i].pool.ones <= l.book.table[i].pool.bits && Holds(l.book.table[i].pool, ip)
  {
    hide Size, Holds, NumAddresses;
    MasterMask(l, i);
    HeldPair(l.held, i, ip);
    AlignedPool(l.book.table[i].pool);
    HoldsInterval(l.book.table[i].pool, ip);
  }

  /** Grants of a sub-pool inside its master, without a preferred address, stay inside the sub-pool. */
  lemma GrantInSubPool(l: Ledger, k: SubnetKey, sub: Cidr, serial: bool)
    requires LedgerOk(l) && k in l.book.table && WellFormed(sub) && InPool(l, k, sub.ip)
    requires
      var nw := l.book.table[k].pool;
      && nw.bits == sub.bits && nw.ones <= sub.ones
      && Exact(nw, sub.ip) && Exact(nw, sub.ip + Size(sub) - 1)
      && l.book.table[k].range.Some? && l.book.table[k].range == RangeOf(sub, nw)
    ensures
      var r := AskAddress(l.book, k, None, serial).0;
      r.Address? ==> Holds(sub, r.ip)
  {
    hide Marks, LedgerOk, Linkage;
    MasterMask(l, k);
    Linkages(l);
    var t, j := l.book.table, MasterOf(k);
    var nw, m := t[k].pool, l.book.masks[j];
    AlignedPool(nw);
    AlignedPool(sub);
    hide WellFormed, GetAddress, Size, Holds, HeldAt, RangeOf, HostNumber, NumAddresses, Top;
    GetAddressGrants(nw, m, HeldAt(l.held, j), None, t[k].range, serial);
    RangeInside(sub, nw);
    SubRange(nw, sub);
    var r := GetAddress(m, nw, None, t[k].range, serial).1;
    assert AskAddress(l.book, k, None, serial).0 == r;
    if r.Address? {
      HoldsInterval(sub, r.ip);
    }
  }

  /** The range of a sub-pool inside its master starts at the sub-pool's first address and ends at its last. */
  lemma SubRange(nw: Cidr, sub: Cidr)
    requires nw.bits == sub.bits && nw.ones <= sub.ones <= sub.bits
    requires nw.ip % Size(nw) == 0 && sub.ip % Size(sub) == 0 && Holds(nw, sub.ip)
    ensures sub.ip % Size(nw) == sub.ip - nw.ip
    ensures (sub.ip + Size(sub) - 1) % Size(nw) == sub.ip + Size(sub) - 1 - nw.ip
  {
    hide Size, Holds;
    var last := sub.ip + Size(sub) - 1;
    HoldsInterval(sub, last);
    SmallerBlock(nw, sub, last);
    HoldsInterval(nw, sub.ip);
    HoldsInterval(nw, last);
  }
}
