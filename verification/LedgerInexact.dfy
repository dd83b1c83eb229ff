/** A run of the allocator after which a held IPv6 address cannot be released: its release frees the network address. */
module InexactRelease {
  import opened Bitmaps
  import opened Cidrs
  import opened Subnets
  import opened Pools
  import opened Allocation
  import opened Ledgers
  import H = Handles

  lemma FreeCounts(m: H.Mask, i: nat)
    requires H.Conserved(m) && i < m.bits && !H.Taken(m, i)
    ensures m.unselected != 0
  {
    ClearCountZero(H.BitsOf(m), m.bits);
  }

  /** A range of one free ordinal grants that ordinal, and the serial position moves past it. */
  lemma GrantsOnly(m: H.Mask, i: nat, serial: bool)
    requires H.WellFormed(m) && H.Conserved(m) && i < m.bits && !H.Taken(m, i)
    ensures
      var (m', o) := H.SetAnyInRange(m, i, i, serial);
      o == H.Granted(i) && m'.curr == i + 1
  {
    hide H.WellFormed, H.Conserved, H.Taken, H.SetAnyIn;
    FreeCounts(m, i);
    H.SetAnyInSpec(m, i, i, serial);
  }

  /** A serial request grants the ordinal at the serial position if it is free. */
  lemma GrantsCurrent(m: H.Mask, i: nat)
    requires H.WellFormed(m) && H.Conserved(m) && 0 < i == m.curr < m.bits && !H.Taken(m, i)
    ensures H.SetAny(m, true).1 == H.Granted(i)
  {
    FreeCounts(m, i);
    H.WellFormedSize(m);
    FirstClearIs(H.BitsOf(m), i, i);
  }

  const LAST_BEFORE: nat := 0xfffe_ffff_ffff

  /** The pool is new, with a sub-pool of one address. */
  ghost predicate Opened(l: Ledger, k: SubnetKey, nw: Cidr) {
    var j := MasterOf(k);
    && k in l.book.table && j in l.book.table && j in l.book.masks
    && l.book.table[k].pool == l.book.table[j].pool == nw
    && l.book.table[k].range == Some(Range(LAST_BEFORE, LAST_BEFORE)) && l.book.table[j].range == None
  }

  lemma Opening(k: SubnetKey, nw: Cidr)
    requires WellFormed(nw) && k.space != "" && k.subnet == Some(nw) && k.child != ""
    ensures
      var c := RequestPool(k, nw, Some(Range(LAST_BEFORE, LAST_BEFORE)), false);
      && LedgerOk(EMPTY) && Legal(EMPTY, c)
      && Opened(Next(EMPTY, c), k, nw) && Next(EMPTY, c).held == {}
  {
    hide WellFormed, NewMask;
  }

  /** A sub-pool request, then a serial one on its master, at the ordinals next to each other. */
  lemma Grants(l: Ledger, k: SubnetKey, nw: Cidr)
    requires LedgerOk(l) && Opened(l, k, nw) && l.held == {} && nw.bits == 128 && nw.ones <= 64
    ensures
      var j := MasterOf(k);
      var l1 := Next(l, RequestAddress(k, None, false));
      && LedgerOk(l1) && LedgerOk(Next(l1, RequestAddress(j, None, true)))
      && j in l.book.table && l.book.table[j].pool == nw
      && Next(l1, RequestAddress(j, None, true)).book.table == l.book.table
      && (j, nw.ip + LAST_BEFORE + 1) in Next(l1, RequestAddress(j, None, true)).held
  {
    hide LedgerOk, Marks, GetAddress, H.SetAny, H.SetAnyInRange, HeldAt, WellFormed;
    var j := MasterOf(k);
    FirstGrant(l, k, nw);
    NextKeeps(l, RequestAddress(k, None, false));
    var l1 := Next(l, RequestAddress(k, None, false));
    SecondGrant(l1, k, nw);
    NextKeeps(l1, RequestAddress(j, None, true));
  }

  lemma BigPool(nw: Cidr)
    requires nw.bits == 128 && nw.ones <= 64
    ensures NumAddresses(nw) == Top(nw) == U64_LIMIT - 1
  {
  }

  /** An ordinal that is not held is free in the bitmask. */
  lemma NotHeldFree(l: Ledger, k: SubnetKey, nw: Cidr, i: nat)
    requires LedgerOk(l) && Opened(l, k, nw) && nw.bits == 128 && nw.ones <= 64
    requires 0 < i < U64_LIMIT - 1 && (MasterOf(k), nw.ip + i) !in l.held
    ensures
      var m := l.book.masks[MasterOf(k)];
      H.WellFormed(m) && H.Conserved(m) && i < m.bits && !H.Taken(m, i) && m.unselected != 0
  {
    hide LedgerOk, H.WellFormed, H.Conserved, H.Taken, WellFormed, NumAddresses;
    MasterMask(l, k);
    BigPool(nw);
    HeldPair(l.held, MasterOf(k), nw.ip + i);
    FreeCounts(l.book.masks[MasterOf(k)], i);
  }

  lemma FirstGrant(l: Ledger, k: SubnetKey, nw: Cidr)
    requires LedgerOk(l) && Opened(l, k, nw) && l.held == {} && nw.bits == 128 && nw.ones <= 64
    ensures
      var j, l1 := MasterOf(k), Next(l, RequestAddress(k, None, false));
      && Opened(l1, k, nw) && l1.book.table == l.book.table
      && l1.held == {(j, nw.ip + LAST_BEFORE)} && l1.book.masks[j].curr == LAST_BEFORE + 1
  {
    hide LedgerOk, H.WellFormed, H.Conserved, H.Taken, H.SetAnyInRange, Linkage;
    Linkages(l);
    NotHeldFree(l, k, nw, LAST_BEFORE);
    GrantsOnly(l.book.masks[MasterOf(k)], LAST_BEFORE, false);
    assert AskAddress(l.book, k, None, false).0 == Address(nw.ip + LAST_BEFORE);
  }

  lemma SecondGrant(l: Ledger, k: SubnetKey, nw: Cidr)
    requires LedgerOk(l) && Opened(l, k, nw) && nw.bits == 128 && nw.ones <= 64
    requires l.held == {(MasterOf(k), nw.ip + LAST_BEFORE)} && l.book.masks[MasterOf(k)].curr == LAST_BEFORE + 1
    ensures
      var j := MasterOf(k);
      var l1 := Next(l, RequestAddress(j, None, true));
      l1.book.table == l.book.table && (j, nw.ip + LAST_BEFORE + 1) in l1.held
  {
    hide LedgerOk, H.WellFormed, H.Conserved, H.Taken, H.SetAny, Linkage;
    Linkages(l);
    NotHeldFree(l, k, nw, LAST_BEFORE + 1);
    GrantsCurrent(l.book.masks[MasterOf(k)], LAST_BEFORE + 1);
    assert AskAddress(l.book, MasterOf(k), None, true).0 == Address(nw.ip + LAST_BEFORE + 1);
  }

  /** Releasing the address with ordinal `own` frees the network address, and keeps its own mark. */
  ghost predicate FreesNetwork(b: Book, j: SubnetKey, nw: Cidr, own: nat) {
    && Linkage(b.table)
    && var (r, b') := GiveAddress(b, j, nw.ip + own);
    r == Released && j in b'.masks && !H.Taken(b'.masks[j], 0) && H.Taken(b'.masks[j], own)
  }

  lemma ReleaseFreesNetwork(l: Ledger, j: SubnetKey, nw: Cidr, own: nat)
    requires LedgerOk(l) && j in l.book.table && j.child == "" && l.book.table[j].pool == nw
    requires (j, nw.ip + own) in l.held && nw.ones <= nw.bits && HostNumber(nw, nw.ip + own) == 0
    ensures FreesNetwork(l.book, j, nw, own)
  {
    hide LedgerOk, H.WellFormed, H.Conserved, H.Taken, H.Unset, NumAddresses, HostNumber, Size, Holds, Linkage;
    MasterMask(l, j);
    Linkages(l);
    HeldPair(l.held, j, nw.ip + own);
    AlignedPool(nw);
    HoldsInterval(nw, nw.ip + own);
    var m := l.book.masks[j];
    assert H.Taken(m, own);
    ReleaseMarks(nw, m, HeldAt(l.held, j), nw.ip + own);
    H.UnsetSpec(m, 0);
  }

  /**
   In any IPv6 pool of 64 host digits or more: a sub-pool of one address, a grant from it, and a serial grant from
   the master. The second address is held, its ordinal is not exact, and releasing it frees the network address.
   */
  lemma InexactHeld(k: SubnetKey, nw: Cidr) returns (cs: seq<Call>, ls: seq<Ledger>)
    requires WellFormed(nw) && nw.bits == 128 && nw.ones <= 64
    requires k.space != "" && k.subnet == Some(nw) && k.child != ""
    ensures Ledgers.Run(cs, ls)
    ensures (MasterOf(k), nw.ip + LAST_BEFORE + 1) in ls[|cs|].held && !Exact(nw, nw.ip + LAST_BEFORE + 1)
    ensures FreesNetwork(ls[|cs|].book, MasterOf(k), nw, LAST_BEFORE + 1)
  {
    hide LedgerOk, WellFormed, Next, FreesNetwork, HostNumber, Size, Exact, Opened;
    var j, pool := MasterOf(k), RequestPool(k, nw, Some(Range(LAST_BEFORE, LAST_BEFORE)), false);
    Opening(k, nw);
    NextKeeps(EMPTY, pool);
    var l1 := Next(EMPTY, pool);
    Grants(l1, k, nw);
    var l2 := Next(l1, RequestAddress(k, None, false));
    var l3 := Next(l2, RequestAddress(j, None, true));
    cs, ls := [pool, RequestAddress(k, None, false), RequestAddress(j, None, true)], [EMPTY, l1, l2, l3];
    assert Ledgers.Step(EMPTY, pool, l1) && Ledgers.Step(l1, cs[1], l2) && Ledgers.Step(l2, cs[2], l3);
    hide *;
    CutToZero(nw);
    ReleaseFreesNetwork(l3, j, nw, LAST_BEFORE + 1);
  }

  lemma CutToZero(nw: Cidr)
    requires WellFormed(nw) && nw.bits == 128 && nw.ones <= 64
    ensures nw.ones <= nw.bits && HostNumber(nw, nw.ip + LAST_BEFORE + 1) == 0 && !Exact(nw, nw.ip + LAST_BEFORE + 1)
  {
    hide WellFormed, HostNumber, Exact;
    assert LAST_BEFORE + 1 == 0xffff * U32_LIMIT;
    MappedOrdinal(nw, 0);
  }
}
