/** The address space object: pools kept in a map and updated in place. */
module AddressSpaces {
  import opened Bitmaps
  import opened Cidrs
  import opened Subnets
  import opened Pools

  class AddrSpace {
    var subnets: PoolTable

    constructor ()
      ensures subnets == map[]
    {
      subnets := map[];
    }

    /** Whether a network overlaps a master pool of the space. */
    method Contains(space: string, nw: Cidr) returns (b: bool)
      requires Linkage(subnets) && WellFormed(nw)
      ensures b == Overlaps(subnets, space, nw)
    {
      hide WellFormed, Intersect, Clash;
      var keys := subnets.Keys;
      while keys != {}
        invariant keys <= subnets.Keys
        invariant forall j :: MasterAt(subnets, space, j) && j !in keys ==> !Intersect(nw, subnets[j].pool)
        decreases |keys|
      {
        var k :| k in keys;
        keys := keys - {k};
        assert Linked(subnets, k);
        if k.space == space && k.child == "" {
          ClashIffIntersect(nw, subnets[k].pool);
          NetworkLengths(nw);
          NetworkLengths(subnets[k].pool);
          if Clash(nw, subnets[k].pool) {
            assert MasterAt(subnets, space, k);
            return true;
          }
        }
      }
      return false;
    }

    /** Adds `delta` to the counts of a pool and of every pool above it. */
    method IncRefCount(k: SubnetKey, delta: int)
      requires Linkage(subnets) && k in subnets && MasterOf(k) in subnets
      modifies this
      ensures subnets == BumpPath(old(subnets), k, delta)
      ensures Linkage(subnets)
    {
      hide WellFormed;
      var c, ok := k, true;
      while ok
        invariant Linkage(subnets) && subnets.Keys == old(subnets.Keys)
        invariant ok ==> c in subnets && (c == k || c == MasterOf(k) != k)
        invariant subnets ==
          if !ok then BumpPath(old(subnets), k, delta)
          else if c == k then old(subnets)
          else Bump(old(subnets), k, delta)
        decreases ok, c.child != ""
      {
        assert Linked(subnets, c);
        subnets := subnets[c := subnets[c].(refCount := subnets[c].refCount + delta)];
        assert forall j :: j in subnets ==> Linked(old(subnets), j);
        c := subnets[c].parent;
        ok := c in subnets;
        assert ok ==> Linked(subnets, c);
      }
    }

    /** Adds a pool, and its master when that is absent. */
    method UpdatePoolDBOnAdd(k: SubnetKey, nw: Cidr, ipr: Option<Range>, pdf: bool) returns (r: AddResult)
      requires Linkage(subnets) && Request(k, nw, ipr)
      modifies this
      ensures (r, subnets) == AddPool(old(subnets), k, nw, ipr, pdf)
      ensures Linkage(subnets)
    {
      hide WellFormed, Overlaps;
      if k in subnets {
        return if pdf then Reserved else Overlapping;
      }
      if ipr.None? {
        var overlap := Contains(k.space, nw);
        if overlap {
          return Overlapping;
        }
        subnets := subnets[k := PoolData(NO_KEY, nw, None, 1)];
        assert forall j :: j in subnets && j != k ==> Linked(old(subnets), j);
        return Added(Some(k));
      }
      var parent := SubnetKey(k.space, k.subnet, "");
      subnets := subnets[k := PoolData(parent, nw, ipr, 1)];
      if parent in subnets {
        assert forall j :: j in subnets && j != k ==> Linked(old(subnets), j);
        IncRefCount(parent, 1);
        return Added(None);
      }
      subnets := subnets[parent := PoolData(NO_KEY, nw, None, 1)];
      assert forall j :: j in subnets && j != k && j != parent ==> Linked(old(subnets), j);
      return Added(Some(parent));
    }

    /** Releases a pool, removing it and its master as their counts reach zero. */
    method UpdatePoolDBOnRemoval(k0: SubnetKey) returns (r: RemoveResult)
      requires Linkage(subnets)
      modifies this
      ensures (r, subnets) == RemovePool(old(subnets), k0)
    {
      hide WellFormed;
      if k0 !in subnets {
        return BadPool;
      }
      assert Linked(subnets, k0);
      IncRefCount(k0, -1);
      ghost var dropped := subnets;
      assert Linked(dropped, k0) && Linked(dropped, MasterOf(k0));
      var k, ok := k0, true;
      while ok
        invariant ok ==> k in subnets && (k == k0 || k == MasterOf(k0) != k0)
        invariant subnets ==
          if !ok then Prune(Prune(dropped, k0), MasterOf(k0))
          else if k == k0 then dropped
          else Prune(dropped, k0)
        invariant !ok ==> dropped[MasterOf(k0)].refCount != 0
        decreases ok, k.child != ""
      {
        var c := subnets[k];
        if c.refCount == 0 {
          subnets := subnets - {k};
          if c.range.None? {
            return Removed(Some(k));
          }
        }
        k := c.parent;
        ok := k in subnets;
      }
      return Removed(None);
    }
  }

  lemma NetworkLengths(nw: Cidr)
    requires WellFormed(nw)
    ensures nw.ones <= nw.bits
  {
  }
}
