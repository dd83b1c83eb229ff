/** Reference-counted master pools and sub-pools of an address space, as values. */
module Pools {
  import opened Bytes
  import opened Blocks
  import opened Bitmaps
  import opened Addresses
  import opened Cidrs
  import opened Subnets

  /** A master pool has an empty child; the key with no subnet is the parent of masters. */
  datatype SubnetKey = SubnetKey(space: string, subnet: Option<Cidr>, child: string)

  const NO_KEY := SubnetKey("", None, "")

  datatype PoolData = PoolData(parent: SubnetKey, pool: Cidr, range: Option<Range>, refCount: int)

  type PoolTable = map<SubnetKey, PoolData>

  function MasterOf(k: SubnetKey): (p: SubnetKey) {
    k.(child := "")
  }

  /** What parsing a pool request guarantees. */
  ghost predicate Request(k: SubnetKey, nw: Cidr, ipr: Option<Range>) {
    && k.space != ""
    && k.subnet == Some(nw)
    && WellFormed(nw)
    && (ipr.None? <==> k.child == "")
  }

  datatype AddResult = Added(inserts: Option<SubnetKey>) | Overlapping | Reserved

  datatype RemoveResult = Removed(destroys: Option<SubnetKey>) | BadPool

  // ----- overlap --------------------------------------------------------------

  predicate Clash(a: Cidr, b: Cidr)
    requires a.ones <= a.bits && b.ones <= b.bits
  {
    ContainsIp(a, IpBytes(b)) || ContainsIp(b, IpBytes(a))
  }

  /** The containment test of two networks decides whether they share an address. */
  lemma ClashIffIntersect(a: Cidr, b: Cidr)
    requires WellFormed(a) && WellFormed(b)
    ensures Clash(a, b) <==> Intersect(a, b)
  {
    hide Holds, Pow2, Pow256, Mapped, PutBE;
    GetPutBE(a.ip, a.bits / 8);
    GetPutBE(b.ip, b.bits / 8);
    if a.bits == b.bits {
      IntersectIffContains(a, b);
    }
  }

  ghost predicate MasterAt(m: PoolTable, space: string, j: SubnetKey) {
    j in m && j.space == space && j.child == ""
  }

  ghost predicate Overlaps(m: PoolTable, space: string, nw: Cidr) {
    exists j :: MasterAt(m, space, j) && Intersect(nw, m[j].pool)
  }

  // ----- operations -----------------------------------------------------------

  function Bump(m: PoolTable, k: SubnetKey, delta: int): (r: PoolTable)
    requires k in m
  {
    m[k := m[k].(refCount := m[k].refCount + delta)]
  }

  /** Adds `delta` to a pool and to its master. */
  function BumpPath(m: PoolTable, k: SubnetKey, delta: int): (r: PoolTable)
    requires k in m && MasterOf(k) in m
  {
    if k.child == "" then Bump(m, k, delta) else Bump(Bump(m, k, delta), MasterOf(k), delta)
  }

  ghost function AddPool(m: PoolTable, k: SubnetKey, nw: Cidr, ipr: Option<Range>, pdf: bool)
    : (r: (AddResult, PoolTable))
  {
    if k in m then
      (if pdf then Reserved else Overlapping, m)
    else if ipr.None? then
      if Overlaps(m, k.space, nw) then (Overlapping, m)
      else (Added(Some(k)), m[k := PoolData(NO_KEY, nw, None, 1)])
    else
      var p := MasterOf(k);
      var added := m[k := PoolData(p, nw, ipr, 1)];
      if p in added then (Added(None), Bump(added, p, 1))
      else (Added(Some(p)), added[p := PoolData(NO_KEY, nw, None, 1)])
  }

  function Prune(m: PoolTable, k: SubnetKey): (r: PoolTable) {
    if k in m && m[k].refCount == 0 then m - {k} else m
  }

  ghost function RemovePool(m: PoolTable, k: SubnetKey): (r: (RemoveResult, PoolTable)) {
    if k !in m || MasterOf(k) !in m then (BadPool, m)
    else
      var p := MasterOf(k);
      var dropped := BumpPath(m, k, -1);
      (Removed(if dropped[p].refCount == 0 then Some(p) else None), Prune(Prune(dropped, k), p))
  }

  // ----- reference counts -----------------------------------------------------

  /** The live grants a master stands for: itself if granted, and its sub-pools. */
  function Grants(granted: set<SubnetKey>, j: SubnetKey): (gs: set<SubnetKey>) {
    set g | g in granted && MasterOf(g) == j
  }

  /** Sub-pools hang below a present master, which ends every parent walk. */
  ghost predicate Linked(m: PoolTable, k: SubnetKey)
    requires k in m
  {
    && k.space != ""
    && k.subnet == Some(m[k].pool)
    && WellFormed(m[k].pool)
    && (m[k].range.None? <==> k.child == "")
    && m[k].parent == (if k.child == "" then NO_KEY else MasterOf(k))
    && MasterOf(k) in m
  }

  ghost predicate Linkage(m: PoolTable) {
    forall k :: k in m ==> Linked(m, k)
  }

  ghost predicate CountOk(m: PoolTable, granted: set<SubnetKey>, k: SubnetKey)
    requires k in m
  {
    if k.child == "" then m[k].refCount == |Grants(granted, k)| > 0
    else k in granted && m[k].refCount == 1
  }

  ghost predicate Counted(m: PoolTable, granted: set<SubnetKey>) {
    && Linkage(m)
    && granted <= m.Keys
    && forall k :: k in m ==> CountOk(m, granted, k)
  }

  lemma GrantsAdd(granted: set<SubnetKey>, k: SubnetKey, j: SubnetKey)
    requires k !in granted
    ensures Grants(granted + {k}, j) == if MasterOf(k) == j then Grants(granted, j) + {k} else Grants(granted, j)
    ensures |Grants(granted + {k}, j)| == |Grants(granted, j)| + if MasterOf(k) == j then 1 else 0
  {
    assert Grants(granted + {k}, j) == if MasterOf(k) == j then Grants(granted, j) + {k} else Grants(granted, j);
  }

  lemma GrantsDrop(granted: set<SubnetKey>, k: SubnetKey, j: SubnetKey)
    requires k in granted
    ensures |Grants(granted - {k}, j)| == |Grants(granted, j)| - if MasterOf(k) == j then 1 else 0
  {
    GrantsAdd(granted - {k}, k, j);
    assert granted - {k} + {k} == granted;
  }

  /** A master's count is its live sub-pools, plus one while it is itself granted. */
  lemma CountIsSubPools(m: PoolTable, granted: set<SubnetKey>, j: SubnetKey)
    requires Counted(m, granted) && j in m && j.child == ""
    ensures m[j].refCount == |SubPools(m, j)| + if j in granted then 1 else 0
  {
    assert CountOk(m, granted, j);
    var subs := SubPools(m, j);
    assert forall k :: k in subs ==> CountOk(m, granted, k);
    assert Grants(granted, j) == subs + if j in granted then {j} else {};
  }

  function SubPools(m: PoolTable, j: SubnetKey): (ks: set<SubnetKey>) {
    set k | k in m && k.child != "" && MasterOf(k) == j
  }

  /** A granted request touches the new pool and its master only. */
  ghost predicate AddedTo(m: PoolTable, m': PoolTable, k: SubnetKey, nw: Cidr, ipr: Option<Range>) {
    var p := MasterOf(k);
    && k !in m && k in m' && p in m'
    && m'.Keys == m.Keys + {k, p}
    && (forall j :: j in m && j != p ==> m'[j] == m[j])
    && m'[p] == (if p in m then m[p].(refCount := m[p].refCount + 1) else PoolData(NO_KEY, nw, None, 1))
    && (k != p ==> m'[k] == PoolData(p, nw, ipr, 1))
  }

  lemma AddOutcome(m: PoolTable, k: SubnetKey, nw: Cidr, ipr: Option<Range>, pdf: bool)
    requires Request(k, nw, ipr)
    ensures
      var (r, m') := AddPool(m, k, nw, ipr, pdf);
      if r.Added? then
        AddedTo(m, m', k, nw, ipr) && r.inserts == (if MasterOf(k) in m then None else Some(MasterOf(k)))
      else m' == m
  {
  }

  /**
   A request is granted exactly if its key is new and, for a master, no master of the space shares an address
   with it; a key that is taken is reserved if it was a default pick.
   */
  lemma AddPoolIff(m: PoolTable, k: SubnetKey, nw: Cidr, ipr: Option<Range>, pdf: bool)
    ensures
      var r := AddPool(m, k, nw, ipr, pdf).0;
      && (r.Added? <==> k !in m && (ipr.Some? || forall j :: MasterAt(m, k.space, j) ==> !Intersect(nw, m[j].pool)))
      && (r.Reserved? <==> k in m && pdf)
  {
  }

  /** A release is done exactly if the pool is there. */
  lemma RemovePoolIff(m: PoolTable, k: SubnetKey)
    requires Linkage(m)
    ensures
      var (r, m') := RemovePool(m, k);
      (r.Removed? <==> k in m) && (!r.Removed? ==> m' == m)
  {
    if k in m {
      assert Linked(m, k);
    }
  }

  /** A granted request keeps the counts; a refused one changes nothing. */
  lemma AddKeepsCounts(m: PoolTable, granted: set<SubnetKey>, k: SubnetKey, nw: Cidr, ipr: Option<Range>, pdf: bool)
    requires Counted(m, granted) && Request(k, nw, ipr)
    ensures
      var (r, m') := AddPool(m, k, nw, ipr, pdf);
      if r.Added? then k !in m && Counted(m', granted + {k}) && (r.inserts.Some? <==> MasterOf(k) !in m)
      else m' == m
  {
    hide AddPool;
    AddOutcome(m, k, nw, ipr, pdf);
    var (r, m') := AddPool(m, k, nw, ipr, pdf);
    if r.Added? {
      forall j | j in m' ensures Linked(m', j) && CountOk(m', granted + {k}, j) {
        AddedKeeps(m, m', granted, k, nw, ipr, j);
      }
    }
  }

  lemma AddedKeeps(
    m: PoolTable, m': PoolTable, granted: set<SubnetKey>, k: SubnetKey, nw: Cidr, ipr: Option<Range>, j: SubnetKey)
    requires Counted(m, granted) && Request(k, nw, ipr)
    requires AddedTo(m, m', k, nw, ipr) && j in m'
    ensures Linked(m', j) && CountOk(m', granted + {k}, j)
  {
    hide WellFormed, Grants;
    GrantsAdd(granted, k, j);
    if j in m {
      assert Linked(m, j) && CountOk(m, granted, j);
    } else {
      NoGrants(m, granted, j);
    }
  }

  lemma NoGrants(m: PoolTable, granted: set<SubnetKey>, j: SubnetKey)
    requires Counted(m, granted) && j !in m
    ensures Grants(granted, j) == {}
  {
    forall g | g in granted ensures MasterOf(g) != j {
      assert Linked(m, g);
    }
  }

  /**
   Releasing a grant removes the sub-pool, and takes one from the master's count.
   The master goes, and its bitmask is destroyed, exactly with the last grant.
   */
  lemma RemovedTable(m: PoolTable, granted: set<SubnetKey>, k: SubnetKey)
    requires Counted(m, granted) && k in granted
    ensures
      var (r, m') := RemovePool(m, k);
      var p, left := MasterOf(k), Grants(granted - {k}, MasterOf(k));
      && r == Removed(if left == {} then Some(p) else None)
      && (forall j :: j in m' <==> j in m && (j == p ==> left != {}) && (j == k ==> j == p))
      && (forall j :: j in m' && j != p ==> m'[j] == m[j])
      && (p in m' ==> m'[p] == m[p].(refCount := |left|))
  {
    hide Grants, WellFormed;
    var p := MasterOf(k);
    assert Linked(m, k) && CountOk(m, granted, k) && CountOk(m, granted, p);
    GrantsDrop(granted, k, p);
  }

  /** Releasing a present pool keeps the counts exactly when it was granted and not yet released. */
  lemma RemoveKeepsCounts(m: PoolTable, granted: set<SubnetKey>, k: SubnetKey)
    requires Counted(m, granted) && k in m
    ensures Counted(RemovePool(m, k).1, granted - {k}) <==> k in granted
  {
    if k in granted {
      RemoveGranted(m, granted, k);
    } else {
      RemoveUngranted(m, granted, k);
    }
  }

  lemma RemoveGranted(m: PoolTable, granted: set<SubnetKey>, k: SubnetKey)
    requires Counted(m, granted) && k in granted
    ensures Counted(RemovePool(m, k).1, granted - {k})
  {
    hide WellFormed, RemovePool;
    var m', g', p := RemovePool(m, k).1, granted - {k}, MasterOf(k);
    RemovedTable(m, granted, k);
    forall j | j in m' ensures Linked(m', j) && CountOk(m', g', j) {
      assert Linked(m, j) && CountOk(m, granted, j);
      GrantsDrop(granted, k, j);
      if j.child != "" && MasterOf(j) == p {
        assert j in Grants(g', p);
      }
    }
    forall g | g in g' ensures g in m' {
      assert g in Grants(g', MasterOf(g));
    }
  }

  /** Only a master can be present and not granted; a release of it loses a sub-pool's count. */
  lemma RemoveUngranted(m: PoolTable, granted: set<SubnetKey>, k: SubnetKey)
    requires Counted(m, granted) && k in m && k !in granted
    ensures !Counted(RemovePool(m, k).1, granted - {k})
  {
    var m' := RemovePool(m, k).1;
    assert Linked(m, k) && CountOk(m, granted, k);
    assert granted - {k} == granted;
    var g :| g in Grants(granted, k);
    assert k in m' ==> m'[k].refCount != |Grants(granted, k)|;
    assert g in m' && k !in m' ==> !Linked(m', g);
  }

  // ----- disjoint masters -----------------------------------------------------

  ghost predicate DisjointMasters(m: PoolTable) {
    forall i: SubnetKey, j: SubnetKey ::
      MasterAt(m, i.space, i) && MasterAt(m, i.space, j) && i != j ==> !Intersect(m[i].pool, m[j].pool)
  }

  /** A sub-pool request that creates its master skips the overlap check. */
  ghost predicate SkipsCheck(m: PoolTable, k: SubnetKey, nw: Cidr, ipr: Option<Range>) {
    ipr.Some? && MasterOf(k) !in m && Overlaps(m, k.space, nw)
  }

  /** A granted request keeps the masters disjoint exactly when it does not create an overlapping master. */
  lemma AddKeepsDisjoint(m: PoolTable, k: SubnetKey, nw: Cidr, ipr: Option<Range>, pdf: bool)
    requires Request(k, nw, ipr) && DisjointMasters(m) && AddPool(m, k, nw, ipr, pdf).0.Added?
    ensures DisjointMasters(AddPool(m, k, nw, ipr, pdf).1) <==> !SkipsCheck(m, k, nw, ipr)
  {
    var m', p := AddPool(m, k, nw, ipr, pdf).1, MasterOf(k);
    AddOutcome(m, k, nw, ipr, pdf);
    assert ipr.None? ==> !Overlaps(m, k.space, nw);
    hide AddPool;
    if SkipsCheck(m, k, nw, ipr) {
      var j :| MasterAt(m, k.space, j) && Intersect(nw, m[j].pool);
      assert MasterAt(m', p.space, p) && MasterAt(m', p.space, j) && Intersect(m'[p].pool, m'[j].pool);
    } else {
      AddedDisjoint(m, m', k, nw, ipr);
    }
  }

  lemma AddedDisjoint(m: PoolTable, m': PoolTable, k: SubnetKey, nw: Cidr, ipr: Option<Range>)
    requires Request(k, nw, ipr) && DisjointMasters(m) && AddedTo(m, m', k, nw, ipr)
    requires MasterOf(k) in m || !Overlaps(m, k.space, nw)
    ensures DisjointMasters(m')
  {
    hide Intersect, WellFormed;
    var p := MasterOf(k);
    forall i: SubnetKey, j: SubnetKey | MasterAt(m', i.space, i) && MasterAt(m', i.space, j) && i != j
      ensures !Intersect(m'[i].pool, m'[j].pool)
    {
      IntersectSymmetric(m'[i].pool, m'[j].pool);
      if p !in m && (i == p || j == p) {
        var o := if i == p then j else i;
        assert MasterAt(m, k.space, o);
      } else {
        assert MasterAt(m, i.space, i) && MasterAt(m, i.space, j);
      }
    }
  }

  lemma IntersectSymmetric(a: Cidr, b: Cidr)
    ensures Intersect(a, b) <==> Intersect(b, a)
  {
  }

  /** Removal never adds a master or changes a pool. */
  lemma RemoveKeepsDisjoint(m: PoolTable, k: SubnetKey)
    requires DisjointMasters(m)
    ensures DisjointMasters(RemovePool(m, k).1)
  {
    hide Intersect;
    var m' := RemovePool(m, k).1;
    assert forall j :: j in m' ==> j in m && m'[j].pool == m[j].pool;
    hide RemovePool;
    forall i: SubnetKey, j: SubnetKey | MasterAt(m', i.space, i) && MasterAt(m', i.space, j) && i != j
      ensures !Intersect(m'[i].pool, m'[j].pool)
    {
      assert MasterAt(m, i.space, i) && MasterAt(m, i.space, j);
    }
  }

  /** Two overlapping masters: a sub-pool of 10.0.0.0/9 requested while only 10.0.0.0/8 is present. */
  lemma OverlappingMasters()
    ensures
      var wide, narrow := Cidr(0x0a00_0000, 8, 32), Cidr(0x0a00_0000, 9, 32);
      var m := map[SubnetKey("LocalDefault", Some(wide), "") := PoolData(NO_KEY, wide, None, 1)];
      var k := SubnetKey("LocalDefault", Some(narrow), "10.0.0.0/24");
      var (r, m') := AddPool(m, k, narrow, Some(Range(0, 255)), false);
      Request(k, narrow, Some(Range(0, 255))) && DisjointMasters(m) && r.Added? && !DisjointMasters(m')
  {
    var wide, narrow := Cidr(0x0a00_0000, 8, 32), Cidr(0x0a00_0000, 9, 32);
    var j := SubnetKey("LocalDefault", Some(wide), "");
    var m: PoolTable := map[j := PoolData(NO_KEY, wide, None, 1)];
    var k := SubnetKey("LocalDefault", Some(narrow), "10.0.0.0/24");
    PowersOfTwo();
    assert Pow256(4) == 0x1_0000_0000;
    assert Size(wide) == 0x100_0000 && Size(narrow) == 0x80_0000;
    assert Holds(narrow, 0x0a00_0000) && Holds(wide, 0x0a00_0000);
    assert MasterAt(m, "LocalDefault", j) && Intersect(narrow, m[j].pool);
    AddKeepsDisjoint(m, k, narrow, Some(Range(0, 255)), false);
  }

  lemma PowersOfTwo()
    ensures Pow2(24) == 0x100_0000 && Pow2(23) == 0x80_0000
  {
    assert Pow2(8) == 256;
    assert Pow2(16) == 0x1_0000;
  }

  // ----- whole runs -----------------------------------------------------------

  datatype Event =
    | Ask(k: SubnetKey, nw: Cidr, ipr: Option<Range>, pdf: bool)
    | Give(k: SubnetKey)

  /** The pools and the unreleased grants after a run of requests and releases, latest last. */
  ghost function Run(es: seq<Event>): (r: (PoolTable, set<SubnetKey>)) {
    if es == [] then (map[], {})
    else
      var (m, granted) := Run(es[..|es| - 1]);
      var e := es[|es| - 1];
      if e.Ask? then
        var (r, m') := AddPool(m, e.k, e.nw, e.ipr, e.pdf);
        (m', if r.Added? then granted + {e.k} else granted)
      else
        (RemovePool(m, e.k).1, granted - {e.k})
  }

  /** Requests are parsed ones, and a release of a present pool matches a grant. */
  ghost predicate Matched(es: seq<Event>) {
    es == [] ||
    var (m, granted) := Run(es[..|es| - 1]);
    var e := es[|es| - 1];
    && Matched(es[..|es| - 1])
    && (e.Ask? ==> Request(e.k, e.nw, e.ipr))
    && (e.Give? ==> e.k in m ==> e.k in granted)
  }

  ghost predicate NamesMasters(es: seq<Event>) {
    es == [] ||
    var m := Run(es[..|es| - 1]).0;
    var e := es[|es| - 1];
    NamesMasters(es[..|es| - 1]) && (e.Ask? ==> !SkipsCheck(m, e.k, e.nw, e.ipr))
  }

  /** In every run whose releases match grants, the counts are those of the live grants. */
  lemma {:induction false} RunCounted(es: seq<Event>)
    requires Matched(es)
    ensures Counted(Run(es).0, Run(es).1)
  {
    if es != [] {
      var past, e := es[..|es| - 1], es[|es| - 1];
      RunCounted(past);
      var (m, granted) := Run(past);
      hide AddPool, RemovePool, Counted, Request;
      if e.Ask? {
        AddKeepsCounts(m, granted, e.k, e.nw, e.ipr, e.pdf);
      } else {
        ReleaseCounted(m, granted, e.k);
      }
    }
  }

  lemma ReleaseCounted(m: PoolTable, granted: set<SubnetKey>, k: SubnetKey)
    requires Counted(m, granted) && (k in m ==> k in granted)
    ensures Counted(RemovePool(m, k).1, granted - {k})
  {
    if k in m {
      RemoveGranted(m, granted, k);
    } else {
      assert granted - {k} == granted;
    }
  }

  /** In every run whose sub-pool requests do not create overlapping masters, the masters are disjoint. */
  lemma {:induction false} RunDisjoint(es: seq<Event>)
    requires Matched(es) && NamesMasters(es)
    ensures DisjointMasters(Run(es).0)
  {
    if es != [] {
      var past, e := es[..|es| - 1], es[|es| - 1];
      RunDisjoint(past);
      var (m, granted) := Run(past);
      hide RemovePool, DisjointMasters, SkipsCheck, Counted, WellFormed;
      if e.Ask? {
        AskDisjoint(m, e.k, e.nw, e.ipr, e.pdf);
      } else {
        RemoveKeepsDisjoint(m, e.k);
      }
    }
  }

  lemma AskDisjoint(m: PoolTable, k: SubnetKey, nw: Cidr, ipr: Option<Range>, pdf: bool)
    requires Request(k, nw, ipr) && DisjointMasters(m) && !SkipsCheck(m, k, nw, ipr)
    ensures DisjointMasters(AddPool(m, k, nw, ipr, pdf).1)
  {
    hide DisjointMasters;
    AddOutcome(m, k, nw, ipr, pdf);
    if AddPool(m, k, nw, ipr, pdf).0.Added? {
      AddKeepsDisjoint(m, k, nw, ipr, pdf);
    }
  }
}
