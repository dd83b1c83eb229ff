/** One node over whole runs: every local call, gossip message, membership change and reaper pass is a step. */
module DbRuns {
  import opened Bitmaps
  import opened NetworkDb
  import opened DbCore
  import opened DbMembers

  /** `mid` is set between the two halves of a reaper pass. */
  datatype Machine = Machine(db: Db, mid: bool)

  datatype Action =
    | DoJoin(nid: string)
    | DoMarkInSync(nid: string)
    | DoLeave(nid: string, order: seq<Key>)
    | DoUpdateTime
    | DoCreate(k: Key, value: Bytes)
    | DoUpdate(k: Key, value: Bytes)
    | DoDelete(k: Key)
    | OnBulkSync(ltime: nat)
    | OnTable(ev: TableEvent, bulk: bool)
    | OnNetwork(nev: NetworkEvent, order: seq<Key>)
    | OnNode(dev: NodeEvent, order: seq<Key>)
    | OnNotifyJoin(name: string, addr: string, prior: Option<string>, order: seq<Key>)
    | OnNotifyLeave(name: string, addr: string, order: seq<Key>)
    | DoReapTable(visits: seq<Visit>)
    | DoReapNetworks
    | DoReapNodes

  function Apply(m: Machine, a: Action): (m': Machine) {
    match a
    case DoJoin(nid) => m.(db := JoinNetwork(m.db, nid))
    case DoMarkInSync(nid) => m.(db := MarkInSync(m.db, nid))
    case DoLeave(nid, order) => m.(db := LeaveNetwork(m.db, nid, order))
    case DoUpdateTime => m.(db := UpdateLocalNetworkTime(m.db))
    case DoCreate(k, v) => m.(db := CreateEntry(m.db, k, v))
    case DoUpdate(k, v) => m.(db := UpdateEntry(m.db, k, v))
    case DoDelete(k) => m.(db := DeleteEntry(m.db, k))
    case OnBulkSync(t) => m.(db := m.db.(tableClock := Witness(m.db.tableClock, t)))
    case OnTable(ev, bulk) => m.(db := HandleTableMessage(m.db, ev, bulk).0)
    case OnNetwork(ev, order) => m.(db := HandleNetworkEvent(m.db, ev, order).0)
    case OnNode(ev, order) => m.(db := HandleNodeEvent(m.db, ev, order).0)
    case OnNotifyJoin(name, addr, prior, order) => m.(db := NotifyJoin(m.db, name, addr, prior, order))
    case OnNotifyLeave(name, addr, order) => m.(db := NotifyLeave(m.db, name, addr, order))
    case DoReapTable(visits) => Machine(ReapTable(m.db, visits), true)
    case DoReapNetworks => Machine(ReapNetworks(m.db), false)
    case DoReapNodes => m.(db := ReapDeadNodes(m.db))
  }

  /** The reaper visits the entries of the networks this node is attached to, each once. */
  ghost predicate Visits(s: Db, visits: seq<Visit>) {
    && (forall i, j :: 0 <= i < j < |visits| ==> visits[i].key != visits[j].key)
    && (forall k :: k in s.store.byNetwork && Att(s.config.self, k.nid) in s.view.networks ==>
          exists v :: v in visits && v.key == k)
  }

  /**
   What is assumed of the environment: each key has one writing node; local writes are to
   networks the node has joined and not left; nothing marks this node itself as left or failed;
   walks visit what they should, which module RadixWalks proves of trees in which no entry's path
   is a proper prefix of another's; the reaper alternates its two halves, and no leave comes
   between them if networks are not kept for a positive time.
   */
  ghost predicate Legal(m: Machine, a: Action, owner: Key -> string) {
    var s := m.db;
    match a
    case DoJoin(_) => true
    case DoMarkInSync(_) => true
    case DoLeave(nid, order) => Lists(order, NetworkKeys(s.store, nid)) && (m.mid ==> NetworkInterval(s.config) > 0)
    case DoUpdateTime => true
    case DoCreate(k, _) => Joined(s, k.nid) && owner(k) == s.config.self
    case DoUpdate(k, _) => Joined(s, k.nid) && owner(k) == s.config.self
    case DoDelete(k) => Joined(s, k.nid) && owner(k) == s.config.self
    case OnBulkSync(_) => true
    case OnTable(ev, _) => ev.node == owner(ev.key)
    case OnNetwork(ev, order) => Lists(order, NetworkKeys(s.store, ev.nid))
    case OnNode(ev, order) => Lists(order, s.store.byTable.Keys) && (ev.node == s.config.self ==> ev.change != Leaving)
    case OnNotifyJoin(name, addr, prior, order) =>
      Lists(order, s.store.byTable.Keys) && Reincarnation(s.view, name, addr, prior) && prior != Some(s.config.self)
    case OnNotifyLeave(name, _, order) => Lists(order, s.store.byTable.Keys) && name != s.config.self
    case DoReapTable(visits) => !m.mid && Visits(s, visits)
    case DoReapNetworks => m.mid
    case DoReapNodes => true
  }

  // ----- the invariant --------------------------------------------------------

  /** This node is attached to the network and leaving it. */
  predicate LeavingNet(c: Config, w: View, nid: string) {
    Att(c.self, nid) in w.networks && w.networks[Att(c.self, nid)].leaving
  }

  /** The record of a network being left outlives a tombstone of it, and will not go while the tombstone waits. */
  predicate Outlives(n: Network, e: Entry, mid: bool) {
    && n.reapTime - e.reapTime >= (if mid then 5 * REAP_PERIOD else 4 * REAP_PERIOD)
    && (mid ==> e.reapTime > SECOND || n.reapTime > 0)
  }

  /** What holds of each stored entry. */
  predicate EntryOk(c: Config, w: View, mid: bool, k: Key, e: Entry) {
    && (e.node == c.self || e.node in w.nodes)
    && (LiveRemote(e, c.self) ==> Attached(w, k.nid, c.self) && Listed(w, k.nid, e.node))
    && (e.deleting && e.node == c.self ==> e.reapTime <= c.interval)
    && (LeavingNet(c, w, k.nid) ==> e.deleting && e.node == c.self && Outlives(w.networks[Att(c.self, k.nid)], e, mid))
  }

  ghost predicate EntriesOk(m: Machine) {
    forall k :: k in m.db.store.byTable ==> EntryOk(m.db.config, m.db.view, m.mid, k, m.db.store.byTable[k])
  }

  /** The counted networks are those this node is attached to. */
  ghost predicate CountedOk(s: Db) {
    forall nid :: nid in s.store.counts <==> Att(s.config.self, nid) in s.view.networks
  }

  ghost predicate Inv(m: Machine, owner: Key -> string) {
    && Core(m.db.store, m.db.config.self, owner)
    && MemberOk(m.db.view, m.db.config.self)
    && CountedOk(m.db)
    && EntriesOk(m)
  }

  /** A network being left was being left before, for as long. */
  predicate SameLeaving(c: Config, w: View, w': View, nid: string) {
    var a := Att(c.self, nid);
    LeavingNet(c, w', nid) ==> (LeavingNet(c, w, nid) && w'.networks[a].reapTime == w.networks[a].reapTime)
  }

  /** An entry stays right when its network's attachment and its owner's listing do. */
  lemma SameEntryOk(c: Config, w: View, w': View, mid: bool, k: Key, e: Entry)
    requires EntryOk(c, w, mid, k, e) && (e.node in w.nodes ==> e.node in w'.nodes)
    requires LiveRemote(e, c.self) && Attached(w, k.nid, c.self) && Listed(w, k.nid, e.node) ==>
      Attached(w', k.nid, c.self) && Listed(w', k.nid, e.node)
    requires SameLeaving(c, w, w', k.nid)
    ensures EntryOk(c, w', mid, k, e)
  {
  }

  // ----- local writes and table events ----------------------------------------

  /** One entry is stored; nothing else changes but the clocks and the log. */
  lemma StoredOk(m: Machine, m': Machine, k: Key, e: Entry)
    requires EntriesOk(m) && m'.mid == m.mid && m'.db.config == m.db.config && m'.db.view == m.db.view
    requires m'.db.store.byTable == m.db.store.byTable[k := e]
    requires EntryOk(m.db.config, m.db.view, m.mid, k, e)
    ensures EntriesOk(m')
  {
  }

  lemma WriteKeeps(m: Machine, owner: Key -> string, k: Key, e: Entry)
    requires Inv(m, owner) && Joined(m.db, k.nid) && owner(k) == m.db.config.self == e.node
    requires e.deleting ==> e.reapTime <= m.db.config.interval
    ensures Inv(m.(db := Write(m.db, k, e)), owner)
  {
    hide Core, MemberOk;
    var s := m.db;
    OwnCounted(s, k.nid);
    WriteCore(s.store, s.config, owner, k, e);
    StoredOk(m, m.(db := Write(s, k, e)), k, e);
  }

  lemma OwnCounted(s: Db, nid: string)
    requires CountedOk(s) && Joined(s, nid)
    ensures nid in s.store.counts
  {
  }

  lemma TableKeeps(m: Machine, owner: Key -> string, ev: TableEvent, bulk: bool)
    requires Inv(m, owner) && ev.node == owner(ev.key)
    ensures Inv(Apply(m, OnTable(ev, bulk)), owner)
  {
    hide Core, MemberOk;
    var s := m.db;
    if ev.node != s.config.self && Relevant(s, ev) && Fresh(s.store, ev, bulk) {
      OwnCounted(s, ev.key.nid);
      ListedActive(s.view, s.config.self, ev.key.nid, ev.node);
      AcceptCore(s.store, s.config, owner, ev);
      StoredOk(m, Apply(m, OnTable(ev, bulk)), ev.key, EntryOf(s.config, ev));
    }
  }

  // ----- joining and leaving networks -----------------------------------------

  /** Attachments change; the entries do not. */
  lemma ViewKeeps(m: Machine, s': Db, owner: Key -> string)
    requires Inv(m, owner) && s'.config == m.db.config && s'.store == m.db.store
    requires MemberOk(s'.view, s'.config.self) && CountedOk(s')
    requires forall n :: n in m.db.view.nodes ==> n in s'.view.nodes
    requires forall nid, name :: Listed(m.db.view, nid, name) ==> Listed(s'.view, nid, name)
    requires forall nid :: Attached(m.db.view, nid, m.db.config.self) ==> Attached(s'.view, nid, m.db.config.self)
    requires forall nid :: SameLeaving(m.db.config, m.db.view, s'.view, nid)
    ensures Inv(m.(db := s'), owner)
  {
    hide Core, MemberOk, Listed, Attached, SameLeaving;
    var c := m.db.config;
    forall k | k in s'.store.byTable ensures EntryOk(c, s'.view, m.mid, k, s'.store.byTable[k]) {
      SameEntryOk(c, m.db.view, s'.view, m.mid, k, s'.store.byTable[k]);
    }
  }

  /** What a local join does to the attachments and lists. */
  lemma JoinViewKeeps(s: Db, nid: string)
    requires MemberOk(s.view, s.config.self)
    ensures
      var w', a := JoinNetwork(s, nid).view, Att(s.config.self, nid);
      && MemberOk(w', s.config.self) && w'.nodes == s.view.nodes
      && w'.networks.Keys == s.view.networks.Keys + {a}
      && (forall b :: b in s.view.networks && b != a ==> w'.networks[b] == s.view.networks[b])
      && !w'.networks[a].leaving
      && (forall i, n :: Listed(s.view, i, n) ==> Listed(w', i, n))
  {
    hide AddMember, MemberOk;
    var self := s.config.self;
    var n := Network(s.networkClock + 1, false, false, 0);
    JoinKeeps(s.view, self, Att(self, nid), n);
    AddMemberLists(Attach(s.view, Att(self, nid), n), nid, self);
    AttachLists(s.view, Att(self, nid), n, true, JoinNetwork(s, nid).view);
  }

  lemma JoinNetworkKeeps(m: Machine, owner: Key -> string, nid: string)
    requires Inv(m, owner)
    ensures Inv(m.(db := JoinNetwork(m.db, nid)), owner)
  {
    var s, s' := m.db, JoinNetwork(m.db, nid);
    assert s'.config == s.config && s'.store.byTable == s.store.byTable;
    assert s'.store.counts.Keys == s.store.counts.Keys + {nid};
    hide JoinNetwork, Core, MemberOk, Listed;
    JoinViewKeeps(s, nid);
    JoinNetworkCore(s, owner, nid);
    forall k | k in s'.store.byTable ensures EntryOk(s.config, s'.view, m.mid, k, s'.store.byTable[k]) {
      SameEntryOk(s.config, s.view, s'.view, m.mid, k, s'.store.byTable[k]);
    }
  }

  /** The count of a network joined anew starts at zero, as it has no entries. */
  lemma JoinNetworkCore(s: Db, owner: Key -> string, nid: string)
    requires Core(s.store, s.config.self, owner)
    ensures Core(JoinNetwork(s, nid).store, s.config.self, owner)
  {
    var t := JoinNetwork(s, nid).store;
    if nid !in s.store.counts {
      assert KeysIn(t.byNetwork, nid) == {};
    }
  }

  lemma MarkInSyncKeeps(m: Machine, owner: Key -> string, nid: string)
    requires Inv(m, owner)
    ensures Inv(m.(db := MarkInSync(m.db, nid)), owner)
  {
    hide Core, MemberOk;
    var s' := MarkInSync(m.db, nid);
    RestampKeeps(m.db.view, m.db.config.self, s'.view);
    SameMembersListed(m.db.view, s'.view);
    ViewKeeps(m, s', owner);
  }

  lemma SameMembersListed(w: View, w': View)
    requires w'.members == w.members
    ensures forall nid, name :: Listed(w', nid, name) == Listed(w, nid, name)
  {
    assert forall nid :: Members(w', nid) == Members(w, nid);
  }

  lemma UpdateTimeKeeps(m: Machine, owner: Key -> string)
    requires Inv(m, owner)
    ensures Inv(m.(db := UpdateLocalNetworkTime(m.db)), owner)
  {
    hide Core, MemberOk;
    var s' := UpdateLocalNetworkTime(m.db);
    RestampKeeps(m.db.view, m.db.config.self, s'.view);
    SameMembersListed(m.db.view, s'.view);
    ViewKeeps(m, s', owner);
  }

  /** After the walk of a local leave, only tombstones of this node's own entries are left in the network. */
  lemma LeftNetwork(m: Machine, owner: Key -> string, nid: string, order: seq<Key>, k: Key)
    requires Inv(m, owner) && Lists(order, NetworkKeys(m.db.store, nid))
    requires k in LeaveWalk(m.db.store, m.db.config, m.db.config.self, order).byTable
    ensures
      var e := LeaveWalk(m.db.store, m.db.config, m.db.config.self, order).byTable[k];
      if k.nid == nid then e.deleting && e.node == m.db.config.self && e.reapTime <= m.db.config.interval
      else k in m.db.store.byTable && e == m.db.store.byTable[k]
  {
    hide LeaveWalk, MemberOk;
    LeaveWalkAt(m.db.store, m.db.config, m.db.config.self, order, k);
    assert k in m.db.store.byTable ==> EntryOk(m.db.config, m.db.view, m.mid, k, m.db.store.byTable[k]);
  }

  lemma LeaveNetworkKeeps(m: Machine, owner: Key -> string, nid: string, order: seq<Key>)
    requires Inv(m, owner) && Legal(m, DoLeave(nid, order), owner)
    ensures Inv(m.(db := LeaveNetwork(m.db, nid, order)), owner)
  {
    var s, c, self := m.db, m.db.config, m.db.config.self;
    var s' := LeaveNetwork(s, nid, order);
    assert s'.config == c && s'.store == LeaveWalk(s.store, c, self, order);
    hide LeaveNetwork, Core, MemberOk, LeaveWalk, Lists, Listed, EntryOk;
    LeaveWalkCore(s.store, c, owner, self, order);
    LeaveViewKeeps(s, nid, order);
    LeaveWalkCounts(s.store, c, self, order);
    forall k | k in s'.store.byTable ensures EntryOk(c, s'.view, m.mid, k, s'.store.byTable[k]) {
      LeftNetwork(m, owner, nid, order, k);
      if k.nid != nid {
        SameEntryOk(c, s.view, s'.view, m.mid, k, s'.store.byTable[k]);
      } else {
        LeftEntryOk(c, s'.view, m.mid, k, s'.store.byTable[k]);
      }
    }
  }

  lemma LeftEntryOk(c: Config, w: View, mid: bool, k: Key, e: Entry)
    requires e.deleting && e.node == c.self && e.reapTime <= c.interval && (mid ==> NetworkInterval(c) > 0)
    requires LeavingNet(c, w, k.nid) ==> w.networks[Att(c.self, k.nid)].reapTime == NetworkInterval(c)
    ensures EntryOk(c, w, mid, k, e)
  {
  }

  lemma {:induction false} LeaveWalkCounts(t: Store, c: Config, node: string, order: seq<Key>)
    ensures LeaveWalk(t, c, node, order).counts.Keys == t.counts.Keys
  {
    if order != [] {
      LeaveWalkCounts(t, c, node, order[..|order| - 1]);
    }
  }

  /** What a local leave does to the attachments and lists. */
  lemma LeaveViewKeeps(s: Db, nid: string, order: seq<Key>)
    requires MemberOk(s.view, s.config.self)
    ensures
      var w', a := LeaveNetwork(s, nid, order).view, Att(s.config.self, nid);
      && MemberOk(w', s.config.self) && w'.nodes == s.view.nodes
      && w'.networks.Keys == s.view.networks.Keys
      && (forall b :: b in s.view.networks && b != a ==> w'.networks[b] == s.view.networks[b])
      && (a in w'.networks ==> w'.networks[a].leaving && w'.networks[a].reapTime == NetworkInterval(s.config))
      && (forall i, n :: Listed(s.view, i, n) && (i != nid || n != s.config.self) ==> Listed(w', i, n))
  {
    var self, a := s.config.self, Att(s.config.self, nid);
    var w' := LeaveNetwork(s, nid, order).view;
    DropMemberLists(s.view, nid, self);
    if a in s.view.networks {
      var n := s.view.networks[a].(ltime := s.networkClock + 1, reapTime := NetworkInterval(s.config), leaving := true);
      LeaveKeeps(s.view, self, a, n);
      assert w' == DropMember(Attach(s.view, a, n), nid, self);
      SameMembersListed(DropMember(s.view, nid, self), w');
    } else {
      assert !Attached(s.view, nid, self);
      NotListed(s.view, nid, self);
    }
  }

  lemma NotListed(w: View, nid: string, name: string)
    requires ListsOk(w) && !Attached(w, nid, name)
    ensures ListsOk(DropMember(w, nid, name))
  {
    var w' := DropMember(w, nid, name);
    DropMemberLists(w, nid, name);
    hide DropMember;
    forall i, m ensures Listed(w', i, m) <==> Attached(w', i, m) {
      assert Listed(w, i, m) <==> Attached(w, i, m);
    }
  }

  // ----- remote nodes joining and leaving networks ----------------------------

  lemma RemoteJoinKeeps(m: Machine, s': Db, owner: Key -> string, a: Att, n: Network)
    requires Inv(m, owner) && a.node != m.db.config.self && !n.leaving
    requires a in m.db.view.networks || a.node in m.db.view.nodes
    requires s'.config == m.db.config && s'.store == m.db.store
    requires s'.view == AddMember(Attach(m.db.view, a, n), a.nid, a.node)
    ensures Inv(m.(db := s'), owner)
  {
    var w, self := m.db.view, m.db.config.self;
    assert a in w.networks ==> a.node == self || a.node in w.nodes;
    JoinKeeps(w, self, a, n);
    AddMemberLists(Attach(w, a, n), a.nid, a.node);
    AttachLists(w, a, n, true, s'.view);
    hide Core, MemberOk, AddMember;
    ViewKeeps(m, s', owner);
  }

  /** After the walk for a remote leave, the node has no live entry left in the network. */
  lemma RemoteLeft(t: Store, c: Config, ev: NetworkEvent, order: seq<Key>, k: Key)
    requires Lists(order, NetworkKeys(t, ev.nid)) && t.byTable == t.byNetwork && ev.node != c.self
    requires k in LeaveWalk(t, c, ev.node, order).byTable
    ensures
      var e := LeaveWalk(t, c, ev.node, order).byTable[k];
      && k in t.byTable && e.node == t.byTable[k].node
      && (k.nid == ev.nid && e.node == ev.node ==> e.deleting)
      && (e == t.byTable[k] || (e.node == ev.node && e.deleting))
  {
    hide LeaveWalk;
    LeaveWalkAt(t, c, ev.node, order, k);
  }

  lemma RemoteLeaveKeeps(m: Machine, s': Db, owner: Key -> string, ev: NetworkEvent, order: seq<Key>, n: Network)
    requires Inv(m, owner) && ev.node != m.db.config.self && n.leaving && Att(ev.node, ev.nid) in m.db.view.networks
    requires Lists(order, NetworkKeys(m.db.store, ev.nid))
    requires s'.config == m.db.config && s'.store == LeaveWalk(m.db.store, m.db.config, ev.node, order)
    requires s'.view == DropMember(Attach(m.db.view, Att(ev.node, ev.nid), n), ev.nid, ev.node)
    ensures Inv(m.(db := s'), owner)
  {
    var w, c, a := m.db.view, m.db.config, Att(ev.node, ev.nid);
    LeaveWalkCore(m.db.store, c, owner, ev.node, order);
    LeaveWalkCounts(m.db.store, c, ev.node, order);
    LeaveKeeps(w, c.self, a, n);
    DropMemberLists(Attach(w, a, n), ev.nid, ev.node);
    AttachLists(w, a, n, false, s'.view);
    hide MemberOk, LeaveWalk, DropMember, Lists;
    forall k | k in s'.store.byTable ensures EntryOk(c, s'.view, m.mid, k, s'.store.byTable[k]) {
      RemoteLeft(m.db.store, c, ev, order, k);
      RemoteLeaveEntry(c, w, s'.view, m.mid, k, m.db.store.byTable[k], s'.store.byTable[k], ev);
    }
  }

  lemma RemoteLeaveEntry(c: Config, w: View, w': View, mid: bool, k: Key, e: Entry, e': Entry, ev: NetworkEvent)
    requires EntryOk(c, w, mid, k, e) && ev.node != c.self
    requires e' == e || (e'.node == ev.node && e'.deleting && e.node == ev.node)
    requires k.nid == ev.nid && e'.node == ev.node ==> e'.deleting
    requires w'.nodes == w.nodes
    requires forall i, n :: Listed(w, i, n) && (i != ev.nid || n != ev.node) ==> Listed(w', i, n)
    requires forall a: Att :: a.node == c.self ==>
      (a in w'.networks <==> a in w.networks) && (a in w.networks ==> w'.networks[a] == w.networks[a])
    ensures EntryOk(c, w', mid, k, e')
  {
  }

  lemma NetworkKeeps(m: Machine, owner: Key -> string, ev: NetworkEvent, order: seq<Key>)
    requires Inv(m, owner) && Lists(order, NetworkKeys(m.db.store, ev.nid))
    ensures Inv(Apply(m, OnNetwork(ev, order)), owner)
  {
    hide Core, MemberOk, LeaveWalk, Lists, DropMember, AddMember;
    var s, s', a := m.db, HandleNetworkEvent(m.db, ev, order).0, Att(ev.node, ev.nid);
    if ev.node != s.config.self {
      if a in s.view.networks && s.view.networks[a].ltime < ev.ltime {
        if ev.leave {
          var n' := s.view.networks[a].(ltime := ev.ltime, leaving := true, reapTime := NetworkInterval(s.config));
          RemoteLeaveKeeps(m, s', owner, ev, order, n');
        } else {
          RemoteJoinKeeps(m, s', owner, a, s.view.networks[a].(ltime := ev.ltime, leaving := false));
        }
      } else if a !in s.view.networks && !ev.leave && ev.node in s.view.nodes {
        RemoteJoinKeeps(m, s', owner, a, Network(ev.ltime, false, false, 0));
      }
    }
  }

  // ----- node states ----------------------------------------------------------

  /** Only the node maps change, and no active node is lost. */
  lemma NodeMapsKeep(m: Machine, s': Db, owner: Key -> string)
    requires Inv(m, owner) && s'.config == m.db.config && s'.store == m.db.store
    requires s'.view.networks == m.db.view.networks && s'.view.members == m.db.view.members
    requires StatesOk(s'.view) && forall n :: n in m.db.view.nodes ==> n in s'.view.nodes
    ensures Inv(m.(db := s'), owner)
  {
    NodesKeep(m.db.view, m.db.config.self, s'.view);
    hide Core, MemberOk;
    SameMembersListed(m.db.view, s'.view);
    ViewKeeps(m, s', owner);
  }

  lemma {:induction false} PurgeWalkCounts(t: Store, node: string, order: seq<Key>)
    ensures PurgeWalk(t, node, order).counts.Keys == t.counts.Keys
  {
    if order != [] {
      PurgeWalkCounts(t, node, order[..|order| - 1]);
    }
  }

  /** A node that leaves or fails loses every entry and attachment; the rest stays as it was. */
  lemma PurgeKeeps(m: Machine, owner: Key -> string, name: string, to: NodeState, order: seq<Key>)
    requires Inv(m, owner) && name != m.db.config.self && to != Active && Lists(order, m.db.store.byTable.Keys)
    requires Find(m.db.view, name).Some? && Find(m.db.view, name).value.1 != to
    ensures Inv(m.(db := ChangeState(m.db, name, to, order).0), owner)
  {
    var s, c, f := m.db, m.db.config, Find(m.db.view, name).value;
    var s' := ChangeState(s, name, to, order).0;
    assert s' == s.(view := Move(s.view, name, f.0, f.1, to), store := PurgeWalk(s.store, name, order));
    hide ChangeState, Core, PurgeWalk;
    PurgeWalkCore(s.store, c.self, owner, name, order);
    PurgeWalkCounts(s.store, name, order);
    MoveKeeps(s.view, c.self, name, to);
    MoveView(s.view, name, f.0, f.1, to);
    hide Move, MemberOk;
    forall k | k in s'.store.byTable ensures EntryOk(c, s'.view, m.mid, k, s'.store.byTable[k]) {
      PurgeWalkAt(s.store, name, order, k);
      SameEntryOk(c, s.view, s'.view, m.mid, k, s'.store.byTable[k]);
    }
  }

  lemma MoveView(w: View, name: string, n: Node, from: NodeState, to: NodeState)
    requires to != Active
    ensures
      var w' := Move(w, name, n, from, to);
      && (forall a: Att :: a in w'.networks <==> a in w.networks && a.node != name)
      && (forall a: Att :: a in w'.networks ==> w'.networks[a] == w.networks[a])
      && (forall x :: x in w.nodes && x != name ==> x in w'.nodes)
      && (forall i, x :: Listed(w', i, x) <==> Listed(w, i, x) && x != name)
  {
    var w1 := Place(Take(w, name, from), name, n, to);
    SameMembersListed(w, w1);
    DetachLists(w1, name);
  }

  lemma ChangeStateKeeps(m: Machine, owner: Key -> string, name: string, to: NodeState, order: seq<Key>)
    requires Inv(m, owner) && Lists(order, m.db.store.byTable.Keys)
    requires to != Active ==> name != m.db.config.self
    ensures Inv(m.(db := ChangeState(m.db, name, to, order).0), owner)
  {
    var f := Find(m.db.view, name);
    if f.Some? && f.value.1 != to {
      if to == Active {
        var s' := ChangeState(m.db, name, to, order).0;
        hide Core, ListsOk, ActiveOk;
        NodeMapsKeep(m, s', owner);
      } else {
        PurgeKeeps(m, owner, name, to, order);
      }
    }
  }

  lemma NodeKeeps(m: Machine, owner: Key -> string, ev: NodeEvent, order: seq<Key>)
    requires Inv(m, owner) && Legal(m, OnNode(ev, order), owner)
    ensures Inv(Apply(m, OnNode(ev, order)), owner)
  {
    var s, f := m.db, Find(m.db.view, ev.node);
    var s1 := s.(networkClock := Witness(s.networkClock, ev.ltime));
    if f.Some? && f.value.0.ltime < ev.ltime {
      var s2 := s1.(view := WithTime(s.view, ev.node, ev.ltime));
      hide Core, ListsOk, ActiveOk, ChangeState, Lists;
      NodeMapsKeep(m, s2, owner);
      if ev.node in s.view.nodes && ev.change != Unspecified {
        hide Inv;
        ChangeStateKeeps(m.(db := s2), owner, ev.node, if ev.change == Joining then Active else Left, order);
      }
    } else {
      hide Core, ListsOk, ActiveOk;
      NodeMapsKeep(m, s1, owner);
    }
  }

  lemma NotedKeeps(m: Machine, owner: Key -> string, op: Op, addr: string)
    requires Inv(m, owner)
    ensures Inv(m.(db := WithNote(m.db, NodeNote(op, addr))), owner)
  {
    hide Core, MemberOk, Noted;
    NodeNoted(m.db.store, m.db.config.self, owner, op, addr);
    NotedSame(m.db.store, NodeNote(op, addr));
  }

  lemma NotedSame(t: Store, n: Note)
    ensures Noted(t, n).byTable == t.byTable && Noted(t, n).counts == t.counts
  {
  }

  lemma NotifyJoinKeeps(
    m: Machine, owner: Key -> string, name: string, addr: string, prior: Option<string>, order: seq<Key>)
    requires Inv(m, owner) && Legal(m, OnNotifyJoin(name, addr, prior, order), owner)
    ensures Inv(Apply(m, OnNotifyJoin(name, addr, prior, order)), owner)
  {
    var s1 := WithNote(m.db, NodeNote(Create, addr));
    var m1, f := m.(db := s1), Find(s1.view, name);
    assert StatesOk(s1.view);
    assert prior.Some? ==> prior.value != name;
    hide Inv, Lists, Reincarnation;
    NotedKeeps(m, owner, Create, addr);
    if f.Some? && f.value.1 != Active {
      assert ChangeState(s1, name, Active, []) == ChangeState(s1, name, Active, order);
      ChangeStateKeeps(m1, owner, name, Active, order);
    } else {
      var s3 := if prior.Some? then ChangeState(s1, prior.value, Left, order).0 else s1;
      assert NotifyJoin(m.db, name, addr, prior, order)
          == s3.(view := s3.view.(nodes := s3.view.nodes[name := Node(addr, 0, 0)]));
      if prior.Some? {
        ChangeStateKeeps(m1, owner, prior.value, Left, order);
        OthersStay(s1, prior.value, name, order);
      }
      hide ChangeState;
      NewNode(m.(db := s3), owner, name, addr);
    }
  }

  lemma OthersStay(s: Db, moved: string, name: string, order: seq<Key>)
    requires moved != name
    ensures
      var w' := ChangeState(s, moved, Left, order).0.view;
      (name in w'.left <==> name in s.view.left) && (name in w'.failed <==> name in s.view.failed)
  {
  }

  lemma NewNode(m: Machine, owner: Key -> string, name: string, addr: string)
    requires Inv(m, owner) && name !in m.db.view.left && name !in m.db.view.failed
    ensures Inv(m.(db := m.db.(view := m.db.view.(nodes := m.db.view.nodes[name := Node(addr, 0, 0)]))), owner)
  {
    hide Core, ListsOk, ActiveOk;
    NodeMapsKeep(m, m.db.(view := m.db.view.(nodes := m.db.view.nodes[name := Node(addr, 0, 0)])), owner);
  }

  lemma NotifyLeaveKeeps(m: Machine, owner: Key -> string, name: string, addr: string, order: seq<Key>)
    requires Inv(m, owner) && Legal(m, OnNotifyLeave(name, addr, order), owner)
    ensures Inv(Apply(m, OnNotifyLeave(name, addr, order)), owner)
  {
    hide Inv, Lists;
    NotedKeeps(m, owner, Delete, addr);
    if name in m.db.view.nodes {
      ChangeStateKeeps(m.(db := WithNote(m.db, NodeNote(Delete, addr))), owner, name, Failed, order);
    }
  }

  lemma ReapNodesKeeps(m: Machine, owner: Key -> string)
    requires Inv(m, owner)
    ensures Inv(m.(db := ReapDeadNodes(m.db)), owner)
  {
    hide Core, ListsOk, ActiveOk;
    NodeMapsKeep(m, ReapDeadNodes(m.db), owner);
  }

  // ----- reaping --------------------------------------------------------------

  /** What a visit makes of an entry. */
  function Reaped(e: Entry, late: nat): (r: Option<Entry>) {
    if !e.deleting then Some(e)
    else if e.reapTime > REAP_PERIOD + late + SECOND then Some(e.(reapTime := e.reapTime - (REAP_PERIOD + late)))
    else None
  }

  lemma ReapKeyAt(t: Store, v: Visit, k: Key)
    requires t.byTable == t.byNetwork
    ensures ReapKey(t, v).byTable == ReapKey(t, v).byNetwork
    ensures At(ReapKey(t, v).byTable, k) ==
            if v.key == k && k in t.byTable then Reaped(t.byTable[k], v.late) else At(t.byTable, k)
  {
  }

  /** An entry left by the reaper's walk is live, or was visited and has more than a second to go. */
  lemma {:induction false} ReapWalkAt(t: Store, visits: seq<Visit>, k: Key)
    requires t.byTable == t.byNetwork
    requires forall i, j :: 0 <= i < j < |visits| ==> visits[i].key != visits[j].key
    ensures
      var t' := ReapWalk(t, visits);
      && t'.byTable == t'.byNetwork
      && (k in t'.byTable ==> k in t.byTable)
      && ((forall v :: v in visits ==> v.key != k) ==> At(t'.byTable, k) == At(t.byTable, k))
      && (k in t'.byTable && t.byTable[k].deleting && (exists v :: v in visits && v.key == k) ==>
            AgedBy(t.byTable[k], t'.byTable[k]))
      && (k in t'.byTable && !t.byTable[k].deleting ==> t'.byTable[k] == t.byTable[k])
  {
    if visits != [] {
      var init, last := visits[..|visits| - 1], visits[|visits| - 1];
      ReapWalkAt(t, init, k);
      var t1 := ReapWalk(t, init);
      ReapKeyAt(t1, last, k);
      assert forall v :: v in visits <==> v in init || v == last;
      assert forall v :: v in init ==> v.key != last.key;
    }
  }

  /** At least a reap period older, with more than a second to go. */
  predicate AgedBy(e: Entry, e': Entry) {
    e'.reapTime <= e.reapTime - REAP_PERIOD && e'.reapTime > SECOND && e' == e.(reapTime := e'.reapTime)
  }

  lemma {:induction false} ReapWalkCounts(t: Store, visits: seq<Visit>)
    ensures ReapWalk(t, visits).counts.Keys == t.counts.Keys
  {
    if visits != [] {
      ReapWalkCounts(t, visits[..|visits| - 1]);
    }
  }

  lemma ReapTableKeeps(m: Machine, owner: Key -> string, visits: seq<Visit>)
    requires Inv(m, owner) && Legal(m, DoReapTable(visits), owner)
    ensures Inv(Apply(m, DoReapTable(visits)), owner)
  {
    var s, s', c := m.db, ReapTable(m.db, visits), m.db.config;
    ReapWalkCore(s.store, c.self, owner, visits);
    ReapWalkCounts(s.store, visits);
    hide MemberOk, ReapWalk, EntryOk, AgedBy, LogOk, CountsOk;
    forall k | k in s'.store.byTable ensures EntryOk(c, s.view, true, k, s'.store.byTable[k]) {
      ReapWalkAt(s.store, visits, k);
      assert k.nid in s.store.counts;
      ReapedEntryOk(c, s.view, k, s.store.byTable[k], s'.store.byTable[k]);
    }
  }

  lemma ReapedEntryOk(c: Config, w: View, k: Key, e: Entry, e': Entry)
    requires EntryOk(c, w, false, k, e) && if e.deleting then AgedBy(e, e') else e' == e
    ensures EntryOk(c, w, true, k, e')
  {
  }

  /** No entry is left in a network whose record is dropped. */
  lemma ExpiredEmpty(m: Machine, owner: Key -> string, k: Key)
    requires Inv(m, owner) && m.mid && k in m.db.store.byTable
    ensures !Expired(m.db.view, Att(m.db.config.self, k.nid))
  {
    assert EntryOk(m.db.config, m.db.view, true, k, m.db.store.byTable[k]);
  }

  lemma ReapNetworksKeeps(m: Machine, owner: Key -> string)
    requires Inv(m, owner) && m.mid
    ensures Inv(Apply(m, DoReapNetworks), owner)
  {
    var s, s', c := m.db, ReapNetworks(m.db), m.db.config;
    ReapKeeps(s.view, c.self, s'.view);
    SameMembersListed(s.view, s'.view);
    forall k | k in s.store.byTable ensures !Expired(s.view, Att(c.self, k.nid)) {
      ExpiredEmpty(m, owner, k);
    }
    hide MemberOk, LogOk;
    assert Core(s'.store, c.self, owner) by {
      assert s'.store.byTable == s.store.byTable && s'.store.byNetwork == s.store.byNetwork;
      assert s'.store.log == s.store.log;
      SameLog(s.store, s'.store, c.self);
    }
    forall k | k in s'.store.byTable ensures EntryOk(c, s'.view, false, k, s'.store.byTable[k]) {
      assert EntryOk(c, s.view, true, k, s.store.byTable[k]);
    }
  }

  lemma SameLog(t: Store, t': Store, self: string)
    requires LogOk(t, self) && t'.log == t.log && t'.byTable == t.byTable
    ensures LogOk(t', self)
  {
  }

  // ----- whole runs -----------------------------------------------------------

  lemma StepKeeps(m: Machine, a: Action, owner: Key -> string)
    requires Inv(m, owner) && Legal(m, a, owner)
    ensures Inv(Apply(m, a), owner)
  {
    match a
    case DoJoin(nid) => JoinNetworkKeeps(m, owner, nid);
    case DoMarkInSync(nid) => MarkInSyncKeeps(m, owner, nid);
    case DoLeave(nid, order) => LeaveNetworkKeeps(m, owner, nid, order);
    case DoUpdateTime => UpdateTimeKeeps(m, owner);
    case DoCreate(k, v) => LocalWriteKeeps(m, a, owner);
    case DoUpdate(k, v) => LocalWriteKeeps(m, a, owner);
    case DoDelete(k) => LocalWriteKeeps(m, a, owner);
    case OnBulkSync(t) => ClockKeeps(m, t, owner);
    case OnTable(ev, bulk) => TableKeeps(m, owner, ev, bulk);
    case OnNetwork(ev, order) => NetworkKeeps(m, owner, ev, order);
    case OnNode(ev, order) => NodeKeeps(m, owner, ev, order);
    case OnNotifyJoin(name, addr, prior, order) => NotifyJoinKeeps(m, owner, name, addr, prior, order);
    case OnNotifyLeave(name, addr, order) => NotifyLeaveKeeps(m, owner, name, addr, order);
    case DoReapTable(visits) => ReapTableKeeps(m, owner, visits);
    case DoReapNetworks => ReapNetworksKeeps(m, owner);
    case DoReapNodes => ReapNodesKeeps(m, owner);
  }

  lemma LocalWriteKeeps(m: Machine, a: Action, owner: Key -> string)
    requires a.DoCreate? || a.DoUpdate? || a.DoDelete?
    requires Inv(m, owner) && Legal(m, a, owner)
    ensures Inv(Apply(m, a), owner)
  {
    hide Inv;
    var s, k := m.db, a.k;
    if a.DoDelete? {
      if k in s.store.byTable && !s.store.byTable[k].deleting {
        var e := LocalEntry(s, s.store.byTable[k].value);
        WriteKeeps(m, owner, k, e.(deleting := true, reapTime := s.config.interval));
      }
    } else {
      WriteKeeps(m, owner, k, LocalEntry(s, a.value));
    }
  }

  lemma ClockKeeps(m: Machine, t: nat, owner: Key -> string)
    requires Inv(m, owner)
    ensures Inv(Apply(m, OnBulkSync(t)), owner)
  {
    hide Core, MemberOk;
  }

  /** A run of legal steps from a new node. */
  ghost predicate Run(c: Config, owner: Key -> string, acts: seq<Action>, ms: seq<Machine>) {
    && |ms| == |acts| + 1
    && ms[0] == Machine(Start(c), false)
    && forall i: nat :: i < |acts| ==> Legal(ms[i], acts[i], owner) && ms[i + 1] == Apply(ms[i], acts[i])
  }

  lemma StartInv(c: Config, owner: Key -> string)
    ensures Inv(Machine(Start(c), false), owner)
  {
  }

  lemma {:induction false} RunInv(c: Config, owner: Key -> string, acts: seq<Action>, ms: seq<Machine>, n: nat)
    requires Run(c, owner, acts, ms) && n < |ms|
    ensures Inv(ms[n], owner)
  {
    if n == 0 {
      StartInv(c, owner);
    } else {
      RunInv(c, owner, acts, ms, n - 1);
      hide Inv, Legal, Apply;
      StepKeeps(ms[n - 1], acts[n - 1], owner);
      assert ms[n - 1 + 1] == Apply(ms[n - 1], acts[n - 1]);
    }
  }
}
