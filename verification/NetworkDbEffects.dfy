/** What each handler and each local call must do: when it takes effect, what it then leaves, and what it answers. */
module DbEffects {
  import opened Bitmaps
  import opened NetworkDb
  import opened DbCore
  import opened DbMembers
  import opened DbRuns
  import opened Convergence

  // ----- table events ---------------------------------------------------------

  /** The event says more of its key than is known, and is no asynchronous deletion of an unknown one. */
  predicate News(s: Db, ev: TableEvent, bulk: bool) {
    var x := Known(s, ev.key);
    if x.Some? then x.value.ltime < ev.ltime else ev.op != Delete || bulk
  }

  /** The time a received entry is kept once it is deleted: what the event carries, or the full interval. */
  function Residual(c: Config, ev: TableEvent): (d: int) {
    if ev.op == Delete && ev.residual == 0 then c.interval else ev.residual * SECOND
  }

  predicate SyncedWith(s: Db, nid: string) {
    var a := Att(s.config.self, nid);
    a in s.view.networks && s.view.networks[a].inSync
  }

  /**
   A table message is sent on if and only if it is heeded and news, its network is synced, and, if it deletes an
   unknown entry, more than a sixth of the interval is left of it.
   */
  lemma SentOnIff(s: Db, ev: TableEvent, bulk: bool)
    ensures HandleTableMessage(s, ev, bulk).1 <==>
      && Heeds(s, ev) && News(s, ev, bulk) && SyncedWith(s, ev.key.nid)
      && (ev.op == Delete && Known(s, ev.key).None? ==> Residual(s.config, ev) > Sixth(s.config.interval))
  {
  }

  /** Watchers hear of the event, unless it deletes an entry they have not heard of. */
  function ToldOf(s: Db, ev: TableEvent): (notes: seq<Note>) {
    if ev.op == Delete && Known(s, ev.key).None? then [] else [TableNote(ev.op, ev.key, ev.value)]
  }

  /** A heeded piece of news is stored under both indexes and told; anything else moves the clock at most. */
  lemma TableEffect(s: Db, ev: TableEvent, bulk: bool)
    ensures
      var s' := HandleTableMessage(s, ev, bulk).0;
      && s'.config == s.config && s'.view == s.view && s'.networkClock == s.networkClock
      && (if ev.node == s.config.self then s'.tableClock == s.tableClock
          else s'.tableClock >= s.tableClock && s'.tableClock > ev.ltime)
      && (if Heeds(s, ev) && News(s, ev, bulk) then
            var e := Entry(ev.node, ev.ltime, ev.value, ev.op == Delete, Residual(s.config, ev));
            && s'.store.byTable == s.store.byTable[ev.key := e]
            && s'.store.byNetwork == s.store.byNetwork[ev.key := e]
            && s'.store.log == s.store.log + ToldOf(s, ev)
          else s'.store == s.store)
  {
  }

  // ----- local writes ---------------------------------------------------------

  /** The entry of a key under both indexes, and nothing else of the entries. */
  predicate Wrote(s: Db, s': Db, k: Key, e: Entry) {
    && s'.store.byTable == s.store.byTable[k := e] && s'.store.byNetwork == s.store.byNetwork[k := e]
    && s'.tableClock == s.tableClock + 1
    && s'.config == s.config && s'.view == s.view && s'.networkClock == s.networkClock && s'.store.log == s.store.log
  }

  /** A create needs an unused key, an update a used one, a delete a live one; each else changes nothing. */
  lemma WriteEffect(s: Db, k: Key, value: Bytes)
    ensures
      var e := Entry(s.config.self, s.tableClock + 1, value, false, 0);
      && (if Known(s, k).None? then Wrote(s, CreateEntry(s, k, value), k, e) else CreateEntry(s, k, value) == s)
      && (if Known(s, k).Some? then Wrote(s, UpdateEntry(s, k, value), k, e) else UpdateEntry(s, k, value) == s)
    ensures
      var x := Known(s, k);
      if x.Some? && !x.value.deleted then
        var e := Entry(s.config.self, s.tableClock + 1, x.value.value, true, s.config.interval);
        Wrote(s, DeleteEntry(s, k), k, e)
      else DeleteEntry(s, k) == s
  {
  }

  // ----- attachments ----------------------------------------------------------

  /** One attachment of the view may have changed, and one name of one list; nothing else has. */
  ghost predicate OnlyAttachment(w: View, w': View, a: Att, listed: bool) {
    && w'.nodes == w.nodes && w'.left == w.left && w'.failed == w.failed
    && (forall b :: b != a ==> (b in w'.networks <==> b in w.networks))
    && (forall b :: b != a && b in w.networks ==> w'.networks[b] == w.networks[b])
    && ListedAs(w, w', a.nid, a.node, listed)
  }

  /** A join of another node is news: newer than its record, or the first of an active node. */
  predicate NewJoin(s: Db, ev: NetworkEvent) {
    var a := Att(ev.node, ev.nid);
    && ev.node != s.config.self && !ev.leave
    && if a in s.view.networks then s.view.networks[a].ltime < ev.ltime else ev.node in s.view.nodes
  }

  /** A leave of another node is news: newer than its record. */
  predicate NewLeave(s: Db, ev: NetworkEvent) {
    var a := Att(ev.node, ev.nid);
    ev.node != s.config.self && ev.leave && a in s.view.networks && s.view.networks[a].ltime < ev.ltime
  }

  /** The record of an attachment after a join: the old one stamped and no longer leaving, or a new one. */
  function JoinedAt(w: View, a: Att, ltime: nat): (n: Network) {
    if a in w.networks then w.networks[a].(ltime := ltime, leaving := false) else Network(ltime, false, false, 0)
  }

  /** A network event that is news takes effect and is sent on; any other changes no more than the clock. */
  lemma NetworkEventEffect(s: Db, ev: NetworkEvent, order: seq<Key>)
    ensures
      var (s', sendOn) := HandleNetworkEvent(s, ev, order);
      var a := Att(ev.node, ev.nid);
      && s'.config == s.config && s'.tableClock == s.tableClock
      && s'.networkClock >= s.networkClock && s'.networkClock > ev.ltime
      && (sendOn <==> NewJoin(s, ev) || NewLeave(s, ev))
      && (if NewJoin(s, ev) then
            && s'.store == s.store && OnlyAttachment(s.view, s'.view, a, true)
            && a in s'.view.networks && s'.view.networks[a] == JoinedAt(s.view, a, ev.ltime)
          else if NewLeave(s, ev) then
            && s'.store == LeaveWalk(s.store, s.config, ev.node, order) && OnlyAttachment(s.view, s'.view, a, false)
            && a in s'.view.networks
            && var i := NetworkInterval(s.config);
            s'.view.networks[a] == s.view.networks[a].(ltime := ev.ltime, leaving := true, reapTime := i)
          else s'.view == s.view && s'.store == s.store)
  {
    hide LeaveWalk, AddMember, DropMember;
    var a := Att(ev.node, ev.nid);
    if a in s.view.networks {
      var was := s.view.networks[a];
      var time := if ev.leave then NetworkInterval(s.config) else was.reapTime;
      var n := was.(ltime := ev.ltime, leaving := ev.leave, reapTime := time);
      AttachedListed(s.view, a, n);
    } else {
      AttachedListed(s.view, a, Network(ev.ltime, false, false, 0));
    }
  }

  lemma AttachedListed(w: View, a: Att, n: Network)
    ensures
      var x := Attach(w, a, n);
      && OnlyAttachment(w, AddMember(x, a.nid, a.node), a, true) && AddMember(x, a.nid, a.node).networks == x.networks
      && OnlyAttachment(w, DropMember(x, a.nid, a.node), a, false)
      && DropMember(x, a.nid, a.node).networks == x.networks
  {
    var x := Attach(w, a, n);
    AddMemberLists(x, a.nid, a.node);
    DropMemberLists(x, a.nid, a.node);
    AttachLists(w, a, n, true, AddMember(x, a.nid, a.node));
    AttachLists(w, a, n, false, DropMember(x, a.nid, a.node));
  }

  /** A local join: attached anew and unsynced, listed, and counted from the entries it still has. */
  lemma JoinEffect(s: Db, nid: string)
    ensures
      var s', a := JoinNetwork(s, nid), Att(s.config.self, nid);
      && s'.config == s.config && s'.tableClock == s.tableClock && s'.networkClock == s.networkClock + 1
      && OnlyAttachment(s.view, s'.view, a, true)
      && a in s'.view.networks && s'.view.networks[a] == Network(s.networkClock + 1, false, false, 0)
      && s'.store == s.store.(counts := s'.store.counts) && s'.store.counts.Keys == s.store.counts.Keys + {nid}
      && (forall n :: n in s.store.counts ==> s'.store.counts[n] == s.store.counts[n])
      && (nid !in s.store.counts ==> s'.store.counts[nid] == 0)
  {
    hide AddMember;
    AttachedListed(s.view, Att(s.config.self, nid), Network(s.networkClock + 1, false, false, 0));
  }

  /** What a leave of the node makes of an entry of the network. */
  function Departed(c: Config, node: string, e: Entry): (r: Option<Entry>) {
    if e.node == node then
      if e.deleting then Some(e)
      else Some(Entry(e.node, if node == c.self then e.ltime + 1 else e.ltime, e.value, true, c.interval))
    else if node == c.self then None
    else Some(e)
  }

  /**
   A leave walk: the leaver's live entries become tombstones for the interval, a node's own stamped one later; if
   this node leaves, the entries of others go; the rest, and every other network, stays.
   */
  lemma LeaveWalkEffect(t: Store, c: Config, node: string, nid: string, order: seq<Key>, k: Key)
    requires t.byTable == t.byNetwork && Lists(order, NetworkKeys(t, nid))
    ensures
      var t' := LeaveWalk(t, c, node, order);
      && At(t'.byTable, k) == At(t'.byNetwork, k)
      && At(t'.byTable, k) ==
           if k in t.byTable && k.nid == nid then Departed(c, node, t.byTable[k]) else At(t.byTable, k)
  {
    LeaveWalkAt(t, c, node, order, k);
    assert k in order <==> k in NetworkKeys(t, nid);
    hide LeaveWalk;
  }

  /** A local leave: unlisted, the record kept as leaving for the network interval, the entries walked. */
  lemma LeaveEffect(s: Db, nid: string, order: seq<Key>)
    ensures
      var s', a := LeaveNetwork(s, nid, order), Att(s.config.self, nid);
      && s'.config == s.config && s'.tableClock == s.tableClock && s'.networkClock == s.networkClock + 1
      && s'.store == LeaveWalk(s.store, s.config, s.config.self, order)
      && OnlyAttachment(s.view, s'.view, a, false) && (a in s'.view.networks <==> a in s.view.networks)
      && (a in s.view.networks ==>
            var i := NetworkInterval(s.config);
            s'.view.networks[a] == s.view.networks[a].(ltime := s.networkClock + 1, leaving := true, reapTime := i))
  {
    hide LeaveWalk, DropMember;
    DropMemberLists(s.view, nid, s.config.self);
    var w := DropMember(s.view, nid, s.config.self);
    var a := Att(s.config.self, nid);
    forall n ensures ListedAs(s.view, Attach(w, a, n), nid, s.config.self, false) {
      SameLists(s.view, w, Attach(w, a, n), nid, s.config.self);
    }
  }

  lemma SameLists(w: View, x: View, y: View, nid: string, name: string)
    requires ListedAs(w, x, nid, name, false) && y.members == x.members
    ensures ListedAs(w, y, nid, name, false)
  {
    assert forall i :: Members(y, i) == Members(x, i);
    forall i, n ensures Listed(y, i, n) <==> Listed(x, i, n) {
    }
  }

  /**
   The end of a join marks the attachment synced; a forced push stamps the local attachments. Nothing else
   changes.
   */
  lemma StampEffects(s: Db, nid: string, a: Att)
    ensures
      var s' := MarkInSync(s, nid);
      && s' == s.(view := s.view.(networks := s'.view.networks)) && (a in s'.view.networks <==> a in s.view.networks)
      && (a in s.view.networks ==>
            s'.view.networks[a] ==
            if a == Att(s.config.self, nid) then s.view.networks[a].(inSync := true) else s.view.networks[a])
    ensures
      var s' := UpdateLocalNetworkTime(s);
      && s' == s.(networkClock := s.networkClock + 1, view := s.view.(networks := s'.view.networks))
      && (a in s'.view.networks <==> a in s.view.networks)
      && (a in s.view.networks ==>
            s'.view.networks[a] ==
              if a.node == s.config.self then s.view.networks[a].(ltime := s.networkClock + 1) else s.view.networks[a])
  {
  }

  // ----- push-pull exchanges --------------------------------------------------

  /** No attachment is told of twice. */
  ghost predicate ToldOnce(evs: seq<NetworkEvent>) {
    forall i, j :: 0 <= i < j < |evs| ==> Att(evs[i].node, evs[i].nid) != Att(evs[j].node, evs[j].nid)
  }

  predicate SameAt(w: View, w': View, a: Att) {
    && (a in w'.networks <==> a in w.networks) && (a in w.networks ==> w'.networks[a] == w.networks[a])
    && (Listed(w', a.nid, a.node) <==> Listed(w, a.nid, a.node))
  }

  /** An exchange leaves alone what it does not tell of. */
  lemma {:induction false} MergeFrame(s: Db, evs: seq<NetworkEvent>, orders: seq<seq<Key>>, a: Att)
    requires |orders| == |evs| && forall ev :: ev in evs ==> Att(ev.node, ev.nid) != a
    ensures
      var s' := MergeNetworks(s, evs, orders);
      s'.config == s.config && s'.view.nodes == s.view.nodes && SameAt(s.view, s'.view, a)
  {
    if evs != [] {
      var n := |evs| - 1;
      MergeFrame(s, evs[..n], orders[..n], a);
      NetworkEventEffect(MergeNetworks(s, evs[..n], orders[..n]), evs[n], orders[n]);
      assert evs[n] in evs;
      hide HandleNetworkEvent, LeaveWalk;
    }
  }

  /** The attachment of the event is as the event says if it was news, and else as it was. */
  predicate Shows(s: Db, w: View, ev: NetworkEvent) {
    var a := Att(ev.node, ev.nid);
    if NewJoin(s, ev) then
      Attached(w, ev.nid, ev.node) && Listed(w, ev.nid, ev.node) && w.networks[a].ltime == ev.ltime
    else if NewLeave(s, ev) then
      a in w.networks && w.networks[a].leaving && w.networks[a].ltime == ev.ltime && !Listed(w, ev.nid, ev.node)
    else SameAt(s.view, w, a)
  }

  lemma SameNews(s: Db, s': Db, ev: NetworkEvent)
    requires s'.config == s.config && s'.view.nodes == s.view.nodes && SameAt(s.view, s'.view, Att(ev.node, ev.nid))
    ensures (NewJoin(s', ev) <==> NewJoin(s, ev)) && (NewLeave(s', ev) <==> NewLeave(s, ev))
  {
  }

  lemma ShowsStays(s: Db, w: View, w': View, ev: NetworkEvent)
    requires Shows(s, w, ev) && SameAt(w, w', Att(ev.node, ev.nid))
    ensures Shows(s, w', ev)
  {
  }

  /** One event: its own attachment shows it, and any other is as it was. */
  lemma EventShows(s: Db, ev: NetworkEvent, order: seq<Key>, a: Att)
    ensures
      var w := HandleNetworkEvent(s, ev, order).0.view;
      Shows(s, w, ev) && (a != Att(ev.node, ev.nid) ==> SameAt(s.view, w, a))
  {
    NetworkEventEffect(s, ev, order);
    hide HandleNetworkEvent, LeaveWalk;
  }

  /** After an exchange every attachment it tells of is as its own event says: joined, left, or as it was. */
  lemma {:induction false} MergeEffect(s: Db, evs: seq<NetworkEvent>, orders: seq<seq<Key>>, i: nat)
    requires |orders| == |evs| && ToldOnce(evs) && i < |evs|
    ensures Shows(s, MergeNetworks(s, evs, orders).view, evs[i])
    decreases |evs|
  {
    hide HandleNetworkEvent;
    var n := |evs| - 1;
    var init, last, a := evs[..n], evs[n], Att(evs[i].node, evs[i].nid);
    var s1, w := MergeNetworks(s, init, orders[..n]), MergeNetworks(s, evs, orders).view;
    EventShows(s1, last, orders[n], a);
    if i == n {
      forall ev | ev in init ensures Att(ev.node, ev.nid) != a {
        var j :| 0 <= j < n && init[j] == ev;
        assert evs[j] == ev;
      }
      MergeFrame(s, init, orders[..n], a);
      SameShows(s, s1, w, last);
    } else {
      MergeEffect(s, init, orders[..n], i);
      hide Shows;
      ShowsStays(s, s1.view, w, evs[i]);
    }
  }

  lemma SameShows(s: Db, s': Db, w: View, ev: NetworkEvent)
    requires s'.config == s.config && s'.view.nodes == s.view.nodes && SameAt(s.view, s'.view, Att(ev.node, ev.nid))
    requires Shows(s', w, ev)
    ensures Shows(s, w, ev)
  {
    SameNews(s, s', ev);
    hide NewJoin, NewLeave;
  }

  // ----- node states ----------------------------------------------------------

  /** In which of the three maps a node is. */
  function StateOf(w: View, name: string): (r: Option<NodeState>) {
    if name in w.nodes then Some(Active) else if name in w.left then Some(Left)
    else if name in w.failed then Some(Failed) else None
  }

  /** The record of a node, wherever it is. */
  function NodeAt(w: View, name: string): (r: Option<Node>) {
    if name in w.nodes then Some(w.nodes[name]) else if name in w.left then Some(w.left[name])
    else if name in w.failed then Some(w.failed[name]) else None
  }

  predicate OthersSame(w: View, w': View, name: string, n: string) {
    n != name ==> StateOf(w', n) == StateOf(w, n) && NodeAt(w', n) == NodeAt(w, n)
  }

  /** The node has lost its attachments, and is in no list. */
  ghost predicate Detached(w: View, name: string) {
    (forall a :: a in w.networks ==> a.node != name) && forall nid :: !Listed(w, nid, name)
  }

  /** The attachments and listings of the other nodes are as they were. */
  ghost predicate OthersAttached(w: View, w': View, name: string) {
    forall a: Att :: a.node != name ==> SameAt(w, w', a)
  }

  /** None of the node's entries is left, and every other is as it was. */
  ghost predicate Purged(t: Store, t': Store, name: string) {
    forall k :: At(t'.byTable, k) == if k in t.byTable && t.byTable[k].node == name then None else At(t.byTable, k)
  }

  /** The record a node has after a move. */
  function KeptAs(n: Node, to: NodeState): (n': Node) {
    n.(reapTime := if to == Active then 0 else if n.reapTime == 0 then NODE_REAP_INTERVAL else n.reapTime)
  }

  /** The node is in the new state, and nobody else has moved; one that leaves or fails loses its attachments. */
  ghost predicate MovedTo(w: View, w': View, name: string, to: NodeState) {
    && NodeAt(w, name).Some? && StateOf(w', name) == Some(to)
    && NodeAt(w', name) == Some(KeptAs(NodeAt(w, name).value, to))
    && (forall n :: OthersSame(w, w', name, n))
    && OthersAttached(w, w', name)
    && if to == Active then w'.networks == w.networks && w'.members == w.members else Detached(w', name)
  }

  lemma MoveEffect(w: View, name: string, to: NodeState)
    requires StatesOk(w) && Find(w, name).Some? && Find(w, name).value.1 != to
    ensures MovedTo(w, Move(w, name, Find(w, name).value.0, Find(w, name).value.1, to), name, to)
  {
    var f := Find(w, name).value;
    var w1 := Place(Take(w, name, f.1), name, f.0, to);
    PlaceEffect(w, name, to);
    DetachEffect(w1, name);
    hide Place, Take, Detach, StatesOk, Find, OthersSame;
    if to != Active {
      SameNodes(w, w1, Detach(w1, name), name);
    }
  }

  lemma SameNodes(w: View, w1: View, w2: View, name: string)
    requires w2 == w1.(members := w2.members, networks := w2.networks) && forall n :: OthersSame(w, w1, name, n)
    ensures StateOf(w2, name) == StateOf(w1, name) && NodeAt(w2, name) == NodeAt(w1, name)
    ensures forall n :: OthersSame(w, w2, name, n)
  {
    forall n ensures OthersSame(w, w2, name, n) {
      assert OthersSame(w, w1, name, n);
    }
  }

  lemma PlaceEffect(w: View, name: string, to: NodeState)
    requires StatesOk(w) && Find(w, name).Some? && Find(w, name).value.1 != to
    ensures
      var f := Find(w, name).value;
      var w1 := Place(Take(w, name, f.1), name, f.0, to);
      && NodeAt(w, name) == Some(f.0)
      && StateOf(w1, name) == Some(to) && NodeAt(w1, name) == Some(KeptAs(f.0, to))
      && w1.networks == w.networks && w1.members == w.members
      && forall n :: OthersSame(w, w1, name, n)
  {
  }

  lemma DetachEffect(w: View, name: string)
    ensures Detached(Detach(w, name), name) && OthersAttached(w, Detach(w, name), name)
    ensures Detach(w, name) == w.(members := Detach(w, name).members, networks := Detach(w, name).networks)
  {
    var w' := Detach(w, name);
    forall nid ensures Members(w', nid) == Without(Members(w, nid), name) {
    }
  }

  lemma PurgeEffect(t: Store, t0: Store, name: string, order: seq<Key>)
    requires Lists(order, t.byTable.Keys) && t0.byTable == t.byTable
    ensures Purged(t, PurgeWalk(t0, name, order), name)
  {
    forall k
      ensures At(PurgeWalk(t0, name, order).byTable, k) ==
              if k in t.byTable && t.byTable[k].node == name then None else At(t.byTable, k)
    {
      PurgeWalkAt(t0, name, order, k);
    }
  }

  /**
   A known node in another state moves to the one asked for, and the answer says so. One that leaves or fails loses
   its attachments and its entries, and is kept for a day.
   */
  lemma StateEffect(s: Db, name: string, to: NodeState, order: seq<Key>)
    requires StatesOk(s.view) && Lists(order, s.store.byTable.Keys)
    ensures
      var (s', moved) := ChangeState(s, name, to, order);
      && (moved <==> StateOf(s.view, name).Some? && StateOf(s.view, name) != Some(to))
      && s'.config == s.config && s'.tableClock == s.tableClock && s'.networkClock == s.networkClock
      && if !moved then s' == s
         else MovedTo(s.view, s'.view, name, to)
              && if to == Active then s'.store == s.store else Purged(s.store, s'.store, name)
  {
    hide PurgeWalk, Move, Lists, MovedTo, Purged, StatesOk;
    PurgeEffect(s.store, s.store, name, order);
    PurgeEffect(s.store, s.store.(counts := map[]), name, order);
    if Find(s.view, name).Some? && Find(s.view, name).value.1 != to {
      MoveEffect(s.view, name, to);
    }
  }

  /** A node event newer than the record of a known node. */
  predicate NewNodeEvent(s: Db, ev: NodeEvent) {
    NodeAt(s.view, ev.node).Some? && NodeAt(s.view, ev.node).value.ltime < ev.ltime
  }

  /** Only the time of the node's record differs. */
  predicate Stamped(w: View, w': View, name: string, ltime: nat) {
    && NodeAt(w, name).Some? && NodeAt(w', name) == Some(NodeAt(w, name).value.(ltime := ltime))
    && StateOf(w', name) == StateOf(w, name) && w'.networks == w.networks && w'.members == w.members
  }

  lemma StampNode(w: View, name: string, ltime: nat)
    requires StatesOk(w) && NodeAt(w, name).Some?
    ensures Stamped(w, WithTime(w, name, ltime), name, ltime) && StatesOk(WithTime(w, name, ltime))
    ensures forall n :: OthersSame(w, WithTime(w, name, ltime), name, n)
  {
  }

  /**
   A node event that is news stamps the node. A leave of an active node also moves it to the left nodes, and is sent
   on; nothing else is. An event that is no news changes no more than the clock.
   */
  lemma NodeEventEffect(s: Db, ev: NodeEvent, order: seq<Key>)
    requires StatesOk(s.view) && Lists(order, s.store.byTable.Keys)
    ensures
      var (s', sendOn) := HandleNodeEvent(s, ev, order);
      && s'.config == s.config && s'.tableClock == s.tableClock
      && s'.networkClock >= s.networkClock && s'.networkClock > ev.ltime
      && (sendOn <==> NewNodeEvent(s, ev) && ev.change == Leaving && StateOf(s.view, ev.node) == Some(Active))
      && if !NewNodeEvent(s, ev) then s'.view == s.view && s'.store == s.store
         else if !sendOn then Stamped(s.view, s'.view, ev.node, ev.ltime) && s'.store == s.store
         else
           var w := WithTime(s.view, ev.node, ev.ltime);
           && Stamped(s.view, w, ev.node, ev.ltime)
           && MovedTo(w, s'.view, ev.node, Left) && Purged(s.store, s'.store, ev.node)
  {
    hide Lists, ChangeState, MovedTo, Purged;
    if NewNodeEvent(s, ev) {
      StampNode(s.view, ev.node, ev.ltime);
      var s2 := s.(networkClock := Witness(s.networkClock, ev.ltime), view := WithTime(s.view, ev.node, ev.ltime));
      hide WithTime;
      StateEffect(s2, ev.node, Active, order);
      StateEffect(s2, ev.node, Left, order);
    }
  }

  /** A node that goes missing while active is moved to the failed nodes; watchers hear of it in any case. */
  lemma NotifyLeaveEffect(s: Db, name: string, addr: string, order: seq<Key>)
    requires StatesOk(s.view) && Lists(order, s.store.byTable.Keys)
    ensures
      var s', s1 := NotifyLeave(s, name, addr, order), WithNote(s, NodeNote(Delete, addr));
      && s1.store == s.store.(log := s.store.log + [NodeNote(Delete, addr)])
      && if StateOf(s.view, name) == Some(Active) then
           MovedTo(s.view, s'.view, name, Failed) && Purged(s.store, s'.store, name)
         else s'.view == s.view && s'.store == s1.store
  {
    hide Lists, ChangeState, MovedTo, PurgeWalk;
    StateEffect(WithNote(s, NodeNote(Delete, addr)), name, Failed, order);
  }

  /** Another node than the named one, at the address. */
  predicate SharesAddress(w: View, name: string, addr: string, n: string) {
    n != name && NodeAt(w, n).Some? && NodeAt(w, n).value.addr == addr
  }

  /** The prior node of an address is another node there, an active one first, then a failed one; or there is none. */
  lemma ReincarnationIs(w: View, name: string, addr: string, prior: Option<string>)
    requires StatesOk(w) && Reincarnation(w, name, addr, prior)
    ensures prior.Some? <==> exists n :: SharesAddress(w, name, addr, n)
    ensures prior.Some? ==> SharesAddress(w, name, addr, prior.value)
    ensures forall n :: SharesAddress(w, name, addr, n) && StateOf(w, n) == Some(Active) ==>
      StateOf(w, prior.value) == Some(Active)
    ensures forall n :: SharesAddress(w, name, addr, n) && StateOf(w, n) == Some(Failed) ==>
      StateOf(w, prior.value) != Some(Left)
  {
    assert forall n :: SharesAddress(w, name, addr, n) <==>
      SameAddr(w.nodes, name, addr, n) || SameAddr(w.failed, name, addr, n) || SameAddr(w.left, name, addr, n);
  }

  /**
   A node that had left or failed is active again, with its record; any other is taken as new, and a prior node at
   its address is moved to the left nodes. Watchers hear of it in any case.
   */
  lemma NotifyJoinEffect(s: Db, name: string, addr: string, prior: Option<string>, order: seq<Key>)
    requires StatesOk(s.view) && Lists(order, s.store.byTable.Keys) && prior != Some(name)
    ensures
      var s', s1 := NotifyJoin(s, name, addr, prior, order), WithNote(s, NodeNote(Create, addr));
      && s1.store == s.store.(log := s.store.log + [NodeNote(Create, addr)])
      && if StateOf(s.view, name) == Some(Left) || StateOf(s.view, name) == Some(Failed) then
           MovedTo(s.view, s'.view, name, Active) && s'.store == s1.store
         else
           && StateOf(s'.view, name) == Some(Active) && NodeAt(s'.view, name) == Some(Node(addr, 0, 0))
           && (prior.None? ==> s'.store == s1.store)
           && (forall n :: n != name && prior != Some(n) ==> OthersSame(s.view, s'.view, name, n))
           && (prior.Some? && StateOf(s.view, prior.value).Some? ==> StateOf(s'.view, prior.value) == Some(Left))
           && (prior.Some? && StateOf(s.view, prior.value) in {Some(Active), Some(Failed)} ==>
                 Detached(s'.view, prior.value) && Purged(s.store, s'.store, prior.value))
  {
    hide Lists, ChangeState, Purged;
    var s1 := WithNote(s, NodeNote(Create, addr));
    ActiveAgain(s1, name);
    if prior.Some? {
      StateEffect(s1, prior.value, Left, order);
      var s3 := ChangeState(s1, prior.value, Left, order).0;
      SamePurge(s.store, s1.store, s3.store, prior.value);
      SameDetached(s3.view, NotifyJoin(s, name, addr, prior, order).view, prior.value);
      forall n | n != name && n != prior.value && !ChangeState(s1, name, Active, []).1
        ensures OthersSame(s.view, NotifyJoin(s, name, addr, prior, order).view, name, n)
      {
        assert s3 != s1 ==> OthersSame(s1.view, s3.view, prior.value, n);
      }
    }
  }

  lemma SameDetached(w: View, w': View, name: string)
    ensures w'.networks == w.networks && w'.members == w.members && Detached(w, name) ==> Detached(w', name)
  {
    if w'.members == w.members {
      forall nid ensures Listed(w', nid, name) <==> Listed(w, nid, name) {
      }
    }
  }

  lemma SamePurge(t: Store, t1: Store, t': Store, name: string)
    requires t1.byTable == t.byTable
    ensures Purged(t1, t', name) ==> Purged(t, t', name)
  {
  }

  /** Becoming active needs no walk. */
  lemma ActiveAgain(s: Db, name: string)
    requires StatesOk(s.view)
    ensures
      var (s', moved) := ChangeState(s, name, Active, []);
      && (moved <==> StateOf(s.view, name) == Some(Left) || StateOf(s.view, name) == Some(Failed))
      && (moved ==> MovedTo(s.view, s'.view, name, Active) && s'.store == s.store)
  {
    hide Move, MovedTo, PurgeWalk;
    if Find(s.view, name).Some? && Find(s.view, name).value.1 != Active {
      MoveEffect(s.view, name, Active);
    }
  }

  // ----- reaping --------------------------------------------------------------

  /** The visit of a key in a pass that visits each key once. */
  ghost predicate VisitedAt(visits: seq<Visit>, k: Key, late: nat) {
    && (forall i, j :: 0 <= i < j < |visits| ==> visits[i].key != visits[j].key)
    && Visit(k, late) in visits
  }

  /** A visited tombstone loses the period and the delay, or goes when no more than a second would be left. */
  lemma {:induction false} ReapEffect(t: Store, visits: seq<Visit>, k: Key, late: nat)
    requires t.byTable == t.byNetwork && k in t.byTable && VisitedAt(visits, k, late)
    ensures
      var t', e := ReapWalk(t, visits), t.byTable[k];
      && t'.byTable == t'.byNetwork
      && At(t'.byTable, k) ==
           if !e.deleting then Some(e)
           else if e.reapTime - REAP_PERIOD - late > SECOND then Some(e.(reapTime := e.reapTime - REAP_PERIOD - late))
           else None
  {
    var init, last := visits[..|visits| - 1], visits[|visits| - 1];
    var t1 := ReapWalk(t, init);
    if last == Visit(k, late) {
      Unvisited(t, init, k);
    } else {
      assert Visit(k, late) in init;
      ReapEffect(t, init, k, late);
    }
    ReapKeyAt(t1, last, k);
  }

  lemma {:induction false} Unvisited(t: Store, visits: seq<Visit>, k: Key)
    requires t.byTable == t.byNetwork && forall v :: v in visits ==> v.key != k
    ensures
      var t' := ReapWalk(t, visits);
      t'.byTable == t'.byNetwork && At(t'.byTable, k) == At(t.byTable, k)
  {
    if visits != [] {
      Unvisited(t, visits[..|visits| - 1], k);
      ReapKeyAt(ReapWalk(t, visits[..|visits| - 1]), visits[|visits| - 1], k);
      assert visits[|visits| - 1] in visits;
    }
  }

  ghost predicate Visited(visits: seq<Visit>, k: Key) {
    exists late: nat :: VisitedAt(visits, k, late)
  }

  /** Passes over the entries, one after the other. */
  function Reaps(t: Store, passes: seq<seq<Visit>>): (t': Store) {
    if passes == [] then t else ReapWalk(Reaps(t, passes[..|passes| - 1]), passes[|passes| - 1])
  }

  /** Every tombstone goes: no later than in as many passes as its time has periods, if each pass visits it. */
  lemma {:induction false} TombstoneGoes(t: Store, passes: seq<seq<Visit>>, k: Key)
    requires t.byTable == t.byNetwork && k in t.byTable && t.byTable[k].deleting
    requires forall p :: p in passes ==> Visited(p, k)
    ensures
      var t', n := Reaps(t, passes), |passes|;
      && t'.byTable == t'.byNetwork
      && (k in t'.byTable ==>
            t'.byTable[k].deleting && t'.byTable[k].reapTime <= t.byTable[k].reapTime - REAP_PERIOD * n)
      && (n > 0 && t.byTable[k].reapTime <= REAP_PERIOD * n + SECOND ==> k !in t'.byTable)
  {
    if passes != [] {
      var init, last := passes[..|passes| - 1], passes[|passes| - 1];
      TombstoneGoes(t, init, k);
      var t1 := Reaps(t, init);
      assert Visited(last, k);
      var late: nat :| VisitedAt(last, k, late);
      if k in t1.byTable {
        ReapEffect(t1, last, k, late);
      } else {
        StaysAbsent(t1, last, k);
      }
    }
  }

  lemma {:induction false} StaysAbsent(t: Store, visits: seq<Visit>, k: Key)
    requires t.byTable == t.byNetwork && k !in t.byTable
    ensures ReapWalk(t, visits).byTable == ReapWalk(t, visits).byNetwork && k !in ReapWalk(t, visits).byTable
  {
    if visits != [] {
      StaysAbsent(t, visits[..|visits| - 1], k);
      ReapKeyAt(ReapWalk(t, visits[..|visits| - 1]), visits[|visits| - 1], k);
    }
  }

  /** A network pass: what is being left loses a period, or goes if its time is up; nothing else changes. */
  lemma ReapNetworksEffect(s: Db, a: Att)
    ensures
      var s', nets := ReapNetworks(s), s.view.networks;
      && s'.config == s.config && s'.view == s.view.(networks := s'.view.networks)
      && s'.store == s.store.(counts := s'.store.counts)
      && (a in s'.view.networks <==> a in nets && !(nets[a].leaving && nets[a].reapTime <= 0))
      && (a in s'.view.networks ==>
            s'.view.networks[a] ==
              if nets[a].leaving then nets[a].(reapTime := nets[a].reapTime - REAP_PERIOD) else nets[a])
  {
  }

  /** A pass over dead nodes: each loses a period, or goes if it has no more than one left; active nodes stay. */
  lemma ReapNodesEffect(s: Db, name: string)
    requires StatesOk(s.view)
    ensures
      var s', n := ReapDeadNodes(s), NodeAt(s.view, name);
      && s'.store == s.store && s'.view.networks == s.view.networks && s'.view.members == s.view.members
      && if StateOf(s.view, name) == Some(Active) || n.None? then
           StateOf(s'.view, name) == StateOf(s.view, name) && NodeAt(s'.view, name) == n
         else if n.value.reapTime <= NODE_REAP_PERIOD then StateOf(s'.view, name) == None
         else
           && StateOf(s'.view, name) == StateOf(s.view, name)
           && NodeAt(s'.view, name) == Some(n.value.(reapTime := n.value.reapTime - NODE_REAP_PERIOD))
  {
  }
}
