/** The NetworkDB object, whose handlers update its maps and lists in place. */
module DbNode {
  import opened Bitmaps
  import opened NetworkDb
  import opened DbMembers
  import opened DbRuns
  import opened Convergence
  import opened Clusters

  datatype PeerInfo = PeerInfo(name: string, ip: string)

  class NetworkDB {
    const config: Config
    var byTable: map<Key, Entry>
    var byNetwork: map<Key, Entry>
    var entriesNumber: map<string, int>
    var events: seq<Note>
    var nodes: map<string, Node>
    var leftNodes: map<string, Node>
    var failedNodes: map<string, Node>
    var networks: map<Att, Network>
    var networkNodes: map<string, seq<string>>
    var tableClock: nat
    var networkClock: nat

    ghost function TheStore(): (t: Store)
      reads this
    {
      Store(byTable, byNetwork, entriesNumber, events)
    }

    ghost function TheView(): (w: View)
      reads this
    {
      View(nodes, leftNodes, failedNodes, networks, networkNodes)
    }

    ghost function State(): (s: Db)
      reads this
    {
      Db(config, TheStore(), TheView(), tableClock, networkClock)
    }

    constructor (c: Config)
      ensures State() == Start(c)
    {
      config := c;
      byTable, byNetwork, entriesNumber, events := map[], map[], map[], [];
      nodes, leftNodes, failedNodes, networks, networkNodes := map[], map[], map[], map[], map[];
      tableClock, networkClock := 0, 0;
    }

    // ----- entries ------------------------------------------------------------

    method CreateOrUpdateEntry(k: Key, e: Entry) returns (okTable: bool, okNetwork: bool)
      modifies this`byTable, this`byNetwork, this`entriesNumber
      ensures TheStore() == Put(old(TheStore()), k, e)
      ensures okTable == (k in old(byTable)) && okNetwork == (k in old(byNetwork))
    {
      okTable, okNetwork := k in byTable, k in byNetwork;
      byTable := byTable[k := e];
      byNetwork := byNetwork[k := e];
      if !okNetwork && k.nid in entriesNumber {
        entriesNumber := entriesNumber[k.nid := entriesNumber[k.nid] + 1];
      }
    }

    method RemoveEntry(k: Key) returns (okTable: bool, okNetwork: bool)
      modifies this`byTable, this`byNetwork, this`entriesNumber
      ensures TheStore() == Drop(old(TheStore()), k)
      ensures okTable == (k in old(byTable)) && okNetwork == (k in old(byNetwork))
    {
      okTable, okNetwork := k in byTable, k in byNetwork;
      byTable := byTable - {k};
      byNetwork := byNetwork - {k};
      if okNetwork && k.nid in entriesNumber {
        entriesNumber := entriesNumber[k.nid := entriesNumber[k.nid] - 1];
      }
    }

    method Tell(n: Note)
      modifies this`events
      ensures TheStore() == Noted(old(TheStore()), n)
    {
      events := events + [n];
    }

    /** Walks the entries of a network that a node leaves. */
    method DeleteNodeNetworkEntries(nid: string, node: string) returns (ghost order: seq<Key>)
      modifies this`byTable, this`byNetwork, this`entriesNumber, this`events
      ensures Lists(order, NetworkKeys(old(TheStore()), nid))
      ensures TheStore() == LeaveWalk(old(TheStore()), config, node, order)
    {
      var isNodeLocal := node == config.self;
      var keys := set k | k in byNetwork && k.nid == nid;
      ghost var all := keys;
      order := [];
      while keys != {}
        invariant keys <= all && Lists(order, all - keys)
        invariant TheStore() == LeaveWalk(old(TheStore()), config, node, order)
        decreases |keys|
      {
        var k :| k in keys;
        keys := keys - {k};
        ListsMore(order, all - keys - {k}, k);
        LeaveWalkMore(old(TheStore()), config, node, order, k);
        order := order + [k];
        if k in byNetwork {
          VisitLeaving(k, node, isNodeLocal);
        }
      }
      assert all - keys == all;
    }

    method VisitLeaving(k: Key, node: string, isNodeLocal: bool)
      requires k in byNetwork && isNodeLocal == (node == config.self)
      modifies this`byTable, this`byNetwork, this`entriesNumber, this`events
      ensures TheStore() == LeaveKey(old(TheStore()), config, node, k)
    {
      var oldEntry := byNetwork[k];
      if oldEntry.node != node && !isNodeLocal {
        return;
      }
      if oldEntry.deleting && !isNodeLocal {
        return;
      }
      var e := Entry(oldEntry.node, oldEntry.ltime, oldEntry.value, true, config.interval);
      if oldEntry.node == node {
        if isNodeLocal {
          e := e.(ltime := e.ltime + 1);
        }
        if !oldEntry.deleting {
          var _, _ := CreateOrUpdateEntry(k, e);
        }
      } else {
        var _, _ := RemoveEntry(k);
      }
      if !oldEntry.deleting {
        Tell(TableNote(Delete, k, e.value));
      }
    }

    /** Walks all entries and removes those of a node. */
    method DeleteNodeTableEntries(node: string) returns (ghost order: seq<Key>)
      modifies this`byTable, this`byNetwork, this`entriesNumber, this`events
      ensures Lists(order, old(byTable).Keys)
      ensures TheStore() == PurgeWalk(old(TheStore()), node, order)
    {
      var keys := byTable.Keys;
      ghost var all := keys;
      order := [];
      while keys != {}
        invariant keys <= all && Lists(order, all - keys)
        invariant TheStore() == PurgeWalk(old(TheStore()), node, order)
        decreases |keys|
      {
        var k :| k in keys;
        keys := keys - {k};
        ListsMore(order, all - keys - {k}, k);
        PurgeWalkMore(old(TheStore()), node, order, k);
        order := order + [k];
        if k in byTable {
          var oldEntry := byTable[k];
          if oldEntry.node == node {
            var _, _ := RemoveEntry(k);
            if !oldEntry.deleting {
              Tell(TableNote(Delete, k, oldEntry.value));
            }
          }
        }
      }
      assert all - keys == all;
    }

    // ----- membership lists ---------------------------------------------------

    method AddNetworkNode(nid: string, nodeName: string)
      modifies this`networkNodes
      ensures TheView() == AddMember(old(TheView()), nid, nodeName)
    {
      var names := if nid in networkNodes then networkNodes[nid] else [];
      var i := 0;
      while i < |names|
        invariant i <= |names| && nodeName !in names[..i]
      {
        if names[i] == nodeName {
          return;
        }
        i := i + 1;
      }
      networkNodes := networkNodes[nid := names + [nodeName]];
    }

    method Filtered(names: seq<string>, nodeName: string) returns (newNodes: seq<string>)
      ensures newNodes == Without(names, nodeName)
    {
      newNodes := [];
      var i := 0;
      while i < |names|
        invariant i <= |names| && newNodes == Without(names[..i], nodeName)
      {
        assert names[..i + 1][..i] == names[..i];
        if names[i] != nodeName {
          newNodes := newNodes + [names[i]];
        }
        i := i + 1;
      }
      assert names[..i] == names;
    }

    method DeleteNetworkNode(nid: string, nodeName: string)
      modifies this`networkNodes
      ensures TheView() == DropMember(old(TheView()), nid, nodeName)
    {
      if nid !in networkNodes || |networkNodes[nid]| == 0 {
        return;
      }
      var newNodes := Filtered(networkNodes[nid], nodeName);
      networkNodes := networkNodes[nid := newNodes];
    }

    method DeleteFromLists(deletedNode: string)
      modifies this`networkNodes
      ensures networkNodes == map nid | nid in old(networkNodes) :: Without(old(networkNodes)[nid], deletedNode)
    {
      hide Without;
      var nids := networkNodes.Keys;
      while nids != {}
        invariant nids <= old(networkNodes).Keys == networkNodes.Keys
        invariant forall nid :: nid in networkNodes ==>
          networkNodes[nid] ==
            if nid in nids then old(networkNodes)[nid] else Without(old(networkNodes)[nid], deletedNode)
        decreases |nids|
      {
        var nid :| nid in nids;
        nids := nids - {nid};
        var updatedNodes := Filtered(networkNodes[nid], deletedNode);
        networkNodes := networkNodes[nid := updatedNodes];
      }
    }

    method DeleteNodeFromNetworks(deletedNode: string)
      modifies this`networkNodes, this`networks, this`entriesNumber
      ensures TheView() == Detach(old(TheView()), deletedNode)
      ensures entriesNumber == if deletedNode == config.self then map[] else old(entriesNumber)
    {
      hide Without;
      DeleteFromLists(deletedNode);
      networks := map a | a in networks && a.node != deletedNode :: networks[a];
      if deletedNode == config.self {
        entriesNumber := map[];
      }
    }

    // ----- node states --------------------------------------------------------

    method FindNode(nodeName: string) returns (r: Option<(Node, NodeState)>)
      ensures r == Find(TheView(), nodeName)
    {
      if nodeName in nodes {
        return Some((nodes[nodeName], Active));
      }
      if nodeName in leftNodes {
        return Some((leftNodes[nodeName], Left));
      }
      if nodeName in failedNodes {
        return Some((failedNodes[nodeName], Failed));
      }
      return None;
    }

    /** Moves a node between the three maps. */
    method MoveNode(nodeName: string, n: Node, from: NodeState, to: NodeState)
      modifies this`nodes, this`leftNodes, this`failedNodes
      ensures TheView() == Place(Take(old(TheView()), nodeName, from), nodeName, n, to)
    {
      match from {
        case Active => nodes := nodes - {nodeName};
        case Left => leftNodes := leftNodes - {nodeName};
        case Failed => failedNodes := failedNodes - {nodeName};
      }
      if to == Active {
        nodes := nodes[nodeName := n.(reapTime := 0)];
        return;
      }
      var moved := n;
      if n.reapTime == 0 {
        moved := n.(reapTime := NODE_REAP_INTERVAL);
      }
      if to == Left {
        leftNodes := leftNodes[nodeName := moved];
      } else {
        failedNodes := failedNodes[nodeName := moved];
      }
    }

    method ChangeNodeState(nodeName: string, newState: NodeState) returns (moved: bool, ghost order: seq<Key>)
      modifies this
      ensures tableClock == old(tableClock) && networkClock == old(networkClock)
      ensures Lists(order, old(byTable).Keys)
      ensures (State(), moved) == ChangeState(old(State()), nodeName, newState, order)
    {
      hide Detach, Place, Take, PurgeWalk;
      order := AnyOrder(byTable.Keys);
      var f := FindNode(nodeName);
      if f.None? || f.value.1 == newState {
        return false, order;
      }
      MoveNode(nodeName, f.value.0, f.value.1, newState);
      if newState != Active {
        DeleteNodeFromNetworks(nodeName);
        order := DeleteNodeTableEntries(nodeName);
      }
      return true, order;
    }

    /** Some other node at the address, among the given ones. */
    method FindAddr(among: map<string, Node>, name: string, addr: string) returns (r: Option<string>)
      ensures r.Some? ==> SameAddr(among, name, addr, r.value)
      ensures r.None? ==> forall n :: !SameAddr(among, name, addr, n)
    {
      var names := among.Keys;
      while names != {}
        invariant names <= among.Keys && forall n :: SameAddr(among, name, addr, n) ==> n in names
        decreases |names|
      {
        var n :| n in names;
        if among[n].addr == addr && n != name {
          return Some(n);
        }
        names := names - {n};
      }
      return None;
    }

    /** A prior node at the address of a new one is moved to the left nodes. */
    method PurgeReincarnation(name: string, addr: string) returns (prior: Option<string>, ghost order: seq<Key>)
      modifies this
      ensures tableClock == old(tableClock) && networkClock == old(networkClock)
      ensures Lists(order, old(byTable).Keys) && Reincarnation(old(TheView()), name, addr, prior)
      ensures State() == if prior.Some? then ChangeState(old(State()), prior.value, Left, order).0 else old(State())
    {
      hide ChangeState;
      order := AnyOrder(byTable.Keys);
      prior := FindAddr(nodes, name, addr);
      if prior.None? {
        prior := FindAddr(failedNodes, name, addr);
        if prior.None? {
          prior := FindAddr(leftNodes, name, addr);
        }
      }
      if prior.Some? {
        var moved;
        moved, order := ChangeNodeState(prior.value, Left);
      }
    }

    method NotifyJoin(name: string, addr: string) returns (ghost prior: Option<string>, ghost order: seq<Key>)
      modifies this
      ensures Lists(order, old(byTable).Keys)
      ensures State() == NetworkDb.NotifyJoin(old(State()), name, addr, prior, order)
      ensures Reincarnation(old(TheView()), name, addr, prior)
    {
      hide ChangeState, Reincarnation;
      prior := AnyPrior(TheView(), name, addr);
      Tell(NodeNote(Create, addr));
      ghost var s1 := State();
      var moved;
      moved, order := ChangeNodeState(name, Active);
      ToActive(s1, name, order);
      if moved {
        return;
      }
      prior, order := PurgeReincarnation(name, addr);
      nodes := nodes[name := Node(addr, 0, 0)];
    }

    method NotifyLeave(name: string, addr: string) returns (ghost order: seq<Key>)
      modifies this
      ensures Lists(order, old(byTable).Keys)
      ensures State() == NetworkDb.NotifyLeave(old(State()), name, addr, order)
    {
      hide ChangeState;
      Tell(NodeNote(Delete, addr));
      order := AnyOrder(byTable.Keys);
      var f := FindNode(name);
      if f.None? {
        return;
      }
      if f.value.1 == Active {
        var moved;
        moved, order := ChangeNodeState(name, Failed);
      }
    }

    method SetNodeTime(name: string, ltime: nat)
      modifies this`nodes, this`leftNodes, this`failedNodes
      ensures TheView() == WithTime(old(TheView()), name, ltime)
    {
      if name in nodes {
        nodes := nodes[name := nodes[name].(ltime := ltime)];
      } else if name in leftNodes {
        leftNodes := leftNodes[name := leftNodes[name].(ltime := ltime)];
      } else if name in failedNodes {
        failedNodes := failedNodes[name := failedNodes[name].(ltime := ltime)];
      }
    }

    method HandleNodeEvent(ev: NodeEvent) returns (rebroadcast: bool, ghost order: seq<Key>)
      modifies this
      ensures Lists(order, old(byTable).Keys)
      ensures (State(), rebroadcast) == NetworkDb.HandleNodeEvent(old(State()), ev, order)
    {
      hide ChangeState;
      networkClock := Witness(networkClock, ev.ltime);
      order := AnyOrder(byTable.Keys);
      var f := FindNode(ev.node);
      if f.None? {
        return false, order;
      }
      if f.value.0.ltime >= ev.ltime {
        return false, order;
      }
      SetNodeTime(ev.node, ev.ltime);
      if ev.node !in nodes {
        return false, order;
      }
      match ev.change
      case Joining =>
        rebroadcast, order := ChangeNodeState(ev.node, Active);
      case Leaving =>
        rebroadcast, order := ChangeNodeState(ev.node, Left);
      case Unspecified =>
        rebroadcast := false;
    }

    // ----- networks -----------------------------------------------------------

    method HandleNetworkEvent(ev: NetworkEvent) returns (rebroadcast: bool, ghost order: seq<Key>)
      modifies this
      ensures Lists(order, NetworkKeys(old(TheStore()), ev.nid))
      ensures (State(), rebroadcast) == NetworkDb.HandleNetworkEvent(old(State()), ev, order)
    {
      hide LeaveWalk, AddMember, DropMember;
      networkClock := Witness(networkClock, ev.ltime);
      order := AnyOrder(NetworkKeys(TheStore(), ev.nid));
      if ev.node == config.self {
        return false, order;
      }
      var a := Att(ev.node, ev.nid);
      if a in networks {
        var n := networks[a];
        if n.ltime >= ev.ltime {
          return false, order;
        }
        n := n.(ltime := ev.ltime, leaving := ev.leave);
        if n.leaving {
          n := n.(reapTime := config.interval + 5 * REAP_PERIOD);
        }
        networks := networks[a := n];
        if ev.leave {
          order := DeleteNodeNetworkEntries(ev.nid, ev.node);
          DeleteNetworkNode(ev.nid, ev.node);
        } else {
          AddNetworkNode(ev.nid, ev.node);
        }
        return true, order;
      }
      if ev.leave {
        return false, order;
      }
      if ev.node !in nodes {
        return false, order;
      }
      networks := networks[a := Network(ev.ltime, false, false, 0)];
      AddNetworkNode(ev.nid, ev.node);
      return true, order;
    }

    method JoinNetwork(nid: string)
      modifies this
      ensures State() == NetworkDb.JoinNetwork(old(State()), nid)
    {
      networkClock := networkClock + 1;
      networks := networks[Att(config.self, nid) := Network(networkClock, false, false, 0)];
      if nid !in entriesNumber {
        entriesNumber := entriesNumber[nid := 0];
      }
      AddNetworkNode(nid, config.self);
    }

    method LeaveNetwork(nid: string) returns (ok: bool, ghost order: seq<Key>)
      modifies this
      ensures Lists(order, NetworkKeys(old(TheStore()), nid))
      ensures State() == NetworkDb.LeaveNetwork(old(State()), nid, order)
      ensures ok == (Att(config.self, nid) in old(networks))
    {
      hide LeaveWalk, DropMember;
      networkClock := networkClock + 1;
      ghost var w := TheView();
      DropMemberLists(w, nid, config.self);
      DeleteNetworkNode(nid, config.self);
      order := DeleteNodeNetworkEntries(nid, config.self);
      var a := Att(config.self, nid);
      if a !in networks {
        return false, order;
      }
      var n := networks[a].(ltime := networkClock, reapTime := config.interval + 5 * REAP_PERIOD, leaving := true);
      networks := networks[a := n];
      return true, order;
    }

    // ----- table entries ------------------------------------------------------

    method CreateEntry(k: Key, value: Bytes) returns (ok: bool)
      modifies this`byTable, this`byNetwork, this`entriesNumber, this`tableClock
      ensures State() == NetworkDb.CreateEntry(old(State()), k, value)
      ensures ok == (k !in old(byTable))
    {
      if k in byTable {
        return false;
      }
      tableClock := tableClock + 1;
      var _, _ := CreateOrUpdateEntry(k, Entry(config.self, tableClock, value, false, 0));
      return true;
    }

    method UpdateEntry(k: Key, value: Bytes) returns (ok: bool)
      modifies this`byTable, this`byNetwork, this`entriesNumber, this`tableClock
      ensures State() == NetworkDb.UpdateEntry(old(State()), k, value)
      ensures ok == (k in old(byTable))
    {
      if k !in byTable {
        return false;
      }
      tableClock := tableClock + 1;
      var _, _ := CreateOrUpdateEntry(k, Entry(config.self, tableClock, value, false, 0));
      return true;
    }

    method DeleteEntry(k: Key) returns (ok: bool)
      modifies this`byTable, this`byNetwork, this`entriesNumber, this`tableClock
      ensures State() == NetworkDb.DeleteEntry(old(State()), k)
      ensures ok == (k in old(byTable) && !old(byTable)[k].deleting)
    {
      if k !in byTable || byTable[k].deleting {
        return false;
      }
      tableClock := tableClock + 1;
      var _, _ := CreateOrUpdateEntry(k, Entry(config.self, tableClock, byTable[k].value, true, config.interval));
      return true;
    }

    method HandleTableEvent(ev: TableEvent, isBulkSync: bool) returns (rebroadcast: bool)
      modifies this`byTable, this`byNetwork, this`entriesNumber, this`events, this`tableClock
      ensures (State(), rebroadcast) == NetworkDb.HandleTableEvent(old(State()), ev, isBulkSync)
    {
      hide Put;
      tableClock := Witness(tableClock, ev.ltime);
      var a := Att(config.self, ev.key.nid);
      var names := if ev.key.nid in networkNodes then networkNodes[ev.key.nid] else [];
      var nodePresent, i := false, 0;
      while i < |names| && !nodePresent
        invariant i <= |names| && (nodePresent <==> ev.node in names[..i])
      {
        nodePresent := names[i] == ev.node;
        i := i + 1;
      }
      assert nodePresent <==> ev.node in names;
      if a !in networks || networks[a].leaving || !nodePresent {
        return false;
      }
      var known := ev.key in byTable;
      if known {
        if byTable[ev.key].ltime >= ev.ltime {
          return false;
        }
      } else if ev.op == Delete && !isBulkSync {
        return false;
      }
      var e := Entry(ev.node, ev.ltime, ev.value, ev.op == Delete, ev.residual * SECOND);
      if e.deleting && e.reapTime == 0 {
        e := e.(reapTime := config.interval);
      }
      var _, _ := CreateOrUpdateEntry(ev.key, e);
      if !known && ev.op == Delete {
        return networks[a].inSync && e.reapTime > Sixth(config.interval);
      }
      Tell(TableNote(ev.op, ev.key, ev.value));
      return networks[a].inSync;
    }

    method HandleTableMessage(ev: TableEvent, isBulkSync: bool) returns (rebroadcast: bool)
      modifies this`byTable, this`byNetwork, this`entriesNumber, this`events, this`tableClock
      ensures (State(), rebroadcast) == NetworkDb.HandleTableMessage(old(State()), ev, isBulkSync)
    {
      if ev.node == config.self {
        return false;
      }
      rebroadcast := HandleTableEvent(ev, isBulkSync);
    }

    /** The event a local write queues for gossip, if the network is still there. */
    method SendTableEvent(op: Op, k: Key, e: Entry) returns (queued: Option<TableEvent>)
      ensures Gossip(State(), op, k, e) == if queued.Some? then {queued.value} else {}
    {
      var ev := TableEvent(op, e.ltime, config.self, k, e.value, Seconds(e.reapTime));
      if Att(config.self, k.nid) !in networks {
        return None;
      }
      return Some(ev);
    }

    /** Receives the table events of a bulk sync. */
    method HandleBulkSync(ltime: nat, evs: seq<TableEvent>)
      modifies this`byTable, this`byNetwork, this`entriesNumber, this`events, this`tableClock
      ensures
        var clock := if ltime > 0 then Witness(old(tableClock), ltime) else old(tableClock);
        State() == Receive(old(State()).(tableClock := clock), evs)
    {
      hide NetworkDb.HandleTableMessage;
      if ltime > 0 {
        tableClock := Witness(tableClock, ltime);
      }
      ghost var s := State();
      var i := 0;
      while i < |evs|
        invariant i <= |evs| && State() == Receive(s, evs[..i])
      {
        assert evs[..i + 1][..i] == evs[..i];
        var _ := HandleTableMessage(evs[i], true);
        i := i + 1;
      }
      assert evs[..i] == evs;
    }

    /** Merges the state of another node in a push-pull exchange. */
    method MergeRemoteState(ltime: nat, node: string, evs: seq<NetworkEvent>)
      returns (ghost order: seq<Key>, ghost orders: seq<seq<Key>>)
      modifies this
      ensures Lists(order, old(byTable).Keys) && |orders| == |evs|
      ensures
        var s := NetworkDb.HandleNodeEvent(old(State()), NodeEvent(Joining, ltime, node), order).0;
        State() == MergeNetworks(s, evs, orders) && MergeVisits(s, evs, orders)
    {
      hide NetworkDb.HandleNetworkEvent, NetworkDb.HandleNodeEvent, Lists;
      var rebroadcast;
      rebroadcast, order := HandleNodeEvent(NodeEvent(Joining, ltime, node));
      ghost var s := State();
      orders := [];
      var i := 0;
      while i < |evs|
        invariant i <= |evs| && |orders| == i && State() == MergeNetworks(s, evs[..i], orders)
        invariant Lists(order, old(byTable).Keys) && MergeVisits(s, evs[..i], orders)
      {
        assert evs[..i + 1][..i] == evs[..i];
        ghost var more;
        rebroadcast, more := HandleNetworkEvent(evs[i]);
        assert (orders + [more])[..i] == orders;
        assert MergeVisits(s, evs[..i + 1], orders + [more]);
        orders := orders + [more];
        i := i + 1;
      }
      assert evs[..i] == evs;
    }

    /** The end of a join: the network has been synced. */
    method MarkInSync(nid: string)
      modifies this`networks
      ensures State() == NetworkDb.MarkInSync(old(State()), nid)
    {
      var a := Att(config.self, nid);
      if a in networks {
        networks := networks[a := networks[a].(inSync := true)];
      }
    }

    method Restamp(ltime: nat) returns (r: map<Att, Network>)
      ensures r == Restamped(networks, config.self, ltime)
    {
      r := networks;
      var todo := networks.Keys;
      while todo != {}
        invariant todo <= networks.Keys == r.Keys
        invariant forall a :: a in r ==>
          r[a] == if a in todo || a.node != config.self then networks[a] else networks[a].(ltime := ltime)
        decreases |todo|
      {
        var a :| a in todo;
        todo := todo - {a};
        if a.node == config.self {
          r := r[a := r[a].(ltime := ltime)];
        }
      }
    }

    method UpdateLocalNetworkTime()
      modifies this`networks, this`networkClock
      ensures State() == NetworkDb.UpdateLocalNetworkTime(old(State()))
    {
      networkClock := networkClock + 1;
      networks := Restamp(networkClock);
    }

    // ----- reaping ------------------------------------------------------------

    /** Ages or removes a tombstone. */
    method VisitTombstone(k: Key, timeCompensation: nat)
      modifies this`byTable, this`byNetwork, this`entriesNumber
      ensures TheStore() == ReapKey(old(TheStore()), Visit(k, timeCompensation))
    {
      if k !in byNetwork || !byNetwork[k].deleting {
        return;
      }
      var e := byNetwork[k];
      if e.reapTime > REAP_PERIOD + timeCompensation + SECOND {
        e := e.(reapTime := e.reapTime - (REAP_PERIOD + timeCompensation));
        byNetwork := byNetwork[k := e];
        if k in byTable {
          byTable := byTable[k := e];
        }
        return;
      }
      var _, _ := RemoveEntry(k);
    }

    /** Visits the entries of a network; `late` reads the clock at each visit. */
    method ReapNetworkEntries(nid: string, late: Key -> nat) returns (ghost visits: seq<Visit>)
      modifies this`byTable, this`byNetwork, this`entriesNumber
      ensures VisitsOnce(visits, NetworkKeys(old(TheStore()), nid))
      ensures TheStore() == ReapWalk(old(TheStore()), visits)
    {
      var keys := set k | k in byNetwork && k.nid == nid;
      ghost var all := keys;
      visits := [];
      while keys != {}
        invariant keys <= all && VisitsOnce(visits, all - keys)
        invariant TheStore() == ReapWalk(old(TheStore()), visits)
        decreases |keys|
      {
        hide VisitsOnce, ReapKey;
        ghost var done := all - keys;
        var k :| k in keys;
        keys := keys - {k};
        var timeCompensation := late(k);
        VisitMore(visits, done, Visit(k, timeCompensation));
        ReapWalkMore(old(TheStore()), visits, Visit(k, timeCompensation));
        visits := visits + [Visit(k, timeCompensation)];
        VisitTombstone(k, timeCompensation);
        assert all - keys == done + {k};
      }
      assert all - keys == all;
    }

    method ReapTableEntries(late: Key -> nat) returns (ghost visits: seq<Visit>)
      modifies this`byTable, this`byNetwork, this`entriesNumber
      ensures Visits(old(State()), visits)
      ensures State() == ReapTable(old(State()), visits)
    {
      hide ReapWalk, VisitsOnce, KeysOf, Visits;
      var nodeNetworks := set a | a in networks && a.node == config.self :: a.nid;
      ghost var t, all := TheStore(), nodeNetworks;
      visits := [];
      EmptyWalk(t);
      assert all - nodeNetworks == {};
      while nodeNetworks != {}
        invariant nodeNetworks <= all
        invariant VisitsOnce(visits, KeysOf(t, all - nodeNetworks))
        invariant TheStore() == ReapWalk(t, visits)
        decreases |nodeNetworks|
      {
        ghost var done := all - nodeNetworks;
        var nid :| nid in nodeNetworks;
        nodeNetworks := nodeNetworks - {nid};
        ReapWalkNet(t, visits, done, nid);
        ghost var more := ReapNetworkEntries(nid, late);
        ReapWalkJoin(t, visits, more);
        VisitsJoin(t, visits, more, done, nid);
        assert all - nodeNetworks == done + {nid};
        visits := visits + more;
      }
      assert all - nodeNetworks == all;
      AllVisited(old(State()), visits, all);
    }

    method ReapNetworks()
      modifies this`networks, this`entriesNumber
      ensures State() == NetworkDb.ReapNetworks(old(State()))
    {
      var todo := networks.Keys;
      while todo != {}
        invariant todo <= old(networks).Keys
        invariant forall a :: a in networks <==> a in old(networks) && (a in todo || !Expired(old(TheView()), a))
        invariant forall a :: a in networks ==>
          networks[a] == if a in todo then old(networks)[a] else Aged(old(networks)[a])
        invariant forall nid :: nid in entriesNumber <==>
          && nid in old(entriesNumber)
          && (Att(config.self, nid) in todo || !Expired(old(TheView()), Att(config.self, nid)))
        invariant forall nid :: nid in entriesNumber ==> entriesNumber[nid] == old(entriesNumber)[nid]
        decreases |todo|
      {
        var a :| a in todo;
        todo := todo - {a};
        var n := networks[a];
        if n.leaving {
          if n.reapTime <= 0 {
            networks := networks - {a};
            if a.node == config.self {
              entriesNumber := entriesNumber - {a.nid};
            }
          } else {
            networks := networks[a := n.(reapTime := n.reapTime - REAP_PERIOD)];
          }
        }
      }
    }

    method ReapNodeMap(nodeMap: map<string, Node>) returns (r: map<string, Node>)
      ensures r == ReapNodes(nodeMap)
    {
      r := nodeMap;
      var todo := nodeMap.Keys;
      while todo != {}
        invariant todo <= nodeMap.Keys
        invariant forall n :: n in r <==> n in nodeMap && (n in todo || nodeMap[n].reapTime > NODE_REAP_PERIOD)
        invariant forall n :: n in r ==>
          r[n] == if n in todo then nodeMap[n] else nodeMap[n].(reapTime := nodeMap[n].reapTime - NODE_REAP_PERIOD)
        decreases |todo|
      {
        var id :| id in todo;
        todo := todo - {id};
        if r[id].reapTime > NODE_REAP_PERIOD {
          r := r[id := r[id].(reapTime := r[id].reapTime - NODE_REAP_PERIOD)];
        } else {
          r := r - {id};
        }
      }
    }

    method ReapDeadNode()
      modifies this`failedNodes, this`leftNodes
      ensures State() == ReapDeadNodes(old(State()))
    {
      failedNodes := ReapNodeMap(failedNodes);
      leftNodes := ReapNodeMap(leftNodes);
    }

    // ----- reading ------------------------------------------------------------

    /** The peers of a network; with the membership invariant no remote peer is unknown. */
    method Peers(nid: string) returns (peers: seq<PeerInfo>)
      ensures |peers| == |Members(TheView(), nid)|
      ensures forall i: nat :: i < |peers| ==>
        && peers[i].name == Members(TheView(), nid)[i]
        && peers[i].ip == if peers[i].name in nodes then nodes[peers[i].name].addr else "unknown"
      ensures MemberOk(TheView(), config.self) ==>
        forall i: nat :: i < |peers| && peers[i].name != config.self ==> peers[i].name in nodes
    {
      var names := if nid in networkNodes then networkNodes[nid] else [];
      peers := [];
      var i: nat := 0;
      while i < |names|
        invariant i <= |names| && |peers| == i
        invariant forall j: nat :: j < i ==>
          && peers[j].name == names[j]
          && peers[j].ip == if names[j] in nodes then nodes[names[j]].addr else "unknown"
      {
        peers := peers + [PeerInfo(names[i], if names[i] in nodes then nodes[names[i]].addr else "unknown")];
        i := i + 1;
      }
      if MemberOk(TheView(), config.self) {
        forall j: nat | j < |peers| && peers[j].name != config.self ensures peers[j].name in nodes {
          assert Listed(TheView(), nid, names[j]);
          assert Attached(TheView(), nid, names[j]);
        }
      }
    }

    /** The table events of a bulk sync: one for each entry of the networks. */
    method BulkSyncPayload(nids: seq<string>) returns (msgs: seq<TableEvent>, ghost order: seq<Key>)
      ensures msgs == Payload(TheStore(), order)
      ensures forall k :: k in byNetwork && k.nid in nids ==> k in order
      ensures forall k :: k in byNetwork && k.nid in nids ==> EventFor(k, byNetwork[k]) in msgs
      ensures forall ev :: ev in msgs ==> ev.key in byNetwork && ev == EventFor(ev.key, byNetwork[ev.key])
    {
      msgs, order := [], [];
      var i := 0;
      while i < |nids|
        invariant i <= |nids| && msgs == Payload(TheStore(), order)
        invariant forall k :: k in byNetwork && k.nid in nids[..i] ==> k in order
      {
        var keys := set k | k in byNetwork && k.nid == nids[i];
        while keys != {}
          invariant msgs == Payload(TheStore(), order)
          invariant forall k :: k in keys ==> k in byNetwork && k.nid == nids[i]
          invariant forall k :: k in byNetwork && k.nid in nids[..i] ==> k in order
          invariant forall k :: k in byNetwork && k.nid == nids[i] ==> k in keys || k in order
          decreases |keys|
        {
          var k :| k in keys;
          keys := keys - {k};
          var e := byNetwork[k];
          var op := if e.deleting then Delete else Create;
          msgs := msgs + [TableEvent(op, e.ltime, e.node, k, e.value, Seconds(e.reapTime))];
          assert (order + [k])[..|order|] == order;
          order := order + [k];
        }
        i := i + 1;
      }
      forall k | k in byNetwork && k.nid in nids ensures EventFor(k, byNetwork[k]) in msgs {
        PayloadHas(TheStore(), order, k);
      }
      forall ev | ev in msgs ensures ev.key in byNetwork && ev == EventFor(ev.key, byNetwork[ev.key]) {
        PayloadOnly(TheStore(), order, ev);
      }
    }
  }

  // ----- walks in pieces ------------------------------------------------------

  /** The visits are to the keys, one each. */
  ghost predicate VisitsOnce(visits: seq<Visit>, keys: set<Key>) {
    && (forall i, j :: 0 <= i < j < |visits| ==> visits[i].key != visits[j].key)
    && (forall v :: v in visits ==> v.key in keys)
    && (forall k :: k in keys ==> exists v :: v in visits && v.key == k)
  }

  ghost function KeysOf(t: Store, nids: set<string>): (ks: set<Key>) {
    set k | k in t.byNetwork && k.nid in nids
  }

  lemma VisitMore(visits: seq<Visit>, keys: set<Key>, v: Visit)
    requires VisitsOnce(visits, keys) && v.key !in keys
    ensures VisitsOnce(visits + [v], keys + {v.key})
  {
    forall k | k in keys ensures exists u :: u in visits + [v] && u.key == k {
      var u :| u in visits && u.key == k;
      assert u in visits + [v];
    }
    assert v in visits + [v];
  }

  lemma ReapWalkMore(t: Store, visits: seq<Visit>, v: Visit)
    ensures ReapWalk(t, visits + [v]) == ReapKey(ReapWalk(t, visits), v)
  {
    assert (visits + [v])[..|visits|] == visits;
  }

  lemma EmptyWalk(t: Store)
    ensures ReapWalk(t, []) == t && VisitsOnce([], KeysOf(t, {}))
  {
  }

  lemma {:induction false} ReapWalkJoin(t: Store, a: seq<Visit>, b: seq<Visit>)
    ensures ReapWalk(t, a + b) == ReapWalk(ReapWalk(t, a), b)
    decreases |b|
  {
    if b == [] {
      assert a + b == a;
    } else {
      ReapWalkJoin(t, a, b[..|b| - 1]);
      assert (a + b)[..|a + b| - 1] == a + b[..|b| - 1];
    }
  }

  /** Visits to other networks leave the keys of a network alone. */
  lemma ReapWalkNet(t: Store, visits: seq<Visit>, done: set<string>, nid: string)
    requires nid !in done && VisitsOnce(visits, KeysOf(t, done))
    ensures NetworkKeys(ReapWalk(t, visits), nid) == NetworkKeys(t, nid)
  {
    ReapWalkOther(t, visits, nid);
  }

  lemma {:induction false} ReapWalkOther(t: Store, visits: seq<Visit>, nid: string)
    requires forall v :: v in visits ==> v.key.nid != nid
    ensures NetworkKeys(ReapWalk(t, visits), nid) == NetworkKeys(t, nid)
  {
    if visits != [] {
      ReapWalkOther(t, visits[..|visits| - 1], nid);
    }
  }

  lemma VisitsJoin(t: Store, visits: seq<Visit>, more: seq<Visit>, done: set<string>, nid: string)
    requires VisitsOnce(visits, KeysOf(t, done)) && VisitsOnce(more, NetworkKeys(t, nid)) && nid !in done
    ensures VisitsOnce(visits + more, KeysOf(t, done + {nid}))
  {
    forall k | k in KeysOf(t, done + {nid}) ensures exists v :: v in visits + more && v.key == k {
      if k.nid == nid {
        assert k in NetworkKeys(t, nid);
        var v :| v in more && v.key == k;
        assert v in visits + more;
      } else {
        assert k in KeysOf(t, done);
        var v :| v in visits && v.key == k;
        assert v in visits + more;
      }
    }
    forall i, j | 0 <= i < j < |visits + more| ensures (visits + more)[i].key != (visits + more)[j].key {
      if i < |visits| <= j {
        assert visits[i] in visits && more[j - |visits|] in more;
      }
    }
  }

  lemma AllVisited(s: Db, visits: seq<Visit>, nids: set<string>)
    requires VisitsOnce(visits, KeysOf(s.store, nids))
    requires forall a :: a in s.view.networks && a.node == s.config.self ==> a.nid in nids
    ensures Visits(s, visits)
  {
    forall k | k in s.store.byNetwork && Att(s.config.self, k.nid) in s.view.networks
      ensures exists v :: v in visits && v.key == k
    {
      assert k in KeysOf(s.store, nids);
    }
  }

  lemma AnyPrior(w: View, name: string, addr: string) returns (prior: Option<string>)
    ensures Reincarnation(w, name, addr, prior)
  {
    if n :| SameAddr(w.nodes, name, addr, n) {
      prior := Some(n);
    } else if n :| SameAddr(w.failed, name, addr, n) {
      prior := Some(n);
    } else if n :| SameAddr(w.left, name, addr, n) {
      prior := Some(n);
    } else {
      prior := None;
    }
  }

  lemma ToActive(s: Db, name: string, order: seq<Key>)
    ensures ChangeState(s, name, Active, order) == ChangeState(s, name, Active, [])
    ensures ChangeState(s, name, Active, []).1 <==> name !in s.view.nodes && Find(s.view, name).Some?
    ensures !ChangeState(s, name, Active, []).1 ==> ChangeState(s, name, Active, []).0 == s
  {
  }

  lemma AnyOrder(keys: set<Key>) returns (order: seq<Key>)
    ensures Lists(order, keys)
    decreases |keys|
  {
    if keys == {} {
      order := [];
    } else {
      var k :| k in keys;
      var rest := AnyOrder(keys - {k});
      ListsMore(rest, keys - {k}, k);
      assert keys - {k} + {k} == keys;
      order := rest + [k];
    }
  }

  lemma ListsMore(order: seq<Key>, keys: set<Key>, k: Key)
    requires Lists(order, keys) && k !in keys
    ensures Lists(order + [k], keys + {k})
  {
  }

  lemma LeaveWalkMore(t: Store, c: Config, node: string, order: seq<Key>, k: Key)
    ensures LeaveWalk(t, c, node, order + [k]) == LeaveKey(LeaveWalk(t, c, node, order), c, node, k)
  {
    assert (order + [k])[..|order|] == order;
  }

  lemma PurgeWalkMore(t: Store, node: string, order: seq<Key>, k: Key)
    ensures PurgeWalk(t, node, order + [k]) == PurgeKey(PurgeWalk(t, node, order), node, k)
  {
    assert (order + [k])[..|order|] == order;
  }
}
