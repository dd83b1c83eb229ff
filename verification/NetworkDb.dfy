/**
 One NetworkDB node as a value, and its handlers as functions on that value.
 The two radix trees are maps keyed by network, table and key; a walk visits the
 keys of a network in the order it is given.
 */
module NetworkDb {
  import opened Bitmaps

  type Bytes = seq<nat>

  const SECOND: int := 1_000_000_000
  const REAP_PERIOD: int := 5 * SECOND
  const NODE_REAP_INTERVAL: int := 24 * 3600 * SECOND
  const NODE_REAP_PERIOD: int := 2 * 3600 * SECOND

  datatype Key = Key(nid: string, tname: string, key: string)

  datatype Entry = Entry(node: string, ltime: nat, value: Bytes, deleting: bool, reapTime: int)

  /** A node's attachment to a network. */
  datatype Att = Att(node: string, nid: string)

  datatype Network = Network(ltime: nat, inSync: bool, leaving: bool, reapTime: int)

  datatype Node = Node(addr: string, ltime: nat, reapTime: int)

  datatype Op = Create | Update | Delete

  /** What watchers are told. */
  datatype Note = TableNote(op: Op, key: Key, value: Bytes) | NodeNote(op: Op, addr: string)

  datatype TableEvent = TableEvent(op: Op, ltime: nat, node: string, key: Key, value: Bytes, residual: int)

  datatype NetworkEvent = NetworkEvent(leave: bool, ltime: nat, node: string, nid: string)

  datatype Change = Joining | Leaving | Unspecified

  datatype NodeEvent = NodeEvent(change: Change, ltime: nat, node: string)

  datatype NodeState = Active | Left | Failed

  datatype Config = Config(self: string, interval: int)

  /**
   The entries under their two indexes, the number of entries of each network this
   node is attached to, and what watchers have been told.
   */
  datatype Store = Store(byTable: map<Key, Entry>, byNetwork: map<Key, Entry>, counts: map<string, int>, log: seq<Note>)

  /** The nodes of the cluster by state, the attachments, and the nodes listed in each network. */
  datatype View = View(
    nodes: map<string, Node>,
    left: map<string, Node>,
    failed: map<string, Node>,
    networks: map<Att, Network>,
    members: map<string, seq<string>>)

  datatype Db = Db(config: Config, store: Store, view: View, tableClock: nat, networkClock: nat)

  function Start(c: Config): (s: Db) {
    Db(c, Store(map[], map[], map[], []), View(map[], map[], map[], map[], map[]), 0, 0)
  }

  /** Networks linger five reap periods longer than entries. */
  function NetworkInterval(c: Config): (d: int) {
    c.interval + 5 * REAP_PERIOD
  }

  function Witness(clock: nat, seen: nat): (c: nat)
    ensures c >= clock && c > seen && (c == clock || c == seen + 1)
  {
    if seen < clock then clock else seen + 1
  }

  // ----- entries --------------------------------------------------------------

  function Bump(counts: map<string, int>, nid: string, delta: int): (r: map<string, int>)
    ensures r.Keys == counts.Keys
  {
    if nid in counts then counts[nid := counts[nid] + delta] else counts
  }

  /** createOrUpdateEntry */
  function Put(t: Store, k: Key, e: Entry): (t': Store) {
    t.(byTable := t.byTable[k := e], byNetwork := t.byNetwork[k := e],
       counts := if k in t.byNetwork then t.counts else Bump(t.counts, k.nid, 1))
  }

  /** deleteEntry */
  function Drop(t: Store, k: Key): (t': Store) {
    t.(byTable := t.byTable - {k}, byNetwork := t.byNetwork - {k},
       counts := if k in t.byNetwork then Bump(t.counts, k.nid, -1) else t.counts)
  }

  function Noted(t: Store, n: Note): (t': Store) {
    t.(log := t.log + [n])
  }

  // ----- walks ----------------------------------------------------------------

  /** One visit of the walk for a node that leaves a network. */
  function LeaveKey(t: Store, c: Config, node: string, k: Key): (t': Store) {
    if k !in t.byNetwork then t
    else
      var e, local := t.byNetwork[k], node == c.self;
      if !local && (e.node != node || e.deleting) then t
      else
        var ltime := if e.node == node && local then e.ltime + 1 else e.ltime;
        var marked := e.(deleting := true, reapTime := c.interval, ltime := ltime);
        var t1 := if e.node != node then Drop(t, k) else if e.deleting then t else Put(t, k, marked);
        if e.deleting then t1 else Noted(t1, TableNote(Delete, k, e.value))
  }

  /** deleteNodeNetworkEntries, visiting the keys in the given order. */
  function LeaveWalk(t: Store, c: Config, node: string, order: seq<Key>): (t': Store) {
    if order == [] then t else LeaveKey(LeaveWalk(t, c, node, order[..|order| - 1]), c, node, order[|order| - 1])
  }

  /** One visit of the walk for a node that left the cluster or failed. */
  function PurgeKey(t: Store, node: string, k: Key): (t': Store) {
    if k !in t.byTable || t.byTable[k].node != node then t
    else
      var e := t.byTable[k];
      if e.deleting then Drop(t, k) else Noted(Drop(t, k), TableNote(Delete, k, e.value))
  }

  /** deleteNodeTableEntries, visiting the keys in the given order. */
  function PurgeWalk(t: Store, node: string, order: seq<Key>): (t': Store) {
    if order == [] then t else PurgeKey(PurgeWalk(t, node, order[..|order| - 1]), node, order[|order| - 1])
  }

  /** A visit of the reaper, which finds `late` nanoseconds have passed since the cycle began. */
  datatype Visit = Visit(key: Key, late: nat)

  function ReapKey(t: Store, v: Visit): (t': Store) {
    if v.key !in t.byNetwork || !t.byNetwork[v.key].deleting then t
    else
      var e := t.byNetwork[v.key];
      if e.reapTime > REAP_PERIOD + v.late + SECOND then
        var e' := e.(reapTime := e.reapTime - (REAP_PERIOD + v.late));
        t.(byTable := if v.key in t.byTable then t.byTable[v.key := e'] else t.byTable,
           byNetwork := t.byNetwork[v.key := e'])
      else Drop(t, v.key)
  }

  /** reapTableEntries, visiting the keys in the given order. */
  function ReapWalk(t: Store, order: seq<Visit>): (t': Store) {
    if order == [] then t else ReapKey(ReapWalk(t, order[..|order| - 1]), order[|order| - 1])
  }

  /** The keys in some order, each once. */
  ghost predicate Lists(order: seq<Key>, keys: set<Key>) {
    && (forall i, j :: 0 <= i < j < |order| ==> order[i] != order[j])
    && (forall k :: k in order <==> k in keys)
  }

  function NetworkKeys(t: Store, nid: string): (ks: set<Key>) {
    set k | k in t.byNetwork && k.nid == nid
  }

  // ----- membership lists -----------------------------------------------------

  function Members(w: View, nid: string): (names: seq<string>) {
    if nid in w.members then w.members[nid] else []
  }

  function Without(names: seq<string>, name: string): (r: seq<string>)
    ensures forall n :: n in r <==> n in names && n != name
  {
    if names == [] then []
    else
      var r := Without(names[..|names| - 1], name);
      if names[|names| - 1] == name then r else r + [names[|names| - 1]]
  }

  function AddMember(w: View, nid: string, name: string): (w': View) {
    if name in Members(w, nid) then w else w.(members := w.members[nid := Members(w, nid) + [name]])
  }

  function DropMember(w: View, nid: string, name: string): (w': View) {
    if Members(w, nid) == [] then w else w.(members := w.members[nid := Without(w.members[nid], name)])
  }

  function Attach(w: View, a: Att, n: Network): (w': View) {
    w.(networks := w.networks[a := n])
  }

  predicate Joined(s: Db, nid: string) {
    var a := Att(s.config.self, nid);
    a in s.view.networks && !s.view.networks[a].leaving
  }

  // ----- local operations -----------------------------------------------------

  function JoinNetwork(s: Db, nid: string): (s': Db) {
    var t, self := s.networkClock + 1, s.config.self;
    s.(networkClock := t,
       view := AddMember(Attach(s.view, Att(self, nid), Network(t, false, false, 0)), nid, self),
       store := s.store.(counts := if nid in s.store.counts then s.store.counts else s.store.counts[nid := 0]))
  }

  /** The end of the join: the network has been synced. */
  function MarkInSync(s: Db, nid: string): (s': Db) {
    var a := Att(s.config.self, nid);
    if a in s.view.networks then s.(view := Attach(s.view, a, s.view.networks[a].(inSync := true))) else s
  }

  function LeaveNetwork(s: Db, nid: string, order: seq<Key>): (s': Db) {
    var t, a := s.networkClock + 1, Att(s.config.self, nid);
    var w := DropMember(s.view, nid, s.config.self);
    s.(networkClock := t,
       store := LeaveWalk(s.store, s.config, s.config.self, order),
       view := if a in w.networks then
                 Attach(w, a, w.networks[a].(ltime := t, reapTime := NetworkInterval(s.config), leaving := true))
               else w)
  }

  /** A forced push of the local attachments restamps them. */
  function UpdateLocalNetworkTime(s: Db): (s': Db) {
    var t := s.networkClock + 1;
    s.(networkClock := t, view := s.view.(networks := Restamped(s.view.networks, s.config.self, t)))
  }

  function Restamped(networks: map<Att, Network>, self: string, t: nat): (r: map<Att, Network>) {
    map a | a in networks :: if a.node == self then networks[a].(ltime := t) else networks[a]
  }

  function LocalEntry(s: Db, value: Bytes): (e: Entry) {
    Entry(s.config.self, s.tableClock + 1, value, false, 0)
  }

  /** A local write takes the next table time. */
  function Write(s: Db, k: Key, e: Entry): (s': Db) {
    s.(tableClock := s.tableClock + 1, store := Put(s.store, k, e))
  }

  function CreateEntry(s: Db, k: Key, value: Bytes): (s': Db) {
    if k in s.store.byTable then s else Write(s, k, LocalEntry(s, value))
  }

  function UpdateEntry(s: Db, k: Key, value: Bytes): (s': Db) {
    if k !in s.store.byTable then s else Write(s, k, LocalEntry(s, value))
  }

  function DeleteEntry(s: Db, k: Key): (s': Db) {
    if k !in s.store.byTable || s.store.byTable[k].deleting then s
    else Write(s, k, LocalEntry(s, s.store.byTable[k].value).(deleting := true, reapTime := s.config.interval))
  }

  // ----- gossip handlers ------------------------------------------------------

  /** A sixth, rounded toward zero. */
  function Sixth(d: int): (r: int)
    ensures d >= 0 ==> 6 * r <= d < 6 * r + 6
    ensures d < 0 ==> 6 * r - 6 < d <= 6 * r
  {
    if d >= 0 then d / 6 else -(-d / 6)
  }

  /** The entry a table event stands for; a deletion without a residual time gets the full interval. */
  function EntryOf(c: Config, ev: TableEvent): (e: Entry) {
    var e := Entry(ev.node, ev.ltime, ev.value, ev.op == Delete, ev.residual * SECOND);
    if e.deleting && e.reapTime == 0 then e.(reapTime := c.interval) else e
  }

  /** The event is for a joined network and its sender is a member of it. */
  predicate Relevant(s: Db, ev: TableEvent) {
    Joined(s, ev.key.nid) && ev.node in Members(s.view, ev.key.nid)
  }

  /** The event is newer than what is known, and not an asynchronous deletion of an unknown entry. */
  predicate Fresh(t: Store, ev: TableEvent, bulk: bool) {
    if ev.key in t.byTable then t.byTable[ev.key].ltime < ev.ltime else ev.op != Delete || bulk
  }

  /** Stores the event's entry; watchers hear of it unless it is the deletion of an unknown entry. */
  function Accept(t: Store, c: Config, ev: TableEvent): (t': Store) {
    var t1 := Put(t, ev.key, EntryOf(c, ev));
    if ev.key !in t.byTable && ev.op == Delete then t1 else Noted(t1, TableNote(ev.op, ev.key, ev.value))
  }

  function HandleTableEvent(s: Db, ev: TableEvent, bulk: bool): (r: (Db, bool)) {
    var s1 := s.(tableClock := Witness(s.tableClock, ev.ltime));
    if !Relevant(s, ev) || !Fresh(s.store, ev, bulk) then (s1, false)
    else
      var inSync := s.view.networks[Att(s.config.self, ev.key.nid)].inSync;
      (s1.(store := Accept(s.store, s.config, ev)),
       inSync && (ev.key !in s.store.byTable && ev.op == Delete ==>
                    EntryOf(s.config, ev).reapTime > Sixth(s.config.interval)))
  }

  /** Events this node sent itself are ignored. */
  function HandleTableMessage(s: Db, ev: TableEvent, bulk: bool): (r: (Db, bool)) {
    if ev.node == s.config.self then (s, false) else HandleTableEvent(s, ev, bulk)
  }

  function HandleNetworkEvent(s: Db, ev: NetworkEvent, order: seq<Key>): (r: (Db, bool)) {
    var s1, a := s.(networkClock := Witness(s.networkClock, ev.ltime)), Att(ev.node, ev.nid);
    if ev.node == s.config.self then (s1, false)
    else if a in s.view.networks then
      var n := s.view.networks[a];
      if n.ltime >= ev.ltime then (s1, false)
      else
        var w := Attach(s.view, a, n.(ltime := ev.ltime, leaving := ev.leave,
                                      reapTime := if ev.leave then NetworkInterval(s.config) else n.reapTime));
        if ev.leave then
          (s1.(store := LeaveWalk(s.store, s.config, ev.node, order), view := DropMember(w, ev.nid, ev.node)), true)
        else (s1.(view := AddMember(w, ev.nid, ev.node)), true)
    else if ev.leave || ev.node !in s.view.nodes then (s1, false)
    else (s1.(view := AddMember(Attach(s.view, a, Network(ev.ltime, false, false, 0)), ev.nid, ev.node)), true)
  }

  // ----- node states ----------------------------------------------------------

  function Find(w: View, name: string): (r: Option<(Node, NodeState)>) {
    if name in w.nodes then Some((w.nodes[name], Active))
    else if name in w.left then Some((w.left[name], Left))
    else if name in w.failed then Some((w.failed[name], Failed))
    else None
  }

  /** deleteNodeFromNetworks */
  function Detach(w: View, name: string): (w': View) {
    w.(members := map nid | nid in w.members :: Without(w.members[nid], name),
       networks := map a | a in w.networks && a.node != name :: w.networks[a])
  }

  function Take(w: View, name: string, from: NodeState): (w': View) {
    match from
    case Active => w.(nodes := w.nodes - {name})
    case Left => w.(left := w.left - {name})
    case Failed => w.(failed := w.failed - {name})
  }

  /** A node that is not active is kept for a day. */
  function Gone(n: Node): (n': Node) {
    n.(reapTime := if n.reapTime == 0 then NODE_REAP_INTERVAL else n.reapTime)
  }

  function Place(w: View, name: string, n: Node, to: NodeState): (w': View) {
    match to
    case Active => w.(nodes := w.nodes[name := n.(reapTime := 0)])
    case Left => w.(left := w.left[name := Gone(n)])
    case Failed => w.(failed := w.failed[name := Gone(n)])
  }

  function Move(w: View, name: string, n: Node, from: NodeState, to: NodeState): (w': View) {
    var w1 := Place(Take(w, name, from), name, n, to);
    if to == Active then w1 else Detach(w1, name)
  }

  /** A node that leaves or fails loses its attachments and its entries. */
  function ChangeState(s: Db, name: string, to: NodeState, order: seq<Key>): (r: (Db, bool)) {
    var f := Find(s.view, name);
    if f.None? || f.value.1 == to then (s, false)
    else
      var w := Move(s.view, name, f.value.0, f.value.1, to);
      var t := if name == s.config.self && to != Active then s.store.(counts := map[]) else s.store;
      (s.(view := w, store := if to == Active then t else PurgeWalk(t, name, order)), true)
  }

  function WithTime(w: View, name: string, ltime: nat): (w': View) {
    if name in w.nodes then w.(nodes := w.nodes[name := w.nodes[name].(ltime := ltime)])
    else if name in w.left then w.(left := w.left[name := w.left[name].(ltime := ltime)])
    else if name in w.failed then w.(failed := w.failed[name := w.failed[name].(ltime := ltime)])
    else w
  }

  function HandleNodeEvent(s: Db, ev: NodeEvent, order: seq<Key>): (r: (Db, bool)) {
    var s1, f := s.(networkClock := Witness(s.networkClock, ev.ltime)), Find(s.view, ev.node);
    if f.None? || f.value.0.ltime >= ev.ltime then (s1, false)
    else
      var s2 := s1.(view := WithTime(s.view, ev.node, ev.ltime));
      if ev.node !in s.view.nodes || ev.change == Unspecified then (s2, false)
      else ChangeState(s2, ev.node, if ev.change == Joining then Active else Left, order)
  }

  /** A node other than `name` at the same address, looked for among active, failed, then left nodes. */
  ghost predicate Reincarnation(w: View, name: string, addr: string, prior: Option<string>) {
    if exists n :: SameAddr(w.nodes, name, addr, n) then
      prior.Some? && SameAddr(w.nodes, name, addr, prior.value)
    else if exists n :: SameAddr(w.failed, name, addr, n) then
      prior.Some? && SameAddr(w.failed, name, addr, prior.value)
    else if exists n :: SameAddr(w.left, name, addr, n) then
      prior.Some? && SameAddr(w.left, name, addr, prior.value)
    else prior.None?
  }

  predicate SameAddr(nodes: map<string, Node>, name: string, addr: string, n: string) {
    n in nodes && nodes[n].addr == addr && n != name
  }

  function WithNote(s: Db, n: Note): (s': Db) {
    s.(store := Noted(s.store, n))
  }

  /** A node that had left or failed becomes active again; else it is new, and replaces a prior node at its address. */
  function NotifyJoin(s: Db, name: string, addr: string, prior: Option<string>, order: seq<Key>): (s': Db) {
    var s1 := WithNote(s, NodeNote(Create, addr));
    var (s2, moved) := ChangeState(s1, name, Active, []);
    if moved then s2
    else
      var s3 := if prior.Some? then ChangeState(s1, prior.value, Left, order).0 else s1;
      s3.(view := s3.view.(nodes := s3.view.nodes[name := Node(addr, 0, 0)]))
  }

  function NotifyLeave(s: Db, name: string, addr: string, order: seq<Key>): (s': Db) {
    var s1 := WithNote(s, NodeNote(Delete, addr));
    if name in s.view.nodes then ChangeState(s1, name, Failed, order).0 else s1
  }

  /** The attachments of a push-pull exchange, handled one by one. */
  function MergeNetworks(s: Db, evs: seq<NetworkEvent>, orders: seq<seq<Key>>): (s': Db)
    requires |orders| == |evs|
  {
    if evs == [] then s
    else
      var n := |evs| - 1;
      HandleNetworkEvent(MergeNetworks(s, evs[..n], orders[..n]), evs[n], orders[n]).0
  }

  /** Each walk of the exchange visits the keys its network has when its attachment is handled. */
  ghost predicate MergeVisits(s: Db, evs: seq<NetworkEvent>, orders: seq<seq<Key>>)
    requires |orders| == |evs|
  {
    evs == [] ||
    var n := |evs| - 1;
    && MergeVisits(s, evs[..n], orders[..n])
    && Lists(orders[n], NetworkKeys(MergeNetworks(s, evs[..n], orders[..n]).store, evs[n].nid))
  }

  // ----- reaping --------------------------------------------------------------

  predicate Expired(w: View, a: Att) {
    a in w.networks && w.networks[a].leaving && w.networks[a].reapTime <= 0
  }

  function Aged(n: Network): (r: Network) {
    if n.leaving then n.(reapTime := n.reapTime - REAP_PERIOD) else n
  }

  function ReapNetworks(s: Db): (s': Db) {
    var w, t := s.view, s.store;
    s.(view := w.(networks := map a | a in w.networks && !Expired(w, a) :: Aged(w.networks[a])),
       store := t.(counts := map nid | nid in t.counts && !Expired(w, Att(s.config.self, nid)) :: t.counts[nid]))
  }

  function ReapTable(s: Db, order: seq<Visit>): (s': Db) {
    s.(store := ReapWalk(s.store, order))
  }

  function ReapNodes(nodes: map<string, Node>): (r: map<string, Node>) {
    map n | n in nodes && nodes[n].reapTime > NODE_REAP_PERIOD ::
      nodes[n].(reapTime := nodes[n].reapTime - NODE_REAP_PERIOD)
  }

  function ReapDeadNodes(s: Db): (s': Db) {
    s.(view := s.view.(failed := ReapNodes(s.view.failed), left := ReapNodes(s.view.left)))
  }
}
