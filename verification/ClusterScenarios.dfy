/** Two runs of two nodes: one in which a remote entry is stored, and one in which a leave breaks agreement for good. */
module Scenarios {
  import opened Bitmaps
  import opened NetworkDb
  import opened DbRuns
  import opened Convergence
  import opened Clusters
  import opened Agreement

  // ----- the nodes ------------------------------------------------------------

  /** The owner has joined the network and knows nothing. */
  ghost predicate Ready(s: Db, nid: string) {
    Joined(s, nid) && s.store.byTable == s.store.byNetwork == map[] && s.tableClock == 0
  }

  /** The follower has joined the network, lists the owner there and knows nothing. */
  ghost predicate Listening(s: Db, nid: string, o: string) {
    Ready(s, nid) && o != s.config.self && o in Members(s.view, nid)
  }

  function JoinOf(o: string, nid: string): (ev: NetworkEvent) {
    NetworkEvent(false, 1, o, nid)
  }

  function Introduced(s: Db, o: string, addr: string, nid: string): (s': Db) {
    HandleNetworkEvent(JoinNetwork(NotifyJoin(s, o, addr, None, []), nid), JoinOf(o, nid), []).0
  }

  lemma OwnerReady(c: Config, nid: string)
    ensures Ready(JoinNetwork(Start(c), nid), nid) && JoinNetwork(Start(c), nid).config == c
  {
  }

  lemma FollowerListens(c: Config, o: string, addr: string, nid: string)
    requires o != c.self
    ensures Listening(Introduced(Start(c), o, addr, nid), nid, o) && Introduced(Start(c), o, addr, nid).config == c
  {
  }

  function Creation(o: string, k: Key, v: Bytes): (ev: TableEvent) {
    TableEvent(Create, 1, o, k, v, 0)
  }

  /** The node has one entry, and has written once. */
  ghost predicate HasOnly(s: Db, k: Key, e: Entry) {
    s.store.byTable == s.store.byNetwork == map[k := e] && s.tableClock == 1
  }

  lemma OwnerCreates(s: Db, k: Key, v: Bytes)
    requires Ready(s, k.nid)
    ensures Emits(s, DoCreate(k, v)) == {Creation(s.config.self, k, v)}
    ensures
      var s' := CreateEntry(s, k, v);
      HasOnly(s', k, Entry(s.config.self, 1, v, false, 0)) && s'.config == s.config && s'.view == s.view
  {
  }

  // ----- runs step by step ----------------------------------------------------

  /** A run whose steps are all stable but the one at `but`. */
  ghost predicate StableBut(interval: int, owner: Key -> string, es: seq<Event>, cs: seq<Cluster>, but: int) {
    && Clusters.Run(interval, es, cs)
    && forall j: nat :: j < |es| && j != but ==> Stable(cs[j], es[j], owner)
  }

  lemma Extend(interval: int, owner: Key -> string, es: seq<Event>, cs: seq<Cluster>, but: int, e: Event)
    requires StableBut(interval, owner, es, cs, but) && Enabled(cs[|es|], e)
    requires |es| != but ==> Stable(cs[|es|], e, owner)
    ensures StableBut(interval, owner, es + [e], cs + [Next(cs[|es|], e)], but)
  {
    hide Next, Stable, Enabled, Initial;
  }

  /** The owner, the follower, and the events in flight. */
  datatype Pair = Pair(owner: Db, follower: Db, sent: set<TableEvent>)

  ghost predicate Holds(c: Cluster, o: string, p: string, x: Pair) {
    c == Cluster(map[o := Machine(x.owner, false), p := Machine(x.follower, false)], x.sent)
  }

  /** A step of the owner, or of the follower. */
  function Step(x: Pair, byOwner: bool, a: Action): (x': Pair) {
    if byOwner then Pair(Apply(Machine(x.owner, false), a).db, x.follower, x.sent + Emits(x.owner, a))
    else Pair(x.owner, Apply(Machine(x.follower, false), a).db, x.sent + Emits(x.follower, a))
  }

  /** A run of an owner `o` and a follower `p`, and where it has got to. */
  datatype Story = Story(interval: int, o: string, p: string, but: int, es: seq<Event>, cs: seq<Cluster>, now: Pair)

  ghost predicate Told(st: Story, owner: Key -> string) {
    && st.o != st.p
    && StableBut(st.interval, owner, st.es, st.cs, st.but)
    && Holds(st.cs[|st.es|], st.o, st.p, st.now)
  }

  /** The story goes on by one event. */
  ghost predicate Continues(st: Story, st': Story, e: Event, now: Pair) {
    st' == st.(es := st.es + [e], cs := st'.cs, now := now)
  }

  /** The step may be taken, and is stable if it has to be. */
  ghost predicate Allowed(st: Story, owner: Key -> string, byOwner: bool, a: Action) {
    var s := if byOwner then st.now.owner else st.now.follower;
    && !a.DoReapTable? && (a.OnTable? ==> a.ev in st.now.sent)
    && (|st.es| != st.but ==> Walks(s, a) && EmptyHanded(s, a) && OwnWrite(s, a, owner))
  }

  lemma Act(st: Story, owner: Key -> string, byOwner: bool, a: Action) returns (st': Story)
    requires Told(st, owner) && Allowed(st, owner, byOwner, a)
    ensures Told(st', owner)
    ensures Continues(st, st', NodeStep(if byOwner then st.o else st.p, a), Step(st.now, byOwner, a))
  {
    var e, c := NodeStep(if byOwner then st.o else st.p, a), st.cs[|st.es|];
    Extend(st.interval, owner, st.es, st.cs, st.but, e);
    var now := Step(st.now, byOwner, a);
    st' := st.(es := st.es + [e], cs := st.cs + [Next(c, e)], now := now);
    MidStays(st.now.owner, a);
    MidStays(st.now.follower, a);
    hide Apply, Emits;
    assert Next(c, e).nodes == map[st.o := Machine(now.owner, false), st.p := Machine(now.follower, false)];
  }

  lemma MidStays(s: Db, a: Action)
    requires !a.DoReapTable?
    ensures !Apply(Machine(s, false), a).mid
  {
  }

  lemma Begin(interval: int, owner: Key -> string, o: string, p: string, but: int) returns (st: Story)
    requires o != p
    ensures Told(st, owner)
    ensures
      var now := Pair(Start(Config(o, interval)), Start(Config(p, interval)), {});
      st == Story(interval, o, p, but, [], st.cs, now)
  {
    hide Start, Next, Stable, Enabled;
    var so, sp := Start(Config(o, interval)), Start(Config(p, interval));
    st := Story(interval, o, p, but, [],
                [Cluster(map[o := Machine(so, false), p := Machine(sp, false)], {})], Pair(so, sp, {}));
  }

  /** The owner joins the network, for the first time or again. */
  lemma OwnerJoins(st: Story, owner: Key -> string, nid: string) returns (st': Story)
    requires Told(st, owner)
    ensures Told(st', owner)
    ensures Continues(st, st', NodeStep(st.o, DoJoin(nid)), st.now.(owner := JoinNetwork(st.now.owner, nid)))
  {
    hide Told, JoinNetwork;
    st' := Act(st, owner, true, DoJoin(nid));
  }

  /** The follower hears of the owner, joins the network, and hears that the owner is in it. */
  lemma FollowerHears(st: Story, owner: Key -> string, addr: string, nid: string) returns (st': Story)
    requires Told(st, owner) && st.now.follower.store.byNetwork == map[]
    ensures Told(st', owner)
    ensures
      var now := st.now.(follower := Introduced(st.now.follower, st.o, addr, nid));
      st' == st.(es := st'.es, cs := st'.cs, now := now)
    ensures |st'.es| == |st.es| + 3
  {
    var meet, join, hear := OnNotifyJoin(st.o, addr, None, []), DoJoin(nid), OnNetwork(JoinOf(st.o, nid), []);
    Introduces(st.now.follower, st.o, addr, nid);
    hide *;
    st' := FollowerMeets(st, owner, meet);
    st' := FollowerMeets(st', owner, join);
    st' := FollowerMeets(st', owner, hear);
  }

  lemma Introduces(s: Db, o: string, addr: string, nid: string)
    requires s.store.byNetwork == map[]
    ensures
      var meet, join, hear := OnNotifyJoin(o, addr, None, []), DoJoin(nid), OnNetwork(JoinOf(o, nid), []);
      var s1 := Apply(Machine(s, false), meet).db;
      var s2 := Apply(Machine(s1, false), join).db;
      && Walks(s, meet) && Walks(s1, join) && Walks(s2, hear)
      && Apply(Machine(s2, false), hear).db == Introduced(s, o, addr, nid) && !JoinOf(o, nid).leave
  {
    NothingStored(s, o, addr, nid);
    hide JoinNetwork, NotifyJoin, HandleNetworkEvent, Lists, NetworkKeys;
  }

  /** The follower handles a join. */
  lemma FollowerMeets(st: Story, owner: Key -> string, a: Action) returns (st': Story)
    requires Told(st, owner) && (a.OnNotifyJoin? || a.DoJoin? || (a.OnNetwork? && !a.nev.leave))
    requires Walks(st.now.follower, a)
    ensures Told(st', owner)
    ensures Continues(st, st', NodeStep(st.p, a),
                      st.now.(follower := Apply(Machine(st.now.follower, false), a).db))
  {
    hide Told, Apply, Walks;
    st' := Act(st, owner, false, a);
  }

  lemma NothingStored(s: Db, o: string, addr: string, nid: string)
    requires s.store.byNetwork == map[]
    ensures Lists([], NetworkKeys(JoinNetwork(NotifyJoin(s, o, addr, None, []), nid).store, nid))
  {
  }

  /** Both nodes have joined the network, the follower knows of the owner, and nothing has been written. */
  lemma Introduction(interval: int, owner: Key -> string, o: string, p: string, but: int, addr: string, nid: string)
    returns (st: Story)
    requires o != p && (but < 0 || but > 3)
    ensures Told(st, owner) && |st.es| == 4
    ensures st == Story(interval, o, p, but, st.es, st.cs, Pair(st.now.owner, st.now.follower, {}))
    ensures Ready(st.now.owner, nid) && st.now.owner.config == Config(o, interval)
    ensures Listening(st.now.follower, nid, o) && st.now.follower.config == Config(p, interval)
  {
    OwnerReady(Config(o, interval), nid);
    FollowerListens(Config(p, interval), o, addr, nid);
    hide *;
    st := Begin(interval, owner, o, p, but);
    st := OwnerJoins(st, owner, nid);
    assert st.es == [NodeStep(o, DoJoin(nid))];
    st := FollowerHears(st, owner, addr, nid);
  }

  /** The owner creates its entry. */
  lemma Opening(interval: int, owner: Key -> string, o: string, p: string, but: int, addr: string, k: Key, v: Bytes)
    returns (st: Story)
    requires o != p && owner(k) == o && (but < 0 || but > 4)
    ensures Told(st, owner) && |st.es| == 5
    ensures st == Story(interval, o, p, but, st.es, st.cs, Pair(st.now.owner, st.now.follower, {Creation(o, k, v)}))
    ensures HasOnly(st.now.owner, k, Entry(o, 1, v, false, 0)) && st.now.owner.config == Config(o, interval)
    ensures Joined(st.now.owner, k.nid)
    ensures Listening(st.now.follower, k.nid, o) && st.now.follower.config == Config(p, interval)
  {
    hide Told, Listening, CreateEntry, Emits, Members;
    st := Introduction(interval, owner, o, p, but, addr, k.nid);
    OwnerCreates(st.now.owner, k, v);
    st := Act(st, owner, true, DoCreate(k, v));
    assert st.now.sent == {Creation(o, k, v)};
  }

  // ----- a remote entry is stored ---------------------------------------------

  lemma FollowerStores(s: Db, ev: TableEvent, bulk: bool)
    requires Listening(s, ev.key.nid, ev.node) && (ev.op != Delete || bulk)
    ensures Known(HandleTableMessage(s, ev, bulk).0, ev.key) == Some(EventContent(ev))
    ensures HandleTableMessage(s, ev, bulk).0.config == s.config && HandleTableMessage(s, ev, bulk).0.view == s.view
  {
  }

  /** Stable runs are not idle: for any two nodes there is one after which the second has the first one's entry. */
  lemma RemoteEntryStored(interval: int, owner: Key -> string, o: string, p: string, addr: string, k: Key, v: Bytes)
    returns (es: seq<Event>, cs: seq<Cluster>)
    requires o != p && owner(k) == o
    ensures StableRun(interval, owner, es, cs) && o in cs[|es|].nodes && p in cs[|es|].nodes
    ensures Known(cs[|es|].nodes[o].db, k) == Known(cs[|es|].nodes[p].db, k) == Some(Content(1, o, v, false))
  {
    var st := Opening(interval, owner, o, p, -1, addr, k, v);
    var ev := Creation(o, k, v);
    FollowerStores(st.now.follower, ev, false);
    st := Deliver(st, owner, ev, false);
    return st.es, st.cs;
  }

  /** An event in flight reaches the follower. */
  lemma Deliver(st: Story, owner: Key -> string, ev: TableEvent, bulk: bool) returns (st': Story)
    requires Told(st, owner) && ev in st.now.sent
    ensures Told(st', owner)
    ensures Continues(st, st', NodeStep(st.p, OnTable(ev, bulk)),
                      st.now.(follower := HandleTableMessage(st.now.follower, ev, bulk).0))
  {
    hide Told, HandleTableMessage;
    st' := Act(st, owner, false, OnTable(ev, bulk));
  }

  // ----- a leave breaks agreement ---------------------------------------------

  function Tombstone(c: Config, k: Key, v: Bytes): (ev: TableEvent) {
    TableEvent(Delete, 2, c.self, k, v, Seconds(c.interval))
  }

  /** The leave stamps its tombstone one later than the entry, without moving the table clock. */
  lemma OwnerLeaves(s: Db, k: Key, v: Bytes)
    requires HasOnly(s, k, Entry(s.config.self, 1, v, false, 0))
    ensures
      var s' := LeaveNetwork(s, k.nid, [k]);
      && HasOnly(s', k, Entry(s.config.self, 2, v, true, s.config.interval)) && s'.config == s.config
      && Payload(s'.store, [k]) == [Tombstone(s.config, k, v)]
      && Lists([k], NetworkKeys(s.store, k.nid))
  {
    var walked := LeaveWalk(s.store, s.config, s.config.self, [k]);
    assert [k][..0] == [] && LeaveWalk(s.store, s.config, s.config.self, []) == s.store;
    assert walked == LeaveKey(s.store, s.config, s.config.self, k);
    assert walked.byNetwork[k] == Entry(s.config.self, 2, v, true, s.config.interval);
    assert Payload(walked, [k]) == Payload(walked, []) + [EventFor(k, walked.byNetwork[k])];
  }

  /** After a rejoin, an update takes the time the tombstone already has. */
  lemma OwnerUpdates(s: Db, k: Key, e: Entry, v: Bytes)
    requires HasOnly(s, k, e) && Joined(s, k.nid)
    ensures
      var s', o := UpdateEntry(s, k, v), s.config.self;
      && Known(s', k) == Some(Content(2, o, v, false)) && s'.config == s.config
      && Emits(s, DoUpdate(k, v)) == {TableEvent(Update, 2, o, k, v, 0)}
  {
  }

  /** The owner answers a bulk sync. */
  lemma OwnerSendsBulk(st: Story, owner: Key -> string, order: seq<Key>) returns (st': Story)
    requires Told(st, owner)
    ensures Told(st', owner)
    ensures Continues(st, st', SendBulk(st.o, order),
                      st.now.(sent := st.now.sent + set ev | ev in Payload(st.now.owner.store, order)))
  {
    var e := SendBulk(st.o, order);
    Extend(st.interval, owner, st.es, st.cs, st.but, e);
    st' := st.(es := st.es + [e], cs := st.cs + [Next(st.cs[|st.es|], e)],
               now := st.now.(sent := st.now.sent + set ev | ev in Payload(st.now.owner.store, order)));
  }

  /** The owner creates its entry and leaves; the follower is sent the tombstone by a bulk sync. */
  lemma TombstoneSynced(interval: int, owner: Key -> string, o: string, p: string, addr: string, k: Key, v: Bytes)
    returns (st: Story)
    requires o != p && owner(k) == o
    ensures Told(st, owner) && |st.es| == 8 && st.es[5] == NodeStep(o, DoLeave(k.nid, [k]))
    ensures
      var sent := {Creation(o, k, v), Tombstone(Config(o, interval), k, v)};
      st == Story(interval, o, p, 5, st.es, st.cs, Pair(st.now.owner, st.now.follower, sent))
    ensures HasOnly(st.now.owner, k, Entry(o, 2, v, true, interval)) && st.now.owner.config == Config(o, interval)
    ensures Known(st.now.follower, k) == Some(Content(2, o, v, true)) && st.now.follower.config == Config(p, interval)
  {
    st := Opening(interval, owner, o, p, 5, addr, k, v);
    var tomb := Tombstone(Config(o, interval), k, v);
    OwnerLeaves(st.now.owner, k, v);
    FollowerStores(st.now.follower, tomb, true);
    hide Told, Listening, LeaveNetwork, HandleTableMessage, Payload, Joined, HasOnly;
    st := LeaveAt(st, owner, k.nid, [k]);
    assert st.es[5] == NodeStep(o, DoLeave(k.nid, [k]));
    st := OwnerSendsBulk(st, owner, [k]);
    assert st.now.sent == {Creation(o, k, v), tomb};
    st := Deliver(st, owner, tomb, true);
  }

  /** The one step that is not stable. */
  lemma LeaveAt(st: Story, owner: Key -> string, nid: string, order: seq<Key>) returns (st': Story)
    requires Told(st, owner) && st.but == |st.es|
    ensures Told(st', owner)
    ensures Continues(st, st', NodeStep(st.o, DoLeave(nid, order)),
                      st.now.(owner := LeaveNetwork(st.now.owner, nid, order)))
  {
    hide Told, LeaveNetwork;
    st' := Act(st, owner, true, DoLeave(nid, order));
  }

  /** Nothing as old as what is known changes it. */
  lemma {:induction false} StaleIgnored(s: Db, ds: seq<Delivery>, k: Key)
    requires Known(s, k).Some? && forall d :: d in ds && d.ev.key == k ==> d.ev.ltime <= Known(s, k).value.ltime
    ensures Known(Feed(s, ds), k) == Known(s, k)
  {
    if ds != [] {
      StaleIgnored(s, ds[..|ds| - 1], k);
      OneStale(Feed(s, ds[..|ds| - 1]), ds[|ds| - 1], k);
    }
  }

  /** The owner joins again and updates its entry; the follower ignores the update. */
  lemma UpdateIgnored(
    interval: int, owner: Key -> string, o: string, p: string, addr: string, k: Key, v: Bytes, v': Bytes)
    returns (st: Story)
    requires o != p && owner(k) == o
    ensures Told(st, owner) && |st.es| > 5 && st.es[5] == NodeStep(o, DoLeave(k.nid, [k]))
    ensures st.but == 5 && st.interval == interval && st.o == o && st.p == p
    ensures Known(st.now.owner, k) == Some(Content(2, o, v', false))
    ensures Known(st.now.follower, k) == Some(Content(2, o, v, true))
    ensures forall ev :: ev in st.now.sent ==> ev.ltime <= 2
  {
    st := TombstoneSynced(interval, owner, o, p, addr, k, v);
    var e, update := Entry(o, 2, v, true, interval), TableEvent(Update, 2, o, k, v', 0);
    OwnerRejoins(st.now.owner, k, e);
    hide *;
    st := OwnerJoins(st, owner, k.nid);
    assert st.es[5] == NodeStep(o, DoLeave(k.nid, [k]));
    st := UpdateAt(st, owner, k, e, v');
    assert st.es[5] == NodeStep(o, DoLeave(k.nid, [k]));
    OneStale(st.now.follower, Delivery(update, false), k);
    st := Deliver(st, owner, update, false);
  }

  lemma OwnerRejoins(s: Db, k: Key, e: Entry)
    requires HasOnly(s, k, e)
    ensures
      var s' := JoinNetwork(s, k.nid);
      Joined(s', k.nid) && HasOnly(s', k, e) && s'.config == s.config
  {
  }

  lemma UpdateAt(st: Story, owner: Key -> string, k: Key, e: Entry, v: Bytes) returns (st': Story)
    requires Told(st, owner) && owner(k) == st.o == st.now.owner.config.self
    requires HasOnly(st.now.owner, k, e) && Joined(st.now.owner, k.nid)
    ensures Told(st', owner)
    ensures
      var now := Pair(st'.now.owner, st.now.follower, st.now.sent + {TableEvent(Update, 2, st.o, k, v, 0)});
      Continues(st, st', NodeStep(st.o, DoUpdate(k, v)), now)
    ensures Known(st'.now.owner, k) == Some(Content(2, st.o, v, false))
  {
    OwnerUpdates(st.now.owner, k, e, v);
    hide Told, UpdateEntry, Emits, Joined, Known;
    st' := Act(st, owner, true, DoUpdate(k, v));
  }

  lemma OneStale(s: Db, d: Delivery, k: Key)
    requires Known(s, k).Some? && (d.ev.key == k ==> d.ev.ltime <= Known(s, k).value.ltime)
    ensures Known(HandleTableMessage(s, d.ev, d.bulk).0, k) == Known(s, k)
  {
  }

  /**
   The runs above must exclude leaves. Here the owner leaves and joins again: its tombstone and its later
   update carry one time, and the follower that was sent the tombstone ignores the update for good.
   */
  lemma LeaveBreaksAgreement(
    interval: int, owner: Key -> string, o: string, p: string, addr: string, k: Key, v: Bytes, v': Bytes)
    returns (es: seq<Event>, cs: seq<Cluster>)
    requires o != p && owner(k) == o
    ensures StableBut(interval, owner, es, cs, 5) && |es| > 5 && es[5] == NodeStep(o, DoLeave(k.nid, [k]))
    ensures o in cs[|es|].nodes && p in cs[|es|].nodes
    ensures Known(cs[|es|].nodes[o].db, k) == Some(Content(2, o, v', false))
    ensures Known(cs[|es|].nodes[p].db, k) == Some(Content(2, o, v, true))
    ensures forall ds: seq<Delivery> :: (forall d :: d in ds ==> d.ev in cs[|es|].sent) ==>
      Known(Feed(cs[|es|].nodes[p].db, ds), k) == Some(Content(2, o, v, true))
  {
    var st := UpdateIgnored(interval, owner, o, p, addr, k, v, v');
    es, cs := st.es, st.cs;
    hide StableBut, Known, Feed;
    forall ds: seq<Delivery> | forall d :: d in ds ==> d.ev in cs[|es|].sent
      ensures Known(Feed(cs[|es|].nodes[p].db, ds), k) == Some(Content(2, o, v, true))
    {
      StaleIgnored(st.now.follower, ds, k);
    }
  }
}
