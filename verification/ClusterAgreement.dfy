/**
 Clusters in which nodes join, fail, reap and leave: exactly when a step keeps the nodes in agreement, and
 exactly when a node that is fed messages ends up with the newest content of a key.
 */
module Agreement {
  import opened Bitmaps
  import opened NetworkDb
  import opened DbCore
  import opened DbRuns
  import opened Convergence
  import opened Clusters

  /** An event in flight tells of the content. */
  ghost predicate Sent(c: Cluster, k: Key, x: Content) {
    exists ev :: ev in c.sent && Tells(ev, k, x)
  }

  /** Some node has the content, or an event in flight tells of it. */
  ghost predicate Fact(c: Cluster, k: Key, x: Content) {
    (exists i :: i in c.nodes && Known(c.nodes[i].db, k) == Some(x)) || Sent(c, k, x)
  }

  // ----- what a step does to one key ------------------------------------------

  /** The local write takes effect. */
  predicate Writes(s: Db, a: Action) {
    || (a.DoCreate? && a.k !in s.store.byTable)
    || (a.DoUpdate? && a.k in s.store.byTable)
    || (a.DoDelete? && a.k in s.store.byTable && !s.store.byTable[a.k].deleting)
  }

  /** What a local write makes known. */
  function Written(s: Db, a: Action): (x: Content)
    requires Writes(s, a)
  {
    Content(s.tableClock + 1, s.config.self, if a.DoDelete? then s.store.byTable[a.k].value else a.value, a.DoDelete?)
  }

  /** The leave of another node is news. */
  predicate TakesLeave(s: Db, ev: NetworkEvent) {
    var a := Att(ev.node, ev.nid);
    ev.leave && ev.node != s.config.self && a in s.view.networks && s.view.networks[a].ltime < ev.ltime
  }

  /** The node whose leave of a network the step handles, and the network. */
  function Leaver(s: Db, a: Action): (r: Option<Att>) {
    if a.DoLeave? then Some(Att(s.config.self, a.nid))
    else if a.OnNetwork? && TakesLeave(s, a.nev) then Some(Att(a.nev.node, a.nev.nid))
    else None
  }

  /** A live entry of the node in the network. */
  predicate LiveIn(s: Db, a: Att, k: Key) {
    k in s.store.byTable && k.nid == a.nid && s.store.byTable[k].node == a.node && !s.store.byTable[k].deleting
  }

  /** The step turns the entry into a tombstone. */
  predicate Marks(s: Db, a: Action, k: Key) {
    Leaver(s, a).Some? && LiveIn(s, Leaver(s, a).value, k)
  }

  /** The tombstone: a node stamps its own one later, and others' with the time they have. */
  function Marked(s: Db, a: Action, k: Key): (x: Content)
    requires Marks(s, a, k)
  {
    var e := s.store.byTable[k];
    Content(if a.DoLeave? then e.ltime + 1 else e.ltime, e.node, e.value, true)
  }

  /** Nothing new is known: at most something is forgotten. */
  predicate Fades(x: Option<Content>, y: Option<Content>) {
    y == x || y.None?
  }

  predicate Changes(s: Db, s': Db, a: Action, k: Key) {
    if Writes(s, a) && k == a.k then Known(s', k) == Some(Written(s, a))
    else if Marks(s, a, k) then Known(s', k) == Some(Marked(s, a, k))
    else
      || Fades(Known(s, k), Known(s', k))
      || (a.OnTable? && a.ev.node != s.config.self && a.ev.key == k && Known(s', k) == Some(EventContent(a.ev)))
  }

  predicate SameIndexed(t: Store) {
    t.byTable == t.byNetwork
  }

  predicate FadesAt(t: Store, t': Store, k: Key) {
    k in t'.byTable ==> k in t.byTable && ContentOf(t'.byTable[k]) == ContentOf(t.byTable[k])
  }

  /** The walks of a leave visit the keys of the network. */
  ghost predicate Walks(s: Db, a: Action) {
    && (a.DoLeave? ==> Lists(a.order, NetworkKeys(s.store, a.nid)))
    && (a.OnNetwork? ==> Lists(a.order, NetworkKeys(s.store, a.nev.nid)))
  }

  lemma {:induction false} PurgeFades(t: Store, node: string, order: seq<Key>, k: Key)
    requires SameIndexed(t)
    ensures SameIndexed(PurgeWalk(t, node, order)) && FadesAt(t, PurgeWalk(t, node, order), k)
  {
    if order != [] {
      PurgeFades(t, node, order[..|order| - 1], k);
    }
  }

  lemma {:induction false} ReapFades(t: Store, visits: seq<Visit>, k: Key)
    requires SameIndexed(t)
    ensures SameIndexed(ReapWalk(t, visits)) && FadesAt(t, ReapWalk(t, visits), k)
  {
    if visits != [] {
      ReapFades(t, visits[..|visits| - 1], k);
      ReapKeyAt(ReapWalk(t, visits[..|visits| - 1]), visits[|visits| - 1], k);
    }
  }

  lemma {:induction false} LeaveIndexed(t: Store, c: Config, node: string, order: seq<Key>)
    requires SameIndexed(t)
    ensures SameIndexed(LeaveWalk(t, c, node, order))
  {
    if order != [] {
      LeaveIndexed(t, c, node, order[..|order| - 1]);
    }
  }

  /** A leave makes a tombstone of each live entry of the leaver in the network; of the rest it forgets some. */
  lemma LeaveChanges(s: Db, a: Att, order: seq<Key>, k: Key)
    requires SameIndexed(s.store) && Lists(order, NetworkKeys(s.store, a.nid))
    ensures
      var t, t' := s.store, LeaveWalk(s.store, s.config, a.node, order);
      && SameIndexed(t')
      && if LiveIn(s, a, k) then
           var e, local := t.byTable[k], a.node == s.config.self;
           var ltime := if local then e.ltime + 1 else e.ltime;
           k in t'.byTable && ContentOf(t'.byTable[k]) == Content(ltime, e.node, e.value, true)
         else FadesAt(t, t', k)
  {
    LeaveIndexed(s.store, s.config, a.node, order);
    LeaveWalkAt(s.store, s.config, a.node, order, k);
    assert k in order <==> k in NetworkKeys(s.store, a.nid);
    hide LeaveWalk;
  }

  lemma ChangeStateFades(s: Db, name: string, to: NodeState, order: seq<Key>, k: Key)
    requires SameIndexed(s.store)
    ensures
      var s' := ChangeState(s, name, to, order).0;
      && s'.config == s.config && s'.tableClock == s.tableClock
      && SameIndexed(s'.store) && FadesAt(s.store, s'.store, k)
  {
    hide PurgeWalk, Move;
    PurgeFades(s.store, name, order, k);
    PurgeFades(s.store.(counts := map[]), name, order, k);
  }

  /** What every step keeps, and what it makes of a key. */
  ghost predicate StepOk(m: Machine, a: Action, k: Key) {
    var s, s' := m.db, Apply(m, a).db;
    && s'.config == s.config && SameIndexed(s'.store) && s'.tableClock >= s.tableClock
    && (Writes(s, a) ==> s'.tableClock == s.tableClock + 1)
    && Changes(s, s', a, k)
  }

  lemma MemberSteps(m: Machine, a: Action, k: Key)
    requires SameIndexed(m.db.store) && (a.OnNode? || a.OnNotifyJoin? || a.OnNotifyLeave?)
    ensures StepOk(m, a, k)
  {
    hide ChangeState;
    var s := m.db;
    if a.OnNode? {
      var s2 := s.(networkClock := Witness(s.networkClock, a.dev.ltime),
                   view := WithTime(s.view, a.dev.node, a.dev.ltime));
      ChangeStateFades(s2, a.dev.node, if a.dev.change == Joining then Active else Left, a.order, k);
    } else if a.OnNotifyJoin? {
      var s1 := WithNote(s, NodeNote(Create, a.addr));
      ChangeStateFades(s1, a.name, Active, [], k);
      if a.prior.Some? {
        ChangeStateFades(s1, a.prior.value, Left, a.order, k);
      }
    } else {
      ChangeStateFades(WithNote(s, NodeNote(Delete, a.addr)), a.name, Failed, a.order, k);
    }
  }

  lemma LeaveSteps(m: Machine, a: Action, k: Key)
    requires SameIndexed(m.db.store) && Walks(m.db, a) && (a.DoLeave? || a.OnNetwork?)
    ensures StepOk(m, a, k)
  {
    hide LeaveWalk, AddMember, DropMember, Lists;
    var s := m.db;
    if a.DoLeave? {
      LeaveChanges(s, Att(s.config.self, a.nid), a.order, k);
    } else {
      LeaveChanges(s, Att(a.nev.node, a.nev.nid), a.order, k);
    }
  }

  lemma TableSteps(m: Machine, a: Action, k: Key)
    requires SameIndexed(m.db.store) && (a.DoCreate? || a.DoUpdate? || a.DoDelete? || a.OnTable?)
    ensures StepOk(m, a, k)
  {
  }

  lemma OtherSteps(m: Machine, a: Action, k: Key)
    requires SameIndexed(m.db.store)
    requires a.DoJoin? || a.DoMarkInSync? || a.DoUpdateTime? || a.OnBulkSync?
             || a.DoReapTable? || a.DoReapNetworks? || a.DoReapNodes?
    ensures StepOk(m, a, k)
  {
    if a.DoReapTable? {
      ReapFades(m.db.store, a.visits, k);
      hide ReapWalk;
    }
  }

  lemma StepKnown(m: Machine, a: Action, k: Key)
    requires SameIndexed(m.db.store) && Walks(m.db, a)
    ensures StepOk(m, a, k)
  {
    hide StepOk, Walks;
    if a.OnNode? || a.OnNotifyJoin? || a.OnNotifyLeave? {
      MemberSteps(m, a, k);
    } else if a.DoLeave? || a.OnNetwork? {
      LeaveSteps(m, a, k);
    } else if a.DoCreate? || a.DoUpdate? || a.DoDelete? || a.OnTable? {
      TableSteps(m, a, k);
    } else {
      OtherSteps(m, a, k);
    }
  }

  // ----- the invariant --------------------------------------------------------

  /** A fact comes from the owner of its key, whose clock has passed it and who knows nothing older. */
  ghost predicate FactOk(c: Cluster, owner: Key -> string, k: Key, x: Content) {
    && x.node == owner(k) && owner(k) in c.nodes && x.ltime <= c.nodes[owner(k)].db.tableClock
    && var y := Known(c.nodes[owner(k)].db, k);
    y.Some? ==> x.ltime <= y.value.ltime
  }

  ghost predicate NodesOk(c: Cluster) {
    forall i :: i in c.nodes ==> c.nodes[i].db.config.self == i && SameIndexed(c.nodes[i].db.store)
  }

  /** Whatever a node knows, an event in flight tells. */
  ghost predicate AllSent(c: Cluster) {
    forall i, k :: i in c.nodes && Known(c.nodes[i].db, k).Some? ==> Sent(c, k, Known(c.nodes[i].db, k).value)
  }

  /** What is known or told of a key at one time is one thing, from its owner; and whatever is known is told. */
  ghost predicate AgreeInv(c: Cluster, owner: Key -> string) {
    && NodesOk(c)
    && AllSent(c)
    && (forall k, x :: Fact(c, k, x) ==> FactOk(c, owner, k, x))
    && (forall k, x, y :: Fact(c, k, x) && Fact(c, k, y) && x.ltime == y.ltime ==> x == y)
  }

  /** The step may be taken: only sent events are delivered, and walks visit the keys of their network. */
  ghost predicate Possible(c: Cluster, e: Event) {
    Enabled(c, e) && (e.NodeStep? ==> Walks(c.nodes[e.i].db, e.a))
  }

  /** No live entry of the leaver is in the network it leaves. */
  ghost predicate EmptyHanded(s: Db, a: Action) {
    Leaver(s, a).Some? ==> forall k :: !LiveIn(s, Leaver(s, a).value, k)
  }

  /** Nodes write only the keys they own, to networks they are attached to. */
  predicate OwnWrite(s: Db, a: Action, owner: Key -> string) {
    Writes(s, a) ==> owner(a.k) == s.config.self && Att(s.config.self, a.k.nid) in s.view.networks
  }

  ghost predicate Harmless(c: Cluster, e: Event, owner: Key -> string)
    requires e.i in c.nodes
  {
    e.NodeStep? ==> EmptyHanded(c.nodes[e.i].db, e.a) && OwnWrite(c.nodes[e.i].db, e.a, owner)
  }

  // ----- harmless steps keep it -----------------------------------------------

  lemma EmitsWritten(s: Db, a: Action, ev: TableEvent)
    requires ev in Emits(s, a)
    ensures Writes(s, a) && Tells(ev, a.k, Written(s, a))
  {
  }

  /** A write is gossiped exactly if the network is attached. */
  lemma WrittenEmits(s: Db, a: Action)
    requires Writes(s, a)
    ensures (exists ev :: ev in Emits(s, a) && Tells(ev, a.k, Written(s, a)))
      <==> Att(s.config.self, a.k.nid) in s.view.networks
  {
    var e := LocalEntry(s, if a.DoDelete? then s.store.byTable[a.k].value else a.value);
    e := if a.DoDelete? then e.(deleting := true, reapTime := s.config.interval) else e;
    var op := if a.DoCreate? then Create else if a.DoUpdate? then Update else Delete;
    var ev := TableEvent(op, e.ltime, s.config.self, a.k, e.value, Seconds(e.reapTime));
    if Att(s.config.self, a.k.nid) in s.view.networks {
      assert ev in Emits(s, a) && Tells(ev, a.k, Written(s, a));
    }
  }

  lemma EntryTold(s: Db, k: Key)
    requires k in s.store.byTable
    ensures Known(s, k) == Some(EventContent(EventFor(k, s.store.byTable[k])))
  {
  }

  /** The step is a local write that takes effect. */
  ghost predicate WriteStep(c: Cluster, e: Event) {
    e.i in c.nodes && e.NodeStep? && Writes(c.nodes[e.i].db, e.a)
  }

  lemma NoMark(s: Db, a: Action, k: Key)
    requires EmptyHanded(s, a)
    ensures !Marks(s, a, k)
  {
  }

  /** A harmless step makes nothing known but what a local write says. */
  lemma NextFacts(c: Cluster, e: Event, owner: Key -> string, k: Key, x: Content)
    requires NodesOk(c) && Possible(c, e) && Harmless(c, e, owner) && Fact(Next(c, e), k, x)
    ensures Fact(c, k, x) || (WriteStep(c, e) && k == e.a.k && x == Written(c.nodes[e.i].db, e.a))
  {
    hide Apply, Emits, Payload, Written, EventContent, Known, Marks, EmptyHanded, OwnWrite, Walks;
    var c', m := Next(c, e), c.nodes[e.i];
    if e.NodeStep? {
      StepKnown(m, e.a, k);
      NoMark(m.db, e.a, k);
      forall ev | ev in Emits(m.db, e.a) ensures Writes(m.db, e.a) && Tells(ev, e.a.k, Written(m.db, e.a)) {
        EmitsWritten(m.db, e.a, ev);
      }
    } else if ev :| ev in c'.sent && ev !in c.sent && Tells(ev, k, x) {
      PayloadOnly(m.db.store, e.order, ev);
      assert ev.key in m.db.store.byTable;
      EntryTold(m.db, ev.key);
    }
  }

  lemma SentStays(c: Cluster, e: Event, k: Key, x: Content)
    requires e.i in c.nodes && Sent(c, k, x)
    ensures Sent(Next(c, e), k, x)
  {
    var ev :| ev in c.sent && Tells(ev, k, x);
    assert ev in Next(c, e).sent;
  }

  lemma NextSent(c: Cluster, e: Event, owner: Key -> string, i: string, k: Key)
    requires NodesOk(c) && AllSent(c) && Possible(c, e) && Harmless(c, e, owner)
    requires i in c.nodes && Known(Next(c, e).nodes[i].db, k).Some?
    ensures Sent(Next(c, e), k, Known(Next(c, e).nodes[i].db, k).value)
  {
    hide Apply, Emits, Payload, Written, Known, Marks, EmptyHanded, Walks;
    var c', m := Next(c, e), c.nodes[e.i];
    if e.NodeStep? && i == e.i {
      StepKnown(m, e.a, k);
      NoMark(m.db, e.a, k);
      if Writes(m.db, e.a) && k == e.a.k {
        WrittenEmits(m.db, e.a);
      } else if Known(c'.nodes[i].db, k) == Known(m.db, k) {
        SentStays(c, e, k, Known(m.db, k).value);
      } else {
        assert Tells(e.a.ev, k, EventContent(e.a.ev));
        SentStays(c, e, k, EventContent(e.a.ev));
      }
    } else {
      SentStays(c, e, k, Known(c.nodes[i].db, k).value);
    }
  }

  /** What the owner of a key knows of it changes only by its own write, or is forgotten. */
  lemma OwnerKnown(c: Cluster, e: Event, owner: Key -> string, k: Key)
    requires AgreeInv(c, owner) && Possible(c, e) && Harmless(c, e, owner) && owner(k) in c.nodes
    ensures
      var s, s' := c.nodes[owner(k)].db, Next(c, e).nodes[owner(k)].db;
      && s'.tableClock >= s.tableClock
      && (if WriteStep(c, e) && k == e.a.k then
            Known(s', k) == Some(Written(c.nodes[e.i].db, e.a)) && e.i == owner(k) && s'.tableClock == s.tableClock + 1
          else Fades(Known(s, k), Known(s', k)))
  {
    hide Apply, Emits, Payload, Known, Marks, EmptyHanded, Walks;
    if e.NodeStep? && e.i == owner(k) {
      StepKnown(c.nodes[e.i], e.a, k);
      NoMark(c.nodes[e.i].db, e.a, k);
      if e.a.OnTable? && e.a.ev.key == k {
        assert Tells(e.a.ev, k, EventContent(e.a.ev));
        assert Fact(c, k, EventContent(e.a.ev));
      }
    }
  }

  lemma NextNodes(c: Cluster, e: Event)
    requires e.i in c.nodes
    ensures Next(c, e).nodes.Keys == c.nodes.Keys
  {
  }

  lemma NextFactOk(c: Cluster, e: Event, owner: Key -> string, k: Key, x: Content)
    requires AgreeInv(c, owner) && Possible(c, e) && Harmless(c, e, owner) && Fact(Next(c, e), k, x)
    ensures FactOk(Next(c, e), owner, k, x)
  {
    hide Next, Known, Fact, EmptyHanded, Possible;
    assert e.i in c.nodes && Next(c, e).nodes.Keys == c.nodes.Keys by {
      EnabledNode(c, e);
      NextNodes(c, e);
    }
    NextFacts(c, e, owner, k, x);
    if Fact(c, k, x) {
      assert FactOk(c, owner, k, x);
    }
    OwnerKnown(c, e, owner, k);
  }

  lemma EnabledNode(c: Cluster, e: Event)
    requires Possible(c, e)
    ensures e.i in c.nodes
  {
  }

  /** The nodes stay as they should, whatever the step. */
  lemma NextNodesOk(c: Cluster, e: Event)
    requires NodesOk(c) && Possible(c, e)
    ensures NodesOk(Next(c, e))
  {
    hide Apply, Emits, Payload, Changes, Walks;
    if e.NodeStep? {
      StepKnown(c.nodes[e.i], e.a, Key("", "", ""));
    }
  }

  lemma NextOne(c: Cluster, e: Event, owner: Key -> string, k: Key, x: Content, y: Content)
    requires AgreeInv(c, owner) && Possible(c, e) && Harmless(c, e, owner)
    requires Fact(Next(c, e), k, x) && Fact(Next(c, e), k, y) && x.ltime == y.ltime
    ensures x == y
  {
    hide Next, Fact, Known, Sent, EmptyHanded, Walks;
    NextFacts(c, e, owner, k, x);
    NextFacts(c, e, owner, k, y);
  }

  lemma NextAgrees(c: Cluster, e: Event, owner: Key -> string)
    requires AgreeInv(c, owner) && Possible(c, e) && Harmless(c, e, owner)
    ensures AgreeInv(Next(c, e), owner)
  {
    var c' := Next(c, e);
    NextNodes(c, e);
    NextNodesOk(c, e);
    hide Next, Fact, FactOk, Known, NodesOk, Sent, Possible, Harmless;
    forall i, k | i in c'.nodes && Known(c'.nodes[i].db, k).Some? ensures Sent(c', k, Known(c'.nodes[i].db, k).value) {
      NextSent(c, e, owner, i, k);
    }
    forall k, x | Fact(c', k, x) ensures FactOk(c', owner, k, x) {
      NextFactOk(c, e, owner, k, x);
    }
    forall k, x, y | Fact(c', k, x) && Fact(c', k, y) && x.ltime == y.ltime ensures x == y {
      NextOne(c, e, owner, k, x, y);
    }
  }

  // ----- other steps break it -------------------------------------------------

  /** A leave with a live entry in hand: its tombstone is told by nobody, or is a second thing at one time. */
  lemma LeaveBreaks(c: Cluster, e: Event, owner: Key -> string, k: Key)
    requires AgreeInv(c, owner) && Possible(c, e) && e.NodeStep? && Marks(c.nodes[e.i].db, e.a, k)
    ensures !AgreeInv(Next(c, e), owner)
  {
    hide Apply, Changes, Walks;
    var c', m, a := Next(c, e), c.nodes[e.i], e.a;
    var s, s' := m.db, Apply(m, a).db;
    StepKnown(m, a, k);
    assert Known(s', k) == Some(Marked(s, a, k)) by { MarkShows(s, s', a, k); }
    var x, y := Known(s, k).value, Marked(s, a, k);
    assert Fact(c, k, x);
    assert Emits(s, a) == {};
    assert c'.sent == c.sent && c'.nodes[e.i].db == s';
    if a.DoLeave? {
      assert x.node == owner(k) == e.i && y.ltime == x.ltime + 1;
      assert !Fact(c, k, y);
      assert !Sent(c', k, y);
    } else {
      assert Sent(c, k, x) && x.ltime == y.ltime && x != y;
      assert Fact(c', k, x) && Fact(c', k, y);
    }
  }

  lemma MarkShows(s: Db, s': Db, a: Action, k: Key)
    requires Changes(s, s', a, k) && Marks(s, a, k)
    ensures Known(s', k) == Some(Marked(s, a, k))
  {
  }

  /** A write of another node's key, or one that is not gossiped. */
  lemma WriteBreaks(c: Cluster, e: Event, owner: Key -> string)
    requires AgreeInv(c, owner) && Possible(c, e) && e.NodeStep? && !OwnWrite(c.nodes[e.i].db, e.a, owner)
    ensures !AgreeInv(Next(c, e), owner)
  {
    hide Apply, Walks, Emits;
    var c', m, a := Next(c, e), c.nodes[e.i], e.a;
    var s, k := m.db, e.a.k;
    StepKnown(m, a, k);
    var x := Written(s, a);
    assert Known(c'.nodes[e.i].db, k) == Some(x);
    if owner(k) != e.i {
      assert Fact(c', k, x) && !FactOk(c', owner, k, x);
    } else {
      WrittenEmits(s, a);
      assert !Fact(c, k, x);
      assert !Sent(c', k, x) by {
        forall ev | ev in c'.sent ensures !Tells(ev, k, x) {
          assert ev in c.sent || ev in Emits(s, a);
        }
      }
    }
  }

  /** A step keeps the agreement if and only if it is harmless. */
  lemma NextAgreesIff(c: Cluster, e: Event, owner: Key -> string)
    requires AgreeInv(c, owner) && Possible(c, e)
    ensures AgreeInv(Next(c, e), owner) <==> Harmless(c, e, owner)
  {
    hide AgreeInv, Next, Possible, OwnWrite, LiveIn, Leaver;
    EnabledNode(c, e);
    if Harmless(c, e, owner) {
      NextAgrees(c, e, owner);
    } else if !OwnWrite(c.nodes[e.i].db, e.a, owner) {
      WriteBreaks(c, e, owner);
    } else {
      var s := c.nodes[e.i].db;
      var k :| LiveIn(s, Leaver(s, e.a).value, k);
      LeaveBreaks(c, e, owner, k);
    }
  }

  // ----- runs -----------------------------------------------------------------

  ghost predicate Stable(c: Cluster, e: Event, owner: Key -> string) {
    Possible(c, e) && Harmless(c, e, owner)
  }

  /** A run in which nodes write their own keys, and leave or are heard to leave a network only empty-handed. */
  ghost predicate StableRun(interval: int, owner: Key -> string, es: seq<Event>, cs: seq<Cluster>) {
    Clusters.Run(interval, es, cs) && forall j: nat :: j < |es| ==> Stable(cs[j], es[j], owner)
  }

  lemma InitialAgrees(c: Cluster, interval: int, owner: Key -> string)
    requires Initial(c, interval)
    ensures AgreeInv(c, owner)
  {
  }

  lemma {:induction false} StableAgree(interval: int, owner: Key -> string, es: seq<Event>, cs: seq<Cluster>, n: nat)
    requires StableRun(interval, owner, es, cs) && n < |cs|
    ensures AgreeInv(cs[n], owner)
  {
    hide AgreeInv, Next, Possible, Harmless, Start;
    if n == 0 {
      InitialAgrees(cs[0], interval, owner);
    } else {
      StableAgree(interval, owner, es, cs, n - 1);
      assert cs[n - 1 + 1] == Next(cs[n - 1], es[n - 1]) && Stable(cs[n - 1], es[n - 1], owner);
      NextAgrees(cs[n - 1], es[n - 1], owner);
    }
  }

  /** Two nodes that know a key at the same time know the same owner, value and deletion. */
  lemma SameTimeSameContent(
    interval: int, owner: Key -> string, es: seq<Event>, cs: seq<Cluster>, n: nat, i: string, j: string, k: Key)
    requires StableRun(interval, owner, es, cs) && n < |cs| && i in cs[n].nodes && j in cs[n].nodes
    requires k in cs[n].nodes[i].db.store.byTable && k in cs[n].nodes[j].db.store.byTable
    requires cs[n].nodes[i].db.store.byTable[k].ltime == cs[n].nodes[j].db.store.byTable[k].ltime
    ensures ContentOf(cs[n].nodes[i].db.store.byTable[k]) == ContentOf(cs[n].nodes[j].db.store.byTable[k])
  {
    StableAgree(interval, owner, es, cs, n);
    var c := cs[n];
    var x, y := ContentOf(c.nodes[i].db.store.byTable[k]), ContentOf(c.nodes[j].db.store.byTable[k]);
    assert Known(c.nodes[i].db, k) == Some(x) && Known(c.nodes[j].db, k) == Some(y);
    assert Fact(c, k, x) && Fact(c, k, y);
  }

  // ----- convergence ----------------------------------------------------------

  /** What is delivered of the key was sent. */
  ghost predicate FromSent(c: Cluster, ds: seq<Delivery>, k: Key) {
    forall d :: d in ds && d.ev.key == k ==> d.ev in c.sent
  }

  /** The newest content of the key in flight. */
  ghost predicate Latest(c: Cluster, k: Key, x: Content) {
    Sent(c, k, x) && forall y :: Sent(c, k, y) ==> y.ltime <= x.ltime
  }

  lemma HeardSent(c: Cluster, i: string, ds: seq<Delivery>, k: Key, x: Content)
    requires AllSent(c) && i in c.nodes && FromSent(c, ds, k) && Source(c.nodes[i].db, ds, k, x)
    ensures Sent(c, k, x)
  {
    if Known(c.nodes[i].db, k) != Some(x) {
      var d :| d in ds && Tells(d.ev, k, x);
      assert d.ev in c.sent;
    }
  }

  /** What stable runs send and store satisfies the one-writer premise of order independence. */
  lemma StableOneWriter(
    interval: int, owner: Key -> string, es: seq<Event>, cs: seq<Cluster>, n: nat, i: string, ds: seq<Delivery>)
    requires StableRun(interval, owner, es, cs) && n < |cs| && i in cs[n].nodes
    requires forall d :: d in ds ==> d.ev in cs[n].sent
    ensures OneWriter(cs[n].nodes[i].db, ds)
  {
    StableAgree(interval, owner, es, cs, n);
    hide Known, Source;
    forall k, x | Source(cs[n].nodes[i].db, ds, k, x) ensures Fact(cs[n], k, x) {
      HeardSent(cs[n], i, ds, k, x);
    }
  }

  /** What the owner of a key knows of it is the newest there is. */
  lemma OwnerLatest(
    interval: int, owner: Key -> string, es: seq<Event>, cs: seq<Cluster>, n: nat, k: Key)
    requires StableRun(interval, owner, es, cs) && n < |cs| && owner(k) in cs[n].nodes
    requires Known(cs[n].nodes[owner(k)].db, k).Some?
    ensures Latest(cs[n], k, Known(cs[n].nodes[owner(k)].db, k).value)
  {
    StableAgree(interval, owner, es, cs, n);
    forall y | Sent(cs[n], k, y) ensures y.ltime <= Known(cs[n].nodes[owner(k)].db, k).value.ltime {
      assert Fact(cs[n], k, y);
    }
  }

  /**
   Fed any messages in any order and with any repetitions, a node ends up with the newest content of a key if
   and only if it had that content, or was delivered it in a way that counts.
   */
  lemma CatchesUpIff(
    interval: int, owner: Key -> string, es: seq<Event>, cs: seq<Cluster>, n: nat,
    i: string, ds: seq<Delivery>, k: Key, x: Content)
    requires StableRun(interval, owner, es, cs) && n < |cs| && i in cs[n].nodes
    requires FromSent(cs[n], ds, k) && Latest(cs[n], k, x)
    ensures Known(Feed(cs[n].nodes[i].db, ds), k) == Some(x) <==> Heard(cs[n].nodes[i].db, ds, k, x)
  {
    StableAgree(interval, owner, es, cs, n);
    var c, s := cs[n], cs[n].nodes[i].db;
    HeardNewest(s, ds, k);
    hide Feed, Known, Heard, FromSent, Sent;
    var r := Known(Feed(s, ds), k);
    if r.Some? {
      HeardSource(s, ds, k, r.value);
      HeardSent(c, i, ds, k, r.value);
      assert Fact(c, k, x) && Fact(c, k, r.value);
    }
  }

  /** Two nodes agree on a key if and only if each hears something as new as all that the other hears. */
  lemma NodesConvergeIff(
    interval: int, owner: Key -> string, es: seq<Event>, cs: seq<Cluster>, n: nat,
    i: string, ds: seq<Delivery>, j: string, ds': seq<Delivery>, k: Key)
    requires StableRun(interval, owner, es, cs) && n < |cs| && i in cs[n].nodes && j in cs[n].nodes
    requires FromSent(cs[n], ds, k) && FromSent(cs[n], ds', k)
    ensures
      var s, s' := cs[n].nodes[i].db, cs[n].nodes[j].db;
      Known(Feed(s, ds), k) == Known(Feed(s', ds'), k) <==> Covered(s, ds, s', ds', k) && Covered(s', ds', s, ds, k)
  {
    StableAgree(interval, owner, es, cs, n);
    var c, s, s' := cs[n], cs[n].nodes[i].db, cs[n].nodes[j].db;
    hide Feed, Known, Heard, FromSent, Covered;
    forall x, y | Heard(s, ds, k, x) && Heard(s', ds', k, y) && x.ltime == y.ltime ensures x == y {
      HeardSource(s, ds, k, x);
      HeardSource(s', ds', k, y);
      HeardSent(c, i, ds, k, x);
      HeardSent(c, j, ds', k, y);
      assert Fact(c, k, x) && Fact(c, k, y);
    }
    SameKnownIff(s, ds, s', ds', k);
  }

  /** Every event of the key in flight is delivered in a way that counts. */
  ghost predicate HearsAll(c: Cluster, i: string, ds: seq<Delivery>, k: Key)
    requires i in c.nodes
  {
    FromSent(c, ds, k) && forall x :: Sent(c, k, x) ==> Heard(c.nodes[i].db, ds, k, x)
  }

  /** So a node that hears all there is of a key ends up with what its owner has, or nothing if nobody told of it. */
  lemma CatchesUp(
    interval: int, owner: Key -> string, es: seq<Event>, cs: seq<Cluster>, n: nat, i: string, ds: seq<Delivery>, k: Key)
    requires StableRun(interval, owner, es, cs) && n < |cs| && i in cs[n].nodes
    requires HearsAll(cs[n], i, ds, k)
    ensures
      var c, r := cs[n], Known(Feed(cs[n].nodes[i].db, ds), k);
      && (owner(k) in c.nodes && Known(c.nodes[owner(k)].db, k).Some? ==> r == Known(c.nodes[owner(k)].db, k))
      && (r.None? <==> forall x :: !Sent(c, k, x))
  {
    StableAgree(interval, owner, es, cs, n);
    var c, s := cs[n], cs[n].nodes[i].db;
    HeardNewest(s, ds, k);
    hide Feed, Known, Heard, FromSent, Sent, StableRun;
    var r := Known(Feed(s, ds), k);
    if r.Some? {
      HeardSource(s, ds, k, r.value);
      HeardSent(c, i, ds, k, r.value);
    }
    if owner(k) in c.nodes && Known(c.nodes[owner(k)].db, k).Some? {
      OwnerLatest(interval, owner, es, cs, n, k);
      CatchesUpIff(interval, owner, es, cs, n, i, ds, k, Known(c.nodes[owner(k)].db, k).value);
    }
  }

  /** And two nodes that hear all there is of a key, each in an order of its own, agree on it. */
  lemma NodesConverge(
    interval: int, owner: Key -> string, es: seq<Event>, cs: seq<Cluster>, n: nat,
    i: string, ds: seq<Delivery>, j: string, ds': seq<Delivery>, k: Key)
    requires StableRun(interval, owner, es, cs) && n < |cs| && i in cs[n].nodes && j in cs[n].nodes
    requires HearsAll(cs[n], i, ds, k) && HearsAll(cs[n], j, ds', k)
    ensures Known(Feed(cs[n].nodes[i].db, ds), k) == Known(Feed(cs[n].nodes[j].db, ds'), k)
  {
    StableAgree(interval, owner, es, cs, n);
    NodesConvergeIff(interval, owner, es, cs, n, i, ds, j, ds', k);
    hide Feed, Known, Heard, FromSent, Sent, StableRun;
    AllCovered(cs[n], i, ds, j, ds', k);
    AllCovered(cs[n], j, ds', i, ds, k);
  }

  lemma AllCovered(c: Cluster, i: string, ds: seq<Delivery>, j: string, ds': seq<Delivery>, k: Key)
    requires AllSent(c) && i in c.nodes && j in c.nodes && FromSent(c, ds, k) && HearsAll(c, j, ds', k)
    ensures Covered(c.nodes[i].db, ds, c.nodes[j].db, ds', k)
  {
    hide Known, Heard, FromSent, Sent;
    forall x | Heard(c.nodes[i].db, ds, k, x) ensures Heard(c.nodes[j].db, ds', k, x) {
      HeardSource(c.nodes[i].db, ds, k, x);
      HeardSent(c, i, ds, k, x);
    }
  }
}
