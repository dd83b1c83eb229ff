/**
 A cluster: any number of nodes, and the table events in flight, which may be
 delivered at any time and any number of times.
 */
module Clusters {
  import opened Bitmaps
  import opened NetworkDb
  import opened DbRuns
  import opened Convergence

  datatype Cluster = Cluster(nodes: map<string, Machine>, sent: set<TableEvent>)

  datatype Event =
    | NodeStep(i: string, a: Action)
    | SendBulk(i: string, order: seq<Key>)

  /** The event a local write gossips, if the network is still there. */
  function Emits(s: Db, a: Action): (evs: set<TableEvent>) {
    if a.DoCreate? && a.k !in s.store.byTable then Gossip(s, Create, a.k, LocalEntry(s, a.value))
    else if a.DoUpdate? && a.k in s.store.byTable then Gossip(s, Update, a.k, LocalEntry(s, a.value))
    else if a.DoDelete? && a.k in s.store.byTable && !s.store.byTable[a.k].deleting then
      var e := LocalEntry(s, s.store.byTable[a.k].value);
      Gossip(s, Delete, a.k, e.(deleting := true, reapTime := s.config.interval))
    else {}
  }

  function Gossip(s: Db, op: Op, k: Key, e: Entry): (evs: set<TableEvent>) {
    if Att(s.config.self, k.nid) in s.view.networks then
      {TableEvent(op, e.ltime, s.config.self, k, e.value, Seconds(e.reapTime))}
    else {}
  }

  function Next(c: Cluster, e: Event): (c': Cluster)
    requires e.i in c.nodes
  {
    match e
    case NodeStep(i, a) => Cluster(c.nodes[i := Apply(c.nodes[i], a)], c.sent + Emits(c.nodes[i].db, a))
    case SendBulk(i, order) => c.(sent := c.sent + set ev | ev in Payload(c.nodes[i].db.store, order))
  }

  /** Table events are delivered only if they were sent. */
  ghost predicate Enabled(c: Cluster, e: Event) {
    e.i in c.nodes && (e.NodeStep? && e.a.OnTable? ==> e.a.ev in c.sent)
  }

  /** New nodes with one configured interval. */
  ghost predicate Initial(c: Cluster, interval: int) {
    && c.sent == {}
    && forall i :: i in c.nodes ==> c.nodes[i].db == Start(Config(i, interval))
  }

  ghost predicate Run(interval: int, es: seq<Event>, cs: seq<Cluster>) {
    && |cs| == |es| + 1
    && Initial(cs[0], interval)
    && forall j: nat :: j < |es| ==> Enabled(cs[j], es[j]) && cs[j + 1] == Next(cs[j], es[j])
  }

  // ----- residual times -------------------------------------------------------

  /** The interval is at least a second and fits the wire format in whole seconds. */
  predicate UsualInterval(d: int) {
    SECOND <= d < I32_LIMIT * SECOND
  }

  predicate Residual(e: Entry, interval: int) {
    e.deleting ==> SECOND <= e.reapTime <= interval
  }

  ghost predicate ResidualsOk(t: Store, interval: int) {
    && (forall k :: k in t.byTable ==> Residual(t.byTable[k], interval))
    && (forall k :: k in t.byNetwork ==> Residual(t.byNetwork[k], interval))
  }

  predicate EventOk(ev: TableEvent, interval: int) {
    ev.op == Delete ==> 1 <= ev.residual <= interval / SECOND < I32_LIMIT
  }

  lemma {:induction false} LeaveWalkResiduals(t: Store, c: Config, node: string, order: seq<Key>)
    requires ResidualsOk(t, c.interval) && SECOND <= c.interval
    ensures ResidualsOk(LeaveWalk(t, c, node, order), c.interval)
  {
    if order != [] {
      LeaveWalkResiduals(t, c, node, order[..|order| - 1]);
    }
  }

  lemma {:induction false} PurgeWalkResiduals(t: Store, node: string, order: seq<Key>, interval: int)
    requires ResidualsOk(t, interval)
    ensures ResidualsOk(PurgeWalk(t, node, order), interval)
  {
    if order != [] {
      PurgeWalkResiduals(t, node, order[..|order| - 1], interval);
    }
  }

  lemma {:induction false} ReapWalkResiduals(t: Store, visits: seq<Visit>, interval: int)
    requires ResidualsOk(t, interval)
    ensures ResidualsOk(ReapWalk(t, visits), interval)
  {
    if visits != [] {
      ReapWalkResiduals(t, visits[..|visits| - 1], interval);
    }
  }

  lemma PutResiduals(t: Store, k: Key, e: Entry, interval: int)
    requires ResidualsOk(t, interval) && Residual(e, interval)
    ensures ResidualsOk(Put(t, k, e), interval)
  {
  }

  lemma ChangeStateResiduals(s: Db, name: string, to: NodeState, order: seq<Key>)
    requires ResidualsOk(s.store, s.config.interval)
    ensures ResidualsOk(ChangeState(s, name, to, order).0.store, s.config.interval)
  {
    hide ResidualsOk, PurgeWalk, Move;
    var t := s.store.(counts := map[]);
    SameEntries(s.store, t, s.config.interval);
    PurgeWalkResiduals(s.store, name, order, s.config.interval);
    PurgeWalkResiduals(t, name, order, s.config.interval);
  }

  lemma SameEntries(t: Store, t': Store, interval: int)
    requires ResidualsOk(t, interval) && t'.byTable == t.byTable && t'.byNetwork == t.byNetwork
    ensures ResidualsOk(t', interval)
  {
  }

  /** A received deletion carries a residual time of its own, so the fallback for a missing one is not used. */
  lemma ReceivedResidual(c: Config, ev: TableEvent)
    requires EventOk(ev, c.interval)
    ensures Residual(EntryOf(c, ev), c.interval)
    ensures ev.op == Delete ==> EntryOf(c, ev).reapTime == ev.residual * SECOND
  {
  }

  lemma NodeResiduals(m: Machine, a: Action)
    requires ResidualsOk(m.db.store, m.db.config.interval) && SECOND <= m.db.config.interval
    requires a.OnTable? ==> EventOk(a.ev, m.db.config.interval)
    ensures Apply(m, a).db.config == m.db.config
    ensures ResidualsOk(Apply(m, a).db.store, m.db.config.interval)
  {
    hide ResidualsOk, LeaveWalk, PurgeWalk, ReapWalk, Put, Move;
    var s, c, d := m.db, m.db.config, m.db.config.interval;
    if a.DoLeave? {
      LeaveWalkResiduals(s.store, c, c.self, a.order);
    } else if a.DoCreate? || a.DoUpdate? {
      PutResiduals(s.store, a.k, LocalEntry(s, a.value), d);
    } else if a.DoDelete? {
      if a.k in s.store.byTable {
        PutResiduals(s.store, a.k, LocalEntry(s, s.store.byTable[a.k].value).(deleting := true, reapTime := d), d);
      }
    } else if a.OnTable? {
      ReceivedResidual(c, a.ev);
      PutResiduals(s.store, a.ev.key, EntryOf(c, a.ev), d);
      NotedEntries(Put(s.store, a.ev.key, EntryOf(c, a.ev)), TableNote(a.ev.op, a.ev.key, a.ev.value), d);
    } else if a.OnNetwork? {
      LeaveWalkResiduals(s.store, c, a.nev.node, a.order);
    } else if a.OnNode? {
      var s2 := s.(networkClock := Witness(s.networkClock, a.dev.ltime),
                   view := WithTime(s.view, a.dev.node, a.dev.ltime));
      ChangeStateResiduals(s2, a.dev.node, Active, a.order);
      ChangeStateResiduals(s2, a.dev.node, Left, a.order);
    } else if a.OnNotifyJoin? {
      var s1 := WithNote(s, NodeNote(Create, a.addr));
      NotedEntries(s.store, NodeNote(Create, a.addr), d);
      ChangeStateResiduals(s1, a.name, Active, []);
      if a.prior.Some? {
        ChangeStateResiduals(s1, a.prior.value, Left, a.order);
      }
    } else if a.OnNotifyLeave? {
      NotedEntries(s.store, NodeNote(Delete, a.addr), d);
      ChangeStateResiduals(WithNote(s, NodeNote(Delete, a.addr)), a.name, Failed, a.order);
    } else if a.DoReapTable? {
      ReapWalkResiduals(s.store, a.visits, d);
    } else {
      SameEntries(s.store, Apply(m, a).db.store, d);
    }
  }

  lemma NotedEntries(t: Store, n: Note, interval: int)
    requires ResidualsOk(t, interval)
    ensures ResidualsOk(Noted(t, n), interval)
  {
  }

  lemma EmittedOk(s: Db, a: Action, ev: TableEvent)
    requires UsualInterval(s.config.interval) && ev in Emits(s, a)
    ensures EventOk(ev, s.config.interval)
  {
  }

  lemma {:induction false} PayloadOk(t: Store, order: seq<Key>, interval: int)
    requires ResidualsOk(t, interval) && UsualInterval(interval)
    ensures forall ev :: ev in Payload(t, order) ==> EventOk(ev, interval)
  {
    if order != [] {
      PayloadOk(t, order[..|order| - 1], interval);
      var k := order[|order| - 1];
      if k in t.byNetwork {
        assert Residual(t.byNetwork[k], interval);
      }
    }
  }

  ghost predicate ResidualInv(c: Cluster, interval: int) {
    && (forall i :: i in c.nodes ==>
          c.nodes[i].db.config.interval == interval && ResidualsOk(c.nodes[i].db.store, interval))
    && (forall ev :: ev in c.sent ==> EventOk(ev, interval))
  }

  lemma NextResiduals(c: Cluster, e: Event, interval: int)
    requires ResidualInv(c, interval) && Enabled(c, e) && UsualInterval(interval)
    ensures ResidualInv(Next(c, e), interval)
  {
    hide ResidualsOk, Apply, Emits, Payload, EventOk;
    var m := c.nodes[e.i];
    if e.NodeStep? {
      NodeResiduals(m, e.a);
      forall ev | ev in Emits(m.db, e.a) ensures EventOk(ev, interval) {
        EmittedOk(m.db, e.a, ev);
      }
    } else {
      PayloadOk(m.db.store, e.order, interval);
    }
  }

  /** In every run, stored and in-flight deletions have between a second and the interval left, in whole seconds too. */
  lemma {:induction false} ResidualBound(interval: int, es: seq<Event>, cs: seq<Cluster>, n: nat)
    requires Run(interval, es, cs) && n < |cs| && UsualInterval(interval)
    ensures ResidualInv(cs[n], interval)
  {
    if n > 0 {
      ResidualBound(interval, es, cs, n - 1);
      hide ResidualInv, Next;
      assert cs[n - 1 + 1] == Next(cs[n - 1], es[n - 1]);
      NextResiduals(cs[n - 1], es[n - 1], interval);
    }
  }
}
