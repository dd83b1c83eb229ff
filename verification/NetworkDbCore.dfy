/** What every handler keeps about the entries: indexes, owners, counts and the watchers' log. */
module DbCore {
  import opened Bitmaps
  import opened NetworkDb

  // ----- the watchers' log ----------------------------------------------------

  /** A watcher stores created and updated values and removes deleted ones. */
  function Hear(m: map<Key, Bytes>, n: Note): (r: map<Key, Bytes>) {
    if n.NodeNote? then m else if n.op == Delete then m - {n.key} else m[n.key := n.value]
  }

  /** What a watcher knows that has heard the whole log. */
  function Replay(log: seq<Note>): (m: map<Key, Bytes>) {
    if log == [] then map[] else Hear(Replay(log[..|log| - 1]), log[|log| - 1])
  }

  predicate LiveRemote(e: Entry, self: string) {
    !e.deleting && e.node != self
  }

  /** The live entries owned by other nodes. */
  function Visible(entries: map<Key, Entry>, self: string): (m: map<Key, Bytes>) {
    map k | k in entries && LiveRemote(entries[k], self) :: entries[k].value
  }

  ghost predicate LogOk(t: Store, self: string) {
    Replay(t.log) == Visible(t.byTable, self)
  }

  lemma ReplayNoted(log: seq<Note>, n: Note)
    ensures Replay(log + [n]) == Hear(Replay(log), n)
  {
    assert (log + [n])[..|log|] == log;
  }

  lemma VisiblePut(m: map<Key, Entry>, k: Key, e: Entry, self: string)
    ensures Visible(m[k := e], self) ==
            if LiveRemote(e, self) then Visible(m, self)[k := e.value] else Visible(m, self) - {k}
  {
  }

  lemma VisibleDrop(m: map<Key, Entry>, k: Key, self: string)
    ensures Visible(m - {k}, self) == Visible(m, self) - {k}
  {
  }

  lemma VisibleAbsent(m: map<Key, Entry>, k: Key, self: string)
    requires k in m ==> !LiveRemote(m[k], self)
    ensures k !in Visible(m, self) && Visible(m, self) - {k} == Visible(m, self)
  {
  }

  // ----- counts ---------------------------------------------------------------

  function KeysIn(m: map<Key, Entry>, nid: string): (ks: set<Key>) {
    set k | k in m && k.nid == nid
  }

  lemma KeysInPut(m: map<Key, Entry>, k: Key, e: Entry, nid: string)
    ensures |KeysIn(m[k := e], nid)| == |KeysIn(m, nid)| + if k !in m && k.nid == nid then 1 else 0
  {
    assert KeysIn(m[k := e], nid) == if k.nid == nid then KeysIn(m, nid) + {k} else KeysIn(m, nid);
  }

  lemma KeysInDrop(m: map<Key, Entry>, k: Key, nid: string)
    ensures |KeysIn(m - {k}, nid)| == |KeysIn(m, nid)| - if k in m && k.nid == nid then 1 else 0
  {
    assert KeysIn(m - {k}, nid) == KeysIn(m, nid) - {k};
  }

  ghost predicate CountsOk(t: Store) {
    forall nid :: nid in t.counts ==> t.counts[nid] == |KeysIn(t.byNetwork, nid)|
  }

  lemma PutCounts(t: Store, k: Key, e: Entry)
    requires CountsOk(t)
    ensures CountsOk(Put(t, k, e))
  {
    forall nid | nid in t.counts ensures Put(t, k, e).counts[nid] == |KeysIn(t.byNetwork[k := e], nid)| {
      KeysInPut(t.byNetwork, k, e, nid);
    }
  }

  lemma DropCounts(t: Store, k: Key)
    requires CountsOk(t)
    ensures CountsOk(Drop(t, k))
  {
    forall nid | nid in t.counts ensures Drop(t, k).counts[nid] == |KeysIn(t.byNetwork - {k}, nid)| {
      KeysInDrop(t.byNetwork, k, nid);
    }
  }

  // ----- all of it ------------------------------------------------------------

  /** Entries are written by their owners, in networks that are counted. */
  ghost predicate OwnersOk(t: Store, owner: Key -> string) {
    forall k :: k in t.byTable ==> t.byTable[k].node == owner(k) && k.nid in t.counts
  }

  /** The indexes agree, owners and counts are right, and the log tells the live remote entries. */
  ghost predicate Core(t: Store, self: string, owner: Key -> string) {
    t.byTable == t.byNetwork && OwnersOk(t, owner) && CountsOk(t) && LogOk(t, self)
  }

  /** Storing an entry that changes nothing visible. */
  lemma PutSilent(t: Store, self: string, owner: Key -> string, k: Key, e: Entry)
    requires Core(t, self, owner) && e.node == owner(k) && k.nid in t.counts
    requires !LiveRemote(e, self) && (k in t.byTable ==> !LiveRemote(t.byTable[k], self))
    ensures Core(Put(t, k, e), self, owner)
  {
    hide Visible, CountsOk;
    PutCounts(t, k, e);
    VisiblePut(t.byTable, k, e, self);
    VisibleAbsent(t.byTable, k, self);
  }

  /** Storing an entry and telling the watchers. */
  lemma PutNoted(t: Store, self: string, owner: Key -> string, k: Key, e: Entry, op: Op, v: Bytes)
    requires Core(t, self, owner) && e.node == owner(k) && k.nid in t.counts
    requires if op == Delete then !LiveRemote(e, self) else LiveRemote(e, self) && v == e.value
    ensures Core(Noted(Put(t, k, e), TableNote(op, k, v)), self, owner)
  {
    hide Visible, Replay;
    PutCounts(t, k, e);
    VisiblePut(t.byTable, k, e, self);
    ReplayNoted(t.log, TableNote(op, k, v));
  }

  lemma DropSilent(t: Store, self: string, owner: Key -> string, k: Key)
    requires Core(t, self, owner) && (k in t.byTable ==> !LiveRemote(t.byTable[k], self))
    ensures Core(Drop(t, k), self, owner)
  {
    hide Visible, CountsOk;
    DropCounts(t, k);
    VisibleDrop(t.byTable, k, self);
    VisibleAbsent(t.byTable, k, self);
  }

  lemma DropNoted(t: Store, self: string, owner: Key -> string, k: Key, v: Bytes)
    requires Core(t, self, owner)
    ensures Core(Noted(Drop(t, k), TableNote(Delete, k, v)), self, owner)
  {
    hide Visible, Replay;
    DropCounts(t, k);
    VisibleDrop(t.byTable, k, self);
    ReplayNoted(t.log, TableNote(Delete, k, v));
  }

  lemma NodeNoted(t: Store, self: string, owner: Key -> string, op: Op, addr: string)
    requires Core(t, self, owner)
    ensures Core(Noted(t, NodeNote(op, addr)), self, owner)
  {
    hide Visible, Replay;
    ReplayNoted(t.log, NodeNote(op, addr));
  }

  // ----- walks ----------------------------------------------------------------

  lemma LeaveKeyCore(t: Store, c: Config, owner: Key -> string, node: string, k: Key)
    requires Core(t, c.self, owner)
    ensures Core(LeaveKey(t, c, node, k), c.self, owner)
  {
    hide Put, Drop, Visible, CountsOk, LogOk;
    if k in t.byNetwork {
      var e, local := t.byNetwork[k], node == c.self;
      if local || (e.node == node && !e.deleting) {
        if e.node != node {
          if e.deleting {
            DropSilent(t, c.self, owner, k);
          } else {
            DropNoted(t, c.self, owner, k, e.value);
          }
        } else if !e.deleting {
          var marked := e.(deleting := true, reapTime := c.interval, ltime := if local then e.ltime + 1 else e.ltime);
          PutNoted(t, c.self, owner, k, marked, Delete, e.value);
        }
      }
    }
  }

  lemma {:induction false} LeaveWalkCore(t: Store, c: Config, owner: Key -> string, node: string, order: seq<Key>)
    requires Core(t, c.self, owner)
    ensures Core(LeaveWalk(t, c, node, order), c.self, owner)
  {
    hide Core, LeaveKey;
    if order != [] {
      LeaveWalkCore(t, c, owner, node, order[..|order| - 1]);
      LeaveKeyCore(LeaveWalk(t, c, node, order[..|order| - 1]), c, owner, node, order[|order| - 1]);
    }
  }

  lemma PurgeKeyCore(t: Store, self: string, owner: Key -> string, node: string, k: Key)
    requires Core(t, self, owner)
    ensures Core(PurgeKey(t, node, k), self, owner)
  {
    hide Drop, Visible, CountsOk, LogOk;
    if k in t.byTable && t.byTable[k].node == node {
      if t.byTable[k].deleting {
        DropSilent(t, self, owner, k);
      } else {
        DropNoted(t, self, owner, k, t.byTable[k].value);
      }
    }
  }

  lemma {:induction false} PurgeWalkCore(t: Store, self: string, owner: Key -> string, node: string, order: seq<Key>)
    requires Core(t, self, owner)
    ensures Core(PurgeWalk(t, node, order), self, owner)
  {
    hide Core, PurgeKey;
    if order != [] {
      PurgeWalkCore(t, self, owner, node, order[..|order| - 1]);
      PurgeKeyCore(PurgeWalk(t, node, order[..|order| - 1]), self, owner, node, order[|order| - 1]);
    }
  }

  lemma ReapKeyCore(t: Store, self: string, owner: Key -> string, v: Visit)
    requires Core(t, self, owner)
    ensures Core(ReapKey(t, v), self, owner)
  {
    hide Visible, CountsOk, LogOk;
    if v.key in t.byNetwork && t.byNetwork[v.key].deleting {
      var e := t.byNetwork[v.key];
      if e.reapTime > REAP_PERIOD + v.late + SECOND {
        var e' := e.(reapTime := e.reapTime - (REAP_PERIOD + v.late));
        PutSilent(t, self, owner, v.key, e');
        assert ReapKey(t, v) == Put(t, v.key, e');
      } else {
        DropSilent(t, self, owner, v.key);
      }
    }
  }

  lemma {:induction false} ReapWalkCore(t: Store, self: string, owner: Key -> string, order: seq<Visit>)
    requires Core(t, self, owner)
    ensures Core(ReapWalk(t, order), self, owner)
  {
    hide Core, ReapKey;
    if order != [] {
      ReapWalkCore(t, self, owner, order[..|order| - 1]);
      ReapKeyCore(ReapWalk(t, order[..|order| - 1]), self, owner, order[|order| - 1]);
    }
  }

  // ----- single writes --------------------------------------------------------

  /** Accepting an event from the owner of its key, which is not this node. */
  lemma AcceptCore(t: Store, c: Config, owner: Key -> string, ev: TableEvent)
    requires Core(t, c.self, owner) && ev.node == owner(ev.key) && ev.node != c.self && ev.key.nid in t.counts
    ensures Core(Accept(t, c, ev), c.self, owner)
  {
    hide Put, Visible, CountsOk, LogOk;
    if ev.key !in t.byTable && ev.op == Delete {
      PutSilent(t, c.self, owner, ev.key, EntryOf(c, ev));
    } else {
      PutNoted(t, c.self, owner, ev.key, EntryOf(c, ev), ev.op, ev.value);
    }
  }

  /** A local write of a key this node owns tells watchers nothing. */
  lemma WriteCore(t: Store, c: Config, owner: Key -> string, k: Key, e: Entry)
    requires Core(t, c.self, owner) && owner(k) == c.self == e.node && k.nid in t.counts
    ensures Core(Put(t, k, e), c.self, owner)
  {
    hide Put, Visible, CountsOk, LogOk;
    PutSilent(t, c.self, owner, k, e);
  }

  // ----- what a walk does to one key ------------------------------------------

  function At(m: map<Key, Entry>, k: Key): (e: Option<Entry>) {
    if k in m then Some(m[k]) else None
  }

  lemma LeaveKeyOther(t: Store, c: Config, node: string, k: Key, j: Key)
    requires j != k
    ensures At(LeaveKey(t, c, node, k).byTable, j) == At(t.byTable, j)
    ensures At(LeaveKey(t, c, node, k).byNetwork, j) == At(t.byNetwork, j)
  {
  }

  /** A key is changed by its own visit only. */
  lemma {:induction false} LeaveWalkAt(t: Store, c: Config, node: string, order: seq<Key>, k: Key)
    requires forall i, j :: 0 <= i < j < |order| ==> order[i] != order[j]
    ensures
      var t' := LeaveWalk(t, c, node, order);
      && At(t'.byNetwork, k) == (if k in order then At(LeaveKey(t, c, node, k).byNetwork, k) else At(t.byNetwork, k))
      && At(t'.byTable, k) == (if k in order then At(LeaveKey(t, c, node, k).byTable, k) else At(t.byTable, k))
  {
    if order != [] {
      var init, last := order[..|order| - 1], order[|order| - 1];
      LeaveWalkAt(t, c, node, init, k);
      var t1 := LeaveWalk(t, c, node, init);
      assert last !in init;
      if k == last {
        SameVisit(t, t1, c, node, k);
      } else {
        LeaveKeyOther(t1, c, node, last, k);
      }
    }
  }

  lemma SameVisit(t: Store, t1: Store, c: Config, node: string, k: Key)
    requires At(t1.byNetwork, k) == At(t.byNetwork, k) && At(t1.byTable, k) == At(t.byTable, k)
    ensures At(LeaveKey(t1, c, node, k).byNetwork, k) == At(LeaveKey(t, c, node, k).byNetwork, k)
    ensures At(LeaveKey(t1, c, node, k).byTable, k) == At(LeaveKey(t, c, node, k).byTable, k)
  {
  }

  lemma PurgeKeyOther(t: Store, node: string, k: Key, j: Key)
    ensures At(PurgeKey(t, node, k).byTable, j) ==
      if j == k && j in t.byTable && t.byTable[j].node == node then None else At(t.byTable, j)
  {
  }

  /** The walk removes the node's entries among the keys it visits, and nothing else. */
  lemma {:induction false} PurgeWalkAt(t: Store, node: string, order: seq<Key>, k: Key)
    ensures At(PurgeWalk(t, node, order).byTable, k) ==
      if k in order && k in t.byTable && t.byTable[k].node == node then None else At(t.byTable, k)
  {
    if order != [] {
      var init, last := order[..|order| - 1], order[|order| - 1];
      PurgeWalkAt(t, node, init, k);
      PurgeKeyOther(PurgeWalk(t, node, init), node, last, k);
    }
  }
}
