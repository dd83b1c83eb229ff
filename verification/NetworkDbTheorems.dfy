/** What one node guarantees in every reachable state. */
module DbTheorems {
  import opened NetworkDb
  import opened DbCore
  import opened DbMembers
  import opened DbRuns
  import opened RadixWalks

  /** Replaying what watchers were told gives exactly the live entries of remote nodes, values included. */
  lemma LogFidelity(c: Config, owner: Key -> string, acts: seq<Action>, ms: seq<Machine>, n: nat)
    requires Run(c, owner, acts, ms) && n < |ms|
    ensures
      var t := ms[n].db.store;
      && Replay(t.log).Keys == (set k | k in t.byTable && LiveRemote(t.byTable[k], ms[n].db.config.self))
      && forall k :: k in Replay(t.log) ==> k in t.byTable && Replay(t.log)[k] == t.byTable[k].value
  {
    hide Replay;
    RunInv(c, owner, acts, ms, n);
  }

  /**
   Node maps are disjoint; a node is listed, once, exactly when attached and not leaving; listed
   remote nodes are active.
   */
  lemma Membership(
    c: Config, owner: Key -> string, acts: seq<Action>, ms: seq<Machine>, n: nat, nid: string, name: string)
    requires Run(c, owner, acts, ms) && n < |ms|
    ensures
      var w := ms[n].db.view;
      && StatesOk(w)
      && (name in Members(w, nid) <==> Att(name, nid) in w.networks && !w.networks[Att(name, nid)].leaving)
      && multiset(Members(w, nid))[name] <= 1
      && (name in Members(w, nid) && name != ms[n].db.config.self ==> name in w.nodes)
  {
    RunInv(c, owner, acts, ms, n);
    var w := ms[n].db.view;
    assert Listed(w, nid, name) <==> Attached(w, nid, name);
    assert NoDuplicates(Members(w, nid));
    OnceInMultiset(Members(w, nid), name);
  }

  lemma {:induction false} OnceInMultiset(names: seq<string>, name: string)
    requires NoDuplicates(names)
    ensures multiset(names)[name] <= 1
  {
    if names != [] {
      var init, last := names[..|names| - 1], names[|names| - 1];
      assert names == init + [last];
      assert last !in init;
      OnceInMultiset(init, name);
      assert name == last ==> multiset(init)[name] == 0;
    }
  }

  /** A live entry of a remote node implies that the node is a member and this node is joined and not leaving. */
  lemma Ownership(c: Config, owner: Key -> string, acts: seq<Action>, ms: seq<Machine>, n: nat, k: Key)
    requires Run(c, owner, acts, ms) && n < |ms|
    requires k in ms[n].db.store.byTable && LiveRemote(ms[n].db.store.byTable[k], ms[n].db.config.self)
    ensures Joined(ms[n].db, k.nid) && ms[n].db.store.byTable[k].node in Members(ms[n].db.view, k.nid)
  {
    RunInv(c, owner, acts, ms, n);
    var m := ms[n];
    assert EntryOk(m.db.config, m.db.view, m.mid, k, m.db.store.byTable[k]);
  }

  /** Every entry belongs to this node or to an active node: none survives from a node that left or failed. */
  lemma EntriesOfActive(c: Config, owner: Key -> string, acts: seq<Action>, ms: seq<Machine>, n: nat, k: Key)
    requires Run(c, owner, acts, ms) && n < |ms| && k in ms[n].db.store.byTable
    ensures
      var w, node := ms[n].db.view, ms[n].db.store.byTable[k].node;
      node != ms[n].db.config.self ==> node in w.nodes && node !in w.left && node !in w.failed
  {
    RunInv(c, owner, acts, ms, n);
    var m := ms[n];
    assert EntryOk(m.db.config, m.db.view, m.mid, k, m.db.store.byTable[k]);
  }

  /** When the record of a network this node left is dropped, no entry of the network is left. */
  lemma TombstonesGoFirst(c: Config, owner: Key -> string, acts: seq<Action>, ms: seq<Machine>, n: nat, k: Key)
    requires Run(c, owner, acts, ms) && n < |acts|
    requires acts[n] == DoReapNetworks && k in ms[n].db.store.byTable
    ensures Att(c.self, k.nid) in ms[n + 1].db.view.networks
  {
    RunInv(c, owner, acts, ms, n);
    RunConfig(c, owner, acts, ms, n);
    ExpiredEmpty(ms[n], owner, k);
    assert Att(c.self, k.nid) in ms[n].db.view.networks by {
      assert k.nid in ms[n].db.store.counts;
    }
    assert ms[n + 1] == Apply(ms[n], acts[n]);
  }

  lemma {:induction false} RunConfig(c: Config, owner: Key -> string, acts: seq<Action>, ms: seq<Machine>, n: nat)
    requires Run(c, owner, acts, ms) && n < |ms|
    ensures ms[n].db.config == c
  {
    if n > 0 {
      RunConfig(c, owner, acts, ms, n - 1);
      assert ms[n - 1 + 1] == Apply(ms[n - 1], acts[n - 1]);
    }
  }

  /** The two indexes agree, and the entry number of every attached network is its exact count. */
  lemma CountsExact(c: Config, owner: Key -> string, acts: seq<Action>, ms: seq<Machine>, n: nat, nid: string)
    requires Run(c, owner, acts, ms) && n < |ms|
    ensures
      var s := ms[n].db;
      && s.store.byTable == s.store.byNetwork
      && (Att(s.config.self, nid) in s.view.networks ==> nid in s.store.counts)
      && (nid in s.store.counts ==> s.store.counts[nid] == |set k | k in s.store.byTable && k.nid == nid|)
      && (nid !in s.store.counts ==> forall k :: k in s.store.byTable ==> k.nid != nid)
  {
    RunInv(c, owner, acts, ms, n);
    var s := ms[n].db;
    assert KeysIn(s.store.byNetwork, nid) == set k | k in s.store.byTable && k.nid == nid;
  }

  // ----- the assumptions are needed -------------------------------------------

  /** A local live write keeps the invariant exactly when its network is joined and not being left. */
  lemma WriteKeepsIffJoined(m: Machine, owner: Key -> string, k: Key, e: Entry)
    requires Inv(m, owner) && owner(k) == m.db.config.self == e.node && !e.deleting
    ensures Inv(m.(db := Write(m.db, k, e)), owner) <==> Joined(m.db, k.nid)
  {
    hide Core, MemberOk;
    if Joined(m.db, k.nid) {
      WriteKeeps(m, owner, k, e);
    } else {
      var m' := m.(db := Write(m.db, k, e));
      if Inv(m', owner) {
        assert EntryOk(m'.db.config, m'.db.view, m'.mid, k, m'.db.store.byTable[k]);
        CoreCounts(m'.db.store, m'.db.config.self, owner, k);
        assert false;
      }
    }
  }

  lemma CoreCounts(t: Store, self: string, owner: Key -> string, k: Key)
    requires Core(t, self, owner) && k in t.byTable
    ensures k.nid in t.counts
  {
  }

  /** Whole reaper passes, one after the other. */
  function Passes(m: Machine, passes: seq<seq<Visit>>): (m': Machine) {
    if passes == [] then m
    else Apply(Apply(Passes(m, passes[..|passes| - 1]), DoReapTable(passes[|passes| - 1])), DoReapNetworks)
  }

  /** Whether a record with `r` left is still there after `n` passes. */
  predicate Lasts(r: int, n: nat) {
    n == 0 || r > REAP_PERIOD * (n - 1)
  }

  /** The record of a network being left loses a period a pass, and goes when none is left; its count goes with it. */
  lemma {:induction false} PassesAge(m: Machine, passes: seq<seq<Visit>>, nid: string)
    requires LeavingNet(m.db.config, m.db.view, nid)
    ensures
      var n, r, s := |passes|, m.db.view.networks[Att(m.db.config.self, nid)].reapTime, Passes(m, passes).db;
      var a := Att(m.db.config.self, nid);
      && s.config == m.db.config
      && (if Lasts(r, n) then LeavingNet(s.config, s.view, nid) && s.view.networks[a].reapTime == r - REAP_PERIOD * n
          else a !in s.view.networks && nid !in s.store.counts)
  {
    if passes != [] {
      var init, last := passes[..|passes| - 1], passes[|passes| - 1];
      PassesAge(m, init, nid);
      ReapWalkCounts(Passes(m, init).db.store, last);
      hide ReapWalk;
    }
  }

  /** After a leave the record of the network is there as long as the interval and six periods have not passed. */
  lemma LeftNetworkGoes(m: Machine, nid: string, order: seq<Key>, passes: seq<seq<Visit>>)
    requires Joined(m.db, nid)
    ensures
      var s := Passes(m.(db := LeaveNetwork(m.db, nid, order)), passes).db;
      Att(s.config.self, nid) in s.view.networks <==>
        |passes| == 0 || m.db.config.interval + 6 * REAP_PERIOD > REAP_PERIOD * |passes|
  {
    hide LeaveWalk, Passes;
    PassesAge(m.(db := LeaveNetwork(m.db, nid, order)), passes, nid);
  }

  /** Live entries are never reaped. */
  lemma {:induction false} PassesKeepLive(m: Machine, passes: seq<seq<Visit>>, k: Key)
    requires m.db.store.byTable == m.db.store.byNetwork && k in m.db.store.byTable && !m.db.store.byTable[k].deleting
    ensures
      var t := Passes(m, passes).db.store;
      t.byTable == t.byNetwork && k in t.byTable && t.byTable[k] == m.db.store.byTable[k]
  {
    if passes != [] {
      PassesKeepLive(m, passes[..|passes| - 1], k);
      LiveStays(Passes(m, passes[..|passes| - 1]).db.store, passes[|passes| - 1], k);
      hide ReapWalk;
    }
  }

  /**
   A local write to a network being left is never undone: once the record has gone, after as many
   passes as its time has periods, the entry is still there, live and uncounted.
   */
  lemma LateWriteOrphaned(m: Machine, owner: Key -> string, k: Key, value: Bytes, passes: seq<seq<Visit>>)
    requires Inv(m, owner) && LeavingNet(m.db.config, m.db.view, k.nid)
    requires !Lasts(m.db.view.networks[Att(m.db.config.self, k.nid)].reapTime, |passes|)
    ensures
      var a := if k in m.db.store.byTable then DoUpdate(k, value) else DoCreate(k, value);
      var s := Passes(Apply(m, a), passes).db;
      && k in s.store.byTable && s.store.byTable[k] == LocalEntry(m.db, value)
      && k.nid !in s.store.counts && Att(s.config.self, k.nid) !in s.view.networks
  {
    hide Inv, Passes, Lasts;
    var m' := m.(db := Write(m.db, k, LocalEntry(m.db, value)));
    assert m' == Apply(m, if k in m.db.store.byTable then DoUpdate(k, value) else DoCreate(k, value));
    SameIndexes(m, owner);
    hide Apply;
    PassesAge(m', passes, k.nid);
    PassesKeepLive(m', passes, k);
  }

  lemma SameIndexes(m: Machine, owner: Key -> string)
    requires Inv(m, owner)
    ensures m.db.store.byTable == m.db.store.byNetwork
  {
  }

  lemma {:induction false} LiveStays(t: Store, visits: seq<Visit>, k: Key)
    requires t.byTable == t.byNetwork && k in t.byTable && !t.byTable[k].deleting
    ensures
      var t' := ReapWalk(t, visits);
      t'.byTable == t'.byNetwork && k in t'.byTable && t'.byTable[k] == t.byTable[k]
  {
    if visits != [] {
      LiveStays(t, visits[..|visits| - 1], k);
      ReapKeyAt(ReapWalk(t, visits[..|visits| - 1]), visits[|visits| - 1], k);
    }
  }

  /**
   The walk of a tree that holds the paths of the keys is one that visits every key once, as the steps of a
   run take it to be, if no path is a proper prefix of another.
   */
  lemma TreeWalkLists(
    ts: seq<Tree>, root: string, del: string -> bool, path: Key -> string, keys: set<Key>, order: seq<Key>)
    requires Spells(ts, root) && Branches(ts) && PrefixFree(Leaves(ts))
    requires forall k, k' :: k in keys && k' in keys && path(k) == path(k') ==> k == k'
    requires forall k :: k in keys ==> path(k) in Leaves(ts)
    requires |order| == |Walk(ts, del)|
    requires forall i :: 0 <= i < |order| ==> order[i] in keys && path(order[i]) == Walk(ts, del)[i]
    ensures Lists(order, keys)
  {
    hide Walk, Leaves, Spells, Branches, PrefixFree;
    WalkOnce(ts, root, del);
    var walk := Walk(ts, del);
    forall i, j | 0 <= i < j < |order| ensures order[i] != order[j] {
      assert walk[i] != walk[j];
    }
    forall k | k in keys ensures k in order {
      var i :| 0 <= i < |walk| && walk[i] == path(k);
      assert order[i] == k;
    }
  }

  /** When a node goes, its entries go exactly if the walk visits all of them. */
  lemma PurgeCompleteIff(s: Db, name: string, to: NodeState, order: seq<Key>)
    requires to != Active && ChangeState(s, name, to, order).1
    ensures (forall k :: k in ChangeState(s, name, to, order).0.store.byTable ==>
               ChangeState(s, name, to, order).0.store.byTable[k].node != name)
      <==> (forall k :: k in s.store.byTable && s.store.byTable[k].node == name ==> k in order)
  {
    var t := if name == s.config.self then s.store.(counts := map[]) else s.store;
    var t' := ChangeState(s, name, to, order).0.store;
    assert t' == PurgeWalk(t, name, order);
    hide PurgeWalk, ChangeState;
    forall k
      ensures k in t'.byTable && t'.byTable[k].node == name <==>
              k in s.store.byTable && s.store.byTable[k].node == name && k !in order
    {
      PurgeWalkAt(t, name, order, k);
    }
  }

  /** Without a positive network interval, a leave between the halves of a reaper pass leaves its tombstones behind. */
  lemma ShortIntervalOrphans(m: Machine, owner: Key -> string, order: seq<Key>, k: Key)
    requires Inv(m, owner) && m.mid && NetworkInterval(m.db.config) <= 0
    requires Joined(m.db, k.nid) && Lists(order, NetworkKeys(m.db.store, k.nid))
    requires k in m.db.store.byTable && m.db.store.byTable[k].node == m.db.config.self
    ensures
      var s := Apply(Apply(m, DoLeave(k.nid, order)), DoReapNetworks).db;
      k in s.store.byTable && k.nid !in s.store.counts
  {
    hide LeaveWalk, DropMember;
    LeaveViewKeeps(m.db, k.nid, order);
    LeaveWalkAt(m.db.store, m.db.config, m.db.config.self, order, k);
  }
}
