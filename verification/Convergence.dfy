/** Table events applied in any order: the newest wins. */
module Convergence {
  import opened Bitmaps
  import opened NetworkDb

  datatype Delivery = Delivery(ev: TableEvent, bulk: bool)

  /** Delivers messages one after the other. */
  function Feed(s: Db, ds: seq<Delivery>): (s': Db) {
    if ds == [] then s
    else HandleTableMessage(Feed(s, ds[..|ds| - 1]), ds[|ds| - 1].ev, ds[|ds| - 1].bulk).0
  }

  /** What the nodes of a cluster are to agree on. */
  datatype Content = Content(ltime: nat, node: string, value: Bytes, deleted: bool)

  function ContentOf(e: Entry): (c: Content) {
    Content(e.ltime, e.node, e.value, e.deleting)
  }

  function EventContent(ev: TableEvent): (c: Content) {
    Content(ev.ltime, ev.node, ev.value, ev.op == Delete)
  }

  function Known(s: Db, k: Key): (c: Option<Content>) {
    if k in s.store.byTable then Some(ContentOf(s.store.byTable[k])) else None
  }

  /** The node is a joined member of the event's network, as is the event's sender, another node. */
  ghost predicate Heeds(s: Db, ev: TableEvent) {
    ev.node != s.config.self && Relevant(s, ev)
  }

  /** The delivery counts: it is heeded, and is no asynchronous deletion of an entry that is unknown at that moment. */
  ghost predicate Kept(s: Db, ds: seq<Delivery>, i: nat)
    requires i < |ds|
  {
    Heeds(s, ds[i].ev) && (ds[i].bulk || ds[i].ev.op != Delete || ds[i].ev.key in Feed(s, ds[..i]).store.byTable)
  }

  /** What is known of a key from the start, or from a delivery that counts. */
  ghost predicate Heard(s: Db, ds: seq<Delivery>, k: Key, c: Content) {
    Known(s, k) == Some(c) || exists i: nat :: i < |ds| && Kept(s, ds, i) && Tells(ds[i].ev, k, c)
  }

  predicate Tells(ev: TableEvent, k: Key, c: Content) {
    ev.key == k && EventContent(ev) == c
  }

  /** What is known of a key from the start, or from any delivery. */
  ghost predicate Source(s: Db, ds: seq<Delivery>, k: Key, c: Content) {
    Known(s, k) == Some(c) || exists d :: d in ds && Tells(d.ev, k, c)
  }

  /** The newest of all that was heard of the key, or nothing if nothing was. */
  ghost predicate NewestHeard(s: Db, ds: seq<Delivery>, k: Key, r: Option<Content>) {
    && (r.Some? ==> Heard(s, ds, k, r.value))
    && (forall c :: Heard(s, ds, k, c) ==> r.Some? && c.ltime <= r.value.ltime)
  }

  /** The newest of all that was delivered of the key. */
  ghost predicate Newest(s: Db, ds: seq<Delivery>, k: Key, r: Option<Content>) {
    && (r.Some? ==> Source(s, ds, k, r.value))
    && (forall c :: Source(s, ds, k, c) ==> r.Some? && c.ltime <= r.value.ltime)
  }

  lemma {:induction false} FeedView(s: Db, ds: seq<Delivery>)
    ensures Feed(s, ds).view == s.view && Feed(s, ds).config == s.config
  {
    if ds != [] {
      FeedView(s, ds[..|ds| - 1]);
    }
  }

  /** One delivery: if it counts, the content of the event's key becomes the newer of the two. */
  lemma HandleNewest(s: Db, d: Delivery, k: Key)
    ensures
      var r := Known(HandleTableMessage(s, d.ev, d.bulk).0, k);
      if && d.ev.key == k && Heeds(s, d.ev) && (d.bulk || d.ev.op != Delete || k in s.store.byTable)
         && (Known(s, k).None? || Known(s, k).value.ltime < d.ev.ltime)
      then r == Some(EventContent(d.ev))
      else r == Known(s, k)
  {
  }

  lemma HeardSnoc(s: Db, ds: seq<Delivery>, k: Key, c: Content)
    requires ds != []
    ensures
      var n := |ds| - 1;
      Heard(s, ds, k, c) <==> Heard(s, ds[..n], k, c) || (Kept(s, ds, n) && Tells(ds[n].ev, k, c))
  {
    hide Heeds, Feed, Tells;
    var n := |ds| - 1;
    var init := ds[..n];
    forall i: nat | i < n ensures Kept(s, ds, i) <==> Kept(s, init, i) {
      assert init[..i] == ds[..i];
    }
    if i: nat :| i < |ds| && Kept(s, ds, i) && Tells(ds[i].ev, k, c) {
      assert i < n ==> Kept(s, init, i) && Tells(init[i].ev, k, c);
    }
    if i: nat :| i < n && Kept(s, init, i) && Tells(init[i].ev, k, c) {
      assert Kept(s, ds, i) && Tells(ds[i].ev, k, c);
    }
  }

  /** After any deliveries a node has the newest of all it heard of a key. */
  lemma {:induction false} HeardNewest(s: Db, ds: seq<Delivery>, k: Key)
    ensures NewestHeard(s, ds, k, Known(Feed(s, ds), k))
  {
    if ds != [] {
      var n := |ds| - 1;
      var init, last := ds[..n], ds[n];
      HeardNewest(s, init, k);
      FeedView(s, init);
      HandleNewest(Feed(s, init), last, k);
      assert Kept(s, ds, n) <==> Heeds(Feed(s, init), last.ev)
                                 && (last.bulk || last.ev.op != Delete || last.ev.key in Feed(s, init).store.byTable);
      assert Feed(s, ds) == HandleTableMessage(Feed(s, init), last.ev, last.bulk).0;
      hide HandleTableMessage, Feed, Kept, Heard, Heeds, Known;
      forall c ensures Heard(s, ds, k, c) <==> Heard(s, init, k, c) || (Kept(s, ds, n) && Tells(last.ev, k, c)) {
        HeardSnoc(s, ds, k, c);
      }
    }
  }

  lemma HeardSource(s: Db, ds: seq<Delivery>, k: Key, c: Content)
    requires Heard(s, ds, k, c)
    ensures Source(s, ds, k, c)
  {
    hide Kept, Tells;
    if i: nat :| i < |ds| && Kept(s, ds, i) && Tells(ds[i].ev, k, c) {
      assert ds[i] in ds;
    }
  }

  /** All that was delivered of the key is no newer than something heard. */
  ghost predicate NothingLost(s: Db, ds: seq<Delivery>, k: Key) {
    forall c :: Source(s, ds, k, c) ==> exists c' :: Heard(s, ds, k, c') && c.ltime <= c'.ltime
  }

  /** A node has the newest of all that was delivered exactly when every delivery that does not count is made up for. */
  lemma NewestIff(s: Db, ds: seq<Delivery>, k: Key)
    ensures Newest(s, ds, k, Known(Feed(s, ds), k)) <==> NothingLost(s, ds, k)
  {
    hide Heard, Source, Feed, Known;
    HeardNewest(s, ds, k);
    var r := Known(Feed(s, ds), k);
    if r.Some? {
      HeardSource(s, ds, k, r.value);
    }
  }

  /** Every delivery of the key counts. */
  ghost predicate AllKept(s: Db, ds: seq<Delivery>, k: Key) {
    forall i: nat :: i < |ds| && ds[i].ev.key == k ==> Kept(s, ds, i)
  }

  lemma SourceHeard(s: Db, ds: seq<Delivery>, k: Key, c: Content)
    requires AllKept(s, ds, k) && Source(s, ds, k, c)
    ensures Heard(s, ds, k, c)
  {
    hide Kept;
    if d :| d in ds && Tells(d.ev, k, c) {
      var i: nat :| i < |ds| && ds[i] == d;
      assert Kept(s, ds, i);
    }
  }

  lemma FeedNewest(s: Db, ds: seq<Delivery>, k: Key)
    requires AllKept(s, ds, k)
    ensures Newest(s, ds, k, Known(Feed(s, ds), k))
  {
    hide AllKept, Heard, Source, Feed, Known;
    forall c | Source(s, ds, k, c) ensures Heard(s, ds, k, c) {
      SourceHeard(s, ds, k, c);
    }
    NewestIff(s, ds, k);
  }

  // ----- two nodes, or two orders ---------------------------------------------

  /** What two nodes hear of a key at one time is one thing. */
  ghost predicate OneVoice(s: Db, ds: seq<Delivery>, s': Db, ds': seq<Delivery>, k: Key) {
    forall c, c' :: Heard(s, ds, k, c) && Heard(s', ds', k, c') && c.ltime == c'.ltime ==> c == c'
  }

  /** Whatever the first hears, the second hears something as new. */
  ghost predicate Covered(s: Db, ds: seq<Delivery>, s': Db, ds': seq<Delivery>, k: Key) {
    forall c :: Heard(s, ds, k, c) ==> exists c' :: Heard(s', ds', k, c') && c.ltime <= c'.ltime
  }

  /** Two nodes end up with the same content exactly when each hears something as new as all the other hears. */
  lemma SameKnownIff(s: Db, ds: seq<Delivery>, s': Db, ds': seq<Delivery>, k: Key)
    requires OneVoice(s, ds, s', ds', k)
    ensures Known(Feed(s, ds), k) == Known(Feed(s', ds'), k)
      <==> Covered(s, ds, s', ds', k) && Covered(s', ds', s, ds, k)
  {
    hide Heard, Feed, Known, Covered;
    HeardNewest(s, ds, k);
    HeardNewest(s', ds', k);
    CoveredIff(s, ds, s', ds', k);
    CoveredIff(s', ds', s, ds, k);
  }

  lemma CoveredIff(s: Db, ds: seq<Delivery>, s': Db, ds': seq<Delivery>, k: Key)
    ensures
      var r, r' := Known(Feed(s, ds), k), Known(Feed(s', ds'), k);
      Covered(s, ds, s', ds', k) <==> (r.Some? ==> r'.Some? && r.value.ltime <= r'.value.ltime)
  {
    hide Heard, Feed, Known;
    HeardNewest(s, ds, k);
    HeardNewest(s', ds', k);
  }

  /** One writer per key: what is known of a key at one time is one thing. */
  ghost predicate OneWriter(s: Db, ds: seq<Delivery>) {
    forall k, c, c' :: Source(s, ds, k, c) && Source(s, ds, k, c') && c.ltime == c'.ltime ==> c == c'
  }

  /** The same events, in any order and with any repetitions. */
  ghost predicate SameEvents(ds: seq<Delivery>, ds': seq<Delivery>) {
    forall ev :: Delivers(ds, ev) <==> Delivers(ds', ev)
  }

  ghost predicate Delivers(ds: seq<Delivery>, ev: TableEvent) {
    exists d :: d in ds && d.ev == ev
  }

  lemma SameSource(s: Db, ds: seq<Delivery>, ds': seq<Delivery>, k: Key, c: Content)
    requires SameEvents(ds, ds')
    ensures Source(s, ds, k, c) ==> Source(s, ds', k, c)
  {
    if d :| d in ds && Tells(d.ev, k, c) {
      assert Delivers(ds, d.ev) && Delivers(ds', d.ev);
    }
  }

  /**
   The same events in any order, repeated or not, leave the same time, owner, value and deletion of a key
   as an order in which nothing of it is lost, exactly if nothing of it is lost in that order either.
   */
  lemma OrderIrrelevant(s: Db, ds: seq<Delivery>, ds': seq<Delivery>, k: Key)
    requires SameEvents(ds, ds') && OneWriter(s, ds)
    requires NothingLost(s, ds, k)
    ensures Known(Feed(s, ds), k) == Known(Feed(s, ds'), k) <==> NothingLost(s, ds', k)
  {
    hide Source, Heard, Feed, Known, Delivers, NothingLost;
    NewestIff(s, ds, k);
    NewestIff(s, ds', k);
    forall c ensures Source(s, ds, k, c) <==> Source(s, ds', k, c) {
      SameSource(s, ds, ds', k, c);
      SameSource(s, ds', ds, k, c);
    }
  }

  /** An asynchronous deletion that overtakes its creation is lost: the order then matters. */
  lemma DeleteOvertakesCreate(s: Db, create: TableEvent, delete: TableEvent)
    requires Heeds(s, create) && Heeds(s, delete) && create.key == delete.key && create.key !in s.store.byTable
    requires create.op == Create && delete.op == Delete && create.ltime < delete.ltime
    ensures
      var c, d := Delivery(create, false), Delivery(delete, false);
      && Known(Feed(s, [c, d]), create.key) == Some(EventContent(delete))
      && Known(Feed(s, [d, c]), create.key) == Some(EventContent(create))
      && SameEvents([c, d], [d, c])
      && !NothingLost(s, [d, c], create.key)
  {
    var c, d, k := Delivery(create, false), Delivery(delete, false), create.key;
    FeedTwo(s, c, d);
    FeedTwo(s, d, c);
    HandleNewest(s, c, k);
    HandleNewest(HandleTableMessage(s, create, false).0, d, k);
    HandleNewest(s, d, k);
    HandleNewest(HandleTableMessage(s, delete, false).0, c, k);
    NewestIff(s, [d, c], k);
    assert Source(s, [d, c], k, EventContent(delete)) by {
      assert d in [d, c] && Tells(delete, k, EventContent(delete));
    }
  }

  /** A bulk sync of the entry makes up for the lost deletion. */
  lemma BulkSyncRepairs(s: Db, ds: seq<Delivery>, d: Delivery, k: Key)
    requires d.bulk && Heeds(s, d.ev) && d.ev.key == k
    requires forall c :: Source(s, ds, k, c) ==> c.ltime <= d.ev.ltime
    ensures NothingLost(s, ds + [d], k)
  {
    var all, c := ds + [d], EventContent(d.ev);
    assert Kept(s, all, |ds|) && Tells(all[|ds|].ev, k, c);
    assert Heard(s, all, k, c);
    forall x | Source(s, all, k, x) ensures x.ltime <= c.ltime {
      if Known(s, k) != Some(x) {
        var e :| e in all && Tells(e.ev, k, x);
        assert e == d || Source(s, ds, k, x);
      }
    }
  }

  lemma FeedTwo(s: Db, c: Delivery, d: Delivery)
    ensures Feed(s, [c]) == HandleTableMessage(s, c.ev, c.bulk).0
    ensures Feed(s, [c, d]) == HandleTableMessage(Feed(s, [c]), d.ev, d.bulk).0
  {
    assert [c][..0] == [] && [c, d][..1] == [c];
  }

  // ----- bulk sync ------------------------------------------------------------

  /** Whole seconds, rounded toward zero. */
  function Seconds(d: int): (n: int) {
    if d >= 0 then d / SECOND else -(-d / SECOND)
  }

  /** The event that tells another node of an entry. */
  function EventFor(k: Key, e: Entry): (ev: TableEvent) {
    TableEvent(if e.deleting then Delete else Create, e.ltime, e.node, k, e.value, Seconds(e.reapTime))
  }

  /** The payload of a bulk sync: an event for each visited entry. */
  function Payload(t: Store, order: seq<Key>): (evs: seq<TableEvent>) {
    if order == [] then []
    else
      var k, evs := order[|order| - 1], Payload(t, order[..|order| - 1]);
      if k in t.byNetwork then evs + [EventFor(k, t.byNetwork[k])] else evs
  }

  /** The event for the i-th of the visited entries is the i-th: a creation or a deletion, in whole seconds. */
  lemma {:induction false} PayloadAt(t: Store, order: seq<Key>, i: nat)
    requires i < |order| && forall k :: k in order ==> k in t.byNetwork
    ensures |Payload(t, order)| == |order|
    ensures
      var ev, k, e := Payload(t, order)[i], order[i], t.byNetwork[order[i]];
      && ev.key == k && ev.ltime == e.ltime && ev.node == e.node && ev.value == e.value
      && ev.op == (if e.deleting then Delete else Create)
      && (e.reapTime >= 0 ==> ev.residual * SECOND <= e.reapTime < ev.residual * SECOND + SECOND)
    decreases |order|
  {
    var n := |order| - 1;
    if n > 0 {
      PayloadAt(t, order[..n], if i < n then i else 0);
    }
  }

  /** Receives a bulk sync. */
  function Receive(s: Db, evs: seq<TableEvent>): (s': Db) {
    if evs == [] then s else HandleTableMessage(Receive(s, evs[..|evs| - 1]), evs[|evs| - 1], true).0
  }

  lemma {:induction false} ReceiveView(s: Db, evs: seq<TableEvent>)
    ensures Receive(s, evs).view == s.view && Receive(s, evs).config == s.config
  {
    if evs != [] {
      ReceiveView(s, evs[..|evs| - 1]);
    }
  }

  /** Times never go back, and a received event is known at least as new. */
  lemma {:induction false} ReceiveNewer(s: Db, evs: seq<TableEvent>, k: Key)
    ensures Known(s, k).Some? ==>
      Known(Receive(s, evs), k).Some? && Known(Receive(s, evs), k).value.ltime >= Known(s, k).value.ltime
    ensures forall ev :: ev in evs && ev.key == k && Heeds(s, ev) ==>
      Known(Receive(s, evs), k).Some? && Known(Receive(s, evs), k).value.ltime >= ev.ltime
  {
    if evs != [] {
      var init, last := evs[..|evs| - 1], evs[|evs| - 1];
      ReceiveNewer(s, init, k);
      ReceiveView(s, init);
      assert forall ev :: ev in evs <==> ev in init || ev == last;
      BulkNewer(Receive(s, init), last, k);
    }
  }

  lemma BulkNewer(s: Db, ev: TableEvent, k: Key)
    ensures
      var r := Known(HandleTableMessage(s, ev, true).0, k);
      && (Known(s, k).Some? ==> r.Some? && r.value.ltime >= Known(s, k).value.ltime)
      && (ev.key == k && Heeds(s, ev) ==> r.Some? && r.value.ltime >= ev.ltime)
  {
  }

  lemma {:induction false} PayloadHas(t: Store, order: seq<Key>, k: Key)
    requires k in order && k in t.byNetwork
    ensures EventFor(k, t.byNetwork[k]) in Payload(t, order)
  {
    if k != order[|order| - 1] {
      PayloadHas(t, order[..|order| - 1], k);
    }
  }

  lemma {:induction false} PayloadOnly(t: Store, order: seq<Key>, ev: TableEvent)
    requires ev in Payload(t, order)
    ensures ev.key in t.byNetwork && ev == EventFor(ev.key, t.byNetwork[ev.key])
  {
    if ev in Payload(t, order[..|order| - 1]) {
      PayloadOnly(t, order[..|order| - 1], ev);
    }
  }

  /** After a bulk sync the receiver is at least as new as the sender on every key of theirs that it does not own. */
  lemma BulkSyncCatchesUp(sender: Db, receiver: Db, order: seq<Key>, k: Key)
    requires k in order && k in sender.store.byNetwork
    requires Heeds(receiver, EventFor(k, sender.store.byNetwork[k]))
    ensures
      var r := Known(Receive(receiver, Payload(sender.store, order)), k);
      r.Some? && r.value.ltime >= sender.store.byNetwork[k].ltime
  {
    hide Receive, Payload, HandleTableMessage;
    PayloadHas(sender.store, order, k);
    ReceiveNewer(receiver, Payload(sender.store, order), k);
  }
}
