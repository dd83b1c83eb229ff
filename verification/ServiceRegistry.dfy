/**
 The service binding registry as a state machine: any number of threads add and
 remove bindings, each under the lock of one service object, while the registry
 itself is read and written under the controller lock in single steps.
 */
module ServiceRegistry {
  import opened Bitmaps

  const FW_MARK_START := 256

  datatype ServiceKey = ServiceKey(id: string, ports: string)

  datatype Backend = Backend(ip: string, disabled: bool)

  /** `serial` counts the load balancers created before this one. */
  datatype LoadBalancer = LoadBalancer(fwMark: nat, serial: nat, backEnds: map<string, Backend>)

  datatype Service = Service(
    key: ServiceKey,
    loadBalancers: map<string, LoadBalancer>,
    deleted: bool,
    owner: Option<nat>)

  datatype Op =
    | Add(key: ServiceKey, nid: string, eid: string, ip: string)
    | Remove(key: ServiceKey, nid: string, eid: string, full: bool)

  /** Where a thread is; from `Locked` on it holds the lock of service `o`. */
  datatype Pc = Lookup | WaitLock(o: nat) | Locked(o: nat) | HasBalancer(o: nat) | Emptied(o: nat) | Finished

  datatype Thread = Thread(op: Op, pc: Pc)

  datatype State = State(
    services: seq<Service>,
    registry: map<ServiceKey, nat>,
    threads: map<nat, Thread>,
    fwMarkCtr: nat,
    created: nat)

  const INITIAL := State([], map[], map[], FW_MARK_START, 0)

  // ----- steps ----------------------------------------------------------------

  function Moved(s: State, t: nat, pc: Pc): (s': State)
    requires t in s.threads
  {
    s.(threads := s.threads[t := s.threads[t].(pc := pc)])
  }

  function Stored(s: State, o: nat, v: Service): (s': State)
    requires o < |s.services|
  {
    s.(services := s.services[o := v])
  }

  /** Controller lock: finds the service, which an add creates when it is missing. */
  function DoLookup(s: State, t: nat): (s': State)
    requires t in s.threads
  {
    var op := s.threads[t].op;
    if op.key in s.registry then Moved(s, t, WaitLock(s.registry[op.key]))
    else if op.Remove? then Moved(s, t, Finished)
    else
      var o := |s.services|;
      Moved(s.(services := s.services + [Service(op.key, map[], false, None)], registry := s.registry[op.key := o]),
            t, WaitLock(o))
  }

  /** Service lock: an add that finds a deleted service unlocks it and looks again. */
  function DoLock(s: State, t: nat, o: nat): (s': State)
    requires t in s.threads && o < |s.services|
  {
    if s.threads[t].op.Add? && s.services[o].deleted then Moved(s, t, Lookup)
    else Stored(Moved(s, t, Locked(o)), o, s.services[o].(owner := Some(t)))
  }

  /** An add takes the load balancer of its network, or creates it with the next firewall mark. */
  function DoBalancer(s: State, t: nat, o: nat): (s': State)
    requires t in s.threads && o < |s.services|
  {
    var v, nid := s.services[o], s.threads[t].op.nid;
    if nid in v.loadBalancers then Moved(s, t, HasBalancer(o))
    else
      var lb := LoadBalancer(s.fwMarkCtr, s.created, map[]);
      Stored(Moved(s, t, HasBalancer(o)), o, v.(loadBalancers := v.loadBalancers[nid := lb]))
      .(fwMarkCtr := (s.fwMarkCtr + 1) % U32_LIMIT, created := s.created + 1)
  }

  /** An add puts its endpoint behind the load balancer and unlocks. */
  function DoBackend(s: State, t: nat, o: nat): (s': State)
    requires t in s.threads && s.threads[t].op.Add? && o < |s.services|
    requires s.threads[t].op.nid in s.services[o].loadBalancers
  {
    var v, op := s.services[o], s.threads[t].op;
    var lb := v.loadBalancers[op.nid];
    var lb' := lb.(backEnds := lb.backEnds[op.eid := Backend(op.ip, false)]);
    Stored(Moved(s, t, Finished), o, v.(loadBalancers := v.loadBalancers[op.nid := lb'], owner := None))
  }

  /** A remove drops or disables its endpoint, and the load balancer with its last endpoint. */
  function DoRemove(s: State, t: nat, o: nat): (s': State)
    requires t in s.threads && s.threads[t].op.Remove? && o < |s.services|
  {
    var v, op := s.services[o], s.threads[t].op;
    if op.nid !in v.loadBalancers || op.eid !in v.loadBalancers[op.nid].backEnds then
      Stored(Moved(s, t, Finished), o, v.(owner := None))
    else
      var lb := v.loadBalancers[op.nid];
      var bs := if op.full then lb.backEnds - {op.eid}
                else lb.backEnds[op.eid := lb.backEnds[op.eid].(disabled := true)];
      var lbs := if bs == map[] then v.loadBalancers - {op.nid}
                 else v.loadBalancers[op.nid := lb.(backEnds := bs)];
      if lbs == map[] then Stored(Moved(s, t, Emptied(o)), o, v.(loadBalancers := lbs))
      else Stored(Moved(s, t, Finished), o, v.(loadBalancers := lbs, owner := None))
  }

  /** Controller lock: a remove marks the empty service deleted, unregisters its key and unlocks. */
  function DoUnregister(s: State, t: nat, o: nat): (s': State)
    requires t in s.threads && o < |s.services|
  {
    Stored(Moved(s, t, Finished), o, s.services[o].(deleted := true, owner := None))
    .(registry := s.registry - {s.threads[t].op.key})
  }

  /** A thread starts, or one step of a running thread is taken. */
  ghost predicate Step(s: State, s': State) {
    || (exists t, op :: t !in s.threads && s' == Started(s, t, op))
    || (exists t :: Advances(s, t, s'))
  }

  function Started(s: State, t: nat, op: Op): (s': State) {
    s.(threads := s.threads[t := Thread(op, Lookup)])
  }

  predicate Valid(s: State, o: nat) {
    o < |s.services|
  }

  ghost predicate Advances(s: State, t: nat, s': State) {
    t in s.threads &&
    var op := s.threads[t].op;
    match s.threads[t].pc
    case Lookup => s' == DoLookup(s, t)
    case WaitLock(o) => Valid(s, o) && s.services[o].owner.None? && s' == DoLock(s, t, o)
    case Locked(o) => Valid(s, o) && s' == if op.Add? then DoBalancer(s, t, o) else DoRemove(s, t, o)
    case HasBalancer(o) => Valid(s, o) && op.Add? && op.nid in s.services[o].loadBalancers && s' == DoBackend(s, t, o)
    case Emptied(o) => Valid(s, o) && s' == DoUnregister(s, t, o)
    case Finished => false
  }

  // ----- invariants -----------------------------------------------------------

  predicate Holds(pc: Pc, o: nat) {
    pc == Locked(o) || pc == HasBalancer(o) || pc == Emptied(o)
  }

  /** A thread names services of its own key, holds what it locked, and works on what it should. */
  ghost predicate ThreadOk(s: State, t: nat)
    requires t in s.threads
  {
    var th := s.threads[t];
    match th.pc
    case Lookup => true
    case Finished => true
    case WaitLock(o) => Valid(s, o) && s.services[o].key == th.op.key
    case Locked(o) =>
      && Valid(s, o) && s.services[o].key == th.op.key && s.services[o].owner == Some(t)
      && (th.op.Add? ==> !s.services[o].deleted)
    case HasBalancer(o) =>
      && Valid(s, o) && s.services[o].key == th.op.key && s.services[o].owner == Some(t)
      && th.op.Add? && !s.services[o].deleted
      && th.op.nid in s.services[o].loadBalancers
    case Emptied(o) =>
      && Valid(s, o) && s.services[o].key == th.op.key && s.services[o].owner == Some(t)
      && th.op.Remove? && !s.services[o].deleted
      && s.services[o].loadBalancers == map[]
  }

  /** The thread will give the service a load balancer, or is about to unregister it. */
  ghost predicate Fills(s: State, t: nat, o: nat) {
    t in s.threads &&
    var th := s.threads[t];
    (th.op.Add? && (th.pc == WaitLock(o) || th.pc == Locked(o))) || th.pc == Emptied(o)
  }

  ghost predicate Filled(s: State, o: nat) {
    exists t :: Fills(s, t, o)
  }

  /** A load balancer without endpoints is the one its creator is about to fill. */
  ghost predicate BalancerOk(s: State, o: nat, nid: string)
    requires o < |s.services| && nid in s.services[o].loadBalancers
  {
    s.services[o].loadBalancers[nid].backEnds == map[] ==>
      && s.services[o].owner.Some? && s.services[o].owner.value in s.threads
      && s.threads[s.services[o].owner.value].pc == HasBalancer(o)
      && s.threads[s.services[o].owner.value].op.nid == nid
  }

  /** A service is registered under its key until it is deleted; it is empty only while a thread will see to it. */
  ghost predicate ServiceOk(s: State, o: nat)
    requires o < |s.services|
  {
    var v := s.services[o];
    && (v.owner.Some? ==> v.owner.value in s.threads && Holds(s.threads[v.owner.value].pc, o))
    && (if v.deleted then v.loadBalancers == map[] else v.key in s.registry && s.registry[v.key] == o)
    && (!v.deleted && v.loadBalancers == map[] ==> Filled(s, o))
    && (forall nid :: nid in v.loadBalancers ==> BalancerOk(s, o, nid))
  }

  ghost predicate RegistryOk(s: State) {
    forall k :: k in s.registry ==>
      s.registry[k] < |s.services| && s.services[s.registry[k]].key == k && !s.services[s.registry[k]].deleted
  }

  ghost predicate MarkOk(s: State, o: nat, nid: string)
    requires HasLb(s, o, nid)
  {
    var lb := s.services[o].loadBalancers[nid];
    lb.serial < s.created && lb.fwMark == (FW_MARK_START + lb.serial) % U32_LIMIT
  }

  function Serial(s: State, o: nat, nid: string): (n: nat)
    requires HasLb(s, o, nid)
  {
    s.services[o].loadBalancers[nid].serial
  }

  /** Firewall marks follow the creation order, modulo 2^32, and no two load balancers have the same serial. */
  ghost predicate MarksOk(s: State) {
    && s.fwMarkCtr == (FW_MARK_START + s.created) % U32_LIMIT
    && (forall o: nat, nid :: HasLb(s, o, nid) ==> MarkOk(s, o, nid))
    && (forall o: nat, nid, i: nat, n :: HasLb(s, o, nid) && HasLb(s, i, n) && (o, nid) != (i, n) ==>
          Serial(s, o, nid) != Serial(s, i, n))
  }

  predicate HasLb(s: State, o: nat, nid: string) {
    o < |s.services| && nid in s.services[o].loadBalancers
  }

  ghost predicate Inv(s: State) {
    && RegistryOk(s)
    && (forall t :: t in s.threads ==> ThreadOk(s, t))
    && (forall o: nat :: o < |s.services| ==> ServiceOk(s, o))
    && MarksOk(s)
  }

  // ----- what a step on one service leaves alone ------------------------------

  predicate Refers(pc: Pc, o: nat) {
    pc == WaitLock(o) || Holds(pc, o)
  }

  /** Thread `t` changes itself, service `o`, and the registration of `o`'s key, and nothing else. */
  ghost predicate Local(s: State, s': State, t: nat, o: nat) {
    && t in s.threads && t in s'.threads && s'.threads == s.threads[t := s'.threads[t]]
    && s'.threads[t].op == s.threads[t].op
    && Refers(s.threads[t].pc, o)
    && |s'.services| == |s.services| && o < |s.services| && s'.services == s.services[o := s'.services[o]]
    && s'.services[o].key == s.services[o].key
    && (s.services[o].owner == None || s.services[o].owner == Some(t))
    && (forall k :: k != s.services[o].key ==> (k in s'.registry <==> k in s.registry))
    && (forall k :: k != s.services[o].key && k in s.registry ==> s'.registry[k] == s.registry[k])
  }

  lemma OtherThread(s: State, s': State, t: nat, o: nat, u: nat)
    requires Local(s, s', t, o) && u in s.threads && u != t && ThreadOk(s, u)
    ensures ThreadOk(s', u)
  {
  }

  lemma OtherService(s: State, s': State, t: nat, o: nat, i: nat)
    requires Local(s, s', t, o) && i < |s.services| && i != o && ServiceOk(s, i) && ServiceOk(s, o)
    requires s.services[o].deleted ==> s'.registry == s.registry
    ensures ServiceOk(s', i)
  {
    var v := s.services[i];
    assert s'.services[i] == v;
    if !v.deleted && v.loadBalancers == map[] {
      var u :| Fills(s, u, i);
      assert u != t && Fills(s', u, i);
    }
    forall nid | nid in v.loadBalancers ensures BalancerOk(s', i, nid) {
      assert BalancerOk(s, i, nid);
    }
  }

  /** A local step keeps the invariant if it keeps the thread, the service, the registration and the marks. */
  lemma LocalKeeps(s: State, s': State, t: nat, o: nat)
    requires Inv(s) && Local(s, s', t, o)
    requires s.services[o].deleted ==> s'.registry == s.registry
    requires RegistryOk(s') && MarksOk(s') && ThreadOk(s', t) && ServiceOk(s', o)
    ensures Inv(s')
  {
    hide MarksOk, RegistryOk, Local, ServiceOk, ThreadOk;
    assert Local(s, s', t, o);
    LocalShape(s, s', t, o);
    forall u | u in s'.threads ensures ThreadOk(s', u) {
      if u != t {
        OtherThread(s, s', t, o, u);
      }
    }
    forall i: nat | i < |s'.services| ensures ServiceOk(s', i) {
      if i != o {
        OtherService(s, s', t, o, i);
      }
    }
  }

  lemma LocalShape(s: State, s': State, t: nat, o: nat)
    requires Local(s, s', t, o)
    ensures s'.threads.Keys == s.threads.Keys && o < |s'.services| == |s.services|
  {
  }

  // ----- every step keeps the invariant ---------------------------------------

  /** Another thread, or `t` itself where it stays one, still fills the service. */
  lemma FilledKept(s: State, s': State, t: nat, o: nat)
    requires t in s.threads && t in s'.threads && s'.threads == s.threads[t := s'.threads[t]]
    requires Filled(s, o) && (Fills(s, t, o) ==> Fills(s', t, o))
    ensures Filled(s', o)
  {
    var u :| Fills(s, u, o);
    assert Fills(s', u, o);
  }

  /** What a step must establish about the thread and the service it changes. */
  ghost predicate Kept(s: State, s': State, t: nat, o: nat) {
    && Local(s, s', t, o)
    && (s.services[o].deleted ==> s'.registry == s.registry)
    && RegistryOk(s') && ThreadOk(s', t) && ServiceOk(s', o)
  }

  lemma KeptKeeps(s: State, s': State, t: nat, o: nat)
    requires Inv(s) && Kept(s, s', t, o) && MarksOk(s')
    ensures Inv(s')
  {
    hide Local, MarksOk, RegistryOk, ThreadOk, ServiceOk, Inv;
    LocalKeeps(s, s', t, o);
  }

  /** No new load balancer means no new mark. */
  lemma MarksKept(s: State, s': State, o: nat)
    requires MarksOk(s) && s'.fwMarkCtr == s.fwMarkCtr && s'.created == s.created
    requires o < |s.services| == |s'.services| && s'.services == s.services[o := s'.services[o]]
    requires forall nid :: nid in s'.services[o].loadBalancers ==>
      && nid in s.services[o].loadBalancers
      && s'.services[o].loadBalancers[nid].serial == s.services[o].loadBalancers[nid].serial
      && s'.services[o].loadBalancers[nid].fwMark == s.services[o].loadBalancers[nid].fwMark
    ensures MarksOk(s')
  {
    assert forall i: nat, nid :: HasLb(s', i, nid) ==>
      && HasLb(s, i, nid)
      && s'.services[i].loadBalancers[nid].serial == s.services[i].loadBalancers[nid].serial
      && s'.services[i].loadBalancers[nid].fwMark == s.services[i].loadBalancers[nid].fwMark;
  }

  lemma LockKept(s: State, t: nat, o: nat)
    requires t in s.threads && s.threads[t].pc == WaitLock(o) && Valid(s, o) && s.services[o].owner.None?
    requires RegistryOk(s) && ThreadOk(s, t) && ServiceOk(s, o)
    ensures Kept(s, DoLock(s, t, o), t, o)
  {
    var s' := DoLock(s, t, o);
    if !s.services[o].deleted && s.services[o].loadBalancers == map[] {
      FilledKept(s, s', t, o);
    }
    assert forall nid :: nid in s.services[o].loadBalancers ==> BalancerOk(s, o, nid);
  }

  lemma BalancerKept(s: State, t: nat, o: nat)
    requires t in s.threads && s.threads[t].pc == Locked(o) && s.threads[t].op.Add? && Valid(s, o)
    requires RegistryOk(s) && ThreadOk(s, t) && ServiceOk(s, o)
    ensures Kept(s, DoBalancer(s, t, o), t, o)
  {
    assert forall nid :: nid in s.services[o].loadBalancers ==> BalancerOk(s, o, nid);
  }

  /** A new load balancer has a serial and a mark of its own. */
  lemma BalancerMarks(s: State, t: nat, o: nat)
    requires t in s.threads && Valid(s, o) && MarksOk(s)
    ensures MarksOk(DoBalancer(s, t, o))
  {
    var s', nid := DoBalancer(s, t, o), s.threads[t].op.nid;
    if nid in s.services[o].loadBalancers {
      MarksKept(s, s', o);
    } else {
      forall i: nat, n | HasLb(s', i, n)
        ensures MarkOk(s', i, n)
        ensures if (i, n) == (o, nid) then Serial(s', i, n) == s.created
                else HasLb(s, i, n) && Serial(s', i, n) == Serial(s, i, n) < s.created
      {
        assert (i, n) != (o, nid) ==> HasLb(s, i, n) && MarkOk(s, i, n);
      }
    }
  }

  lemma BackendKept(s: State, t: nat, o: nat)
    requires t in s.threads && s.threads[t].pc == HasBalancer(o) && s.threads[t].op.Add? && Valid(s, o)
    requires s.threads[t].op.nid in s.services[o].loadBalancers
    requires RegistryOk(s) && ThreadOk(s, t) && ServiceOk(s, o)
    ensures Kept(s, DoBackend(s, t, o), t, o)
  {
    var s', op := DoBackend(s, t, o), s.threads[t].op;
    forall nid | nid in s'.services[o].loadBalancers ensures BalancerOk(s', o, nid) {
      assert BalancerOk(s, o, nid);
      assert op.eid in s'.services[o].loadBalancers[op.nid].backEnds;
    }
  }

  lemma RemoveKept(s: State, t: nat, o: nat)
    requires t in s.threads && s.threads[t].pc == Locked(o) && s.threads[t].op.Remove? && Valid(s, o)
    requires RegistryOk(s) && ThreadOk(s, t) && ServiceOk(s, o)
    ensures Kept(s, DoRemove(s, t, o), t, o)
  {
    var s' := DoRemove(s, t, o);
    assert forall nid :: nid in s.services[o].loadBalancers ==> BalancerOk(s, o, nid);
    if s'.threads[t].pc == Emptied(o) {
      assert Fills(s', t, o);
    } else if !s.services[o].deleted && s.services[o].loadBalancers == map[] {
      FilledKept(s, s', t, o);
    }
  }

  lemma UnregisterKept(s: State, t: nat, o: nat)
    requires t in s.threads && s.threads[t].pc == Emptied(o) && Valid(s, o)
    requires RegistryOk(s) && ThreadOk(s, t) && ServiceOk(s, o)
    ensures Kept(s, DoUnregister(s, t, o), t, o)
  {
  }

  // ----- lookups and new threads ----------------------------------------------

  /** A thread that refers to no service starts, or finds one, or a new service is appended for it. */
  ghost predicate Grows(s: State, s': State, t: nat) {
    && t in s'.threads && s'.threads == s.threads[t := s'.threads[t]]
    && (t in s.threads ==> s.threads[t].pc == Lookup)
    && s.services <= s'.services
    && s'.fwMarkCtr == s.fwMarkCtr && s'.created == s.created
    && (forall k :: k in s.registry ==> k in s'.registry && s'.registry[k] == s.registry[k])
  }

  lemma GrowsService(s: State, s': State, t: nat, i: nat)
    requires Grows(s, s', t) && i < |s.services| && ServiceOk(s, i)
    ensures ServiceOk(s', i)
  {
    var v := s.services[i];
    assert s'.services[i] == v;
    if !v.deleted && v.loadBalancers == map[] {
      var u :| Fills(s, u, i);
      assert u != t && Fills(s', u, i);
    }
    forall nid | nid in v.loadBalancers ensures BalancerOk(s', i, nid) {
      assert BalancerOk(s, i, nid);
    }
  }

  lemma GrowsThread(s: State, s': State, t: nat, u: nat)
    requires Grows(s, s', t) && u in s.threads && u != t && ThreadOk(s, u)
    ensures ThreadOk(s', u)
  {
  }

  lemma GrowsMarks(s: State, s': State, t: nat)
    requires Grows(s, s', t) && MarksOk(s)
    requires forall o: nat :: |s.services| <= o < |s'.services| ==> s'.services[o].loadBalancers == map[]
    ensures MarksOk(s')
  {
    assert forall o: nat, nid :: HasLb(s', o, nid) ==> HasLb(s, o, nid) && s'.services[o] == s.services[o];
    assert forall o: nat, nid :: HasLb(s', o, nid) ==> MarkOk(s, o, nid) && Serial(s', o, nid) == Serial(s, o, nid);
  }

  lemma GrowsKeeps(s: State, s': State, t: nat)
    requires Inv(s) && Grows(s, s', t) && RegistryOk(s') && MarksOk(s') && ThreadOk(s', t)
    requires forall o: nat :: |s.services| <= o < |s'.services| ==> ServiceOk(s', o)
    ensures Inv(s')
  {
    hide MarksOk, RegistryOk, ServiceOk, ThreadOk, Grows;
    GrowsShape(s, s', t);
    forall u | u in s'.threads ensures ThreadOk(s', u) {
      if u != t {
        GrowsThread(s, s', t, u);
      }
    }
    forall i: nat | i < |s'.services| ensures ServiceOk(s', i) {
      if i < |s.services| {
        GrowsService(s, s', t, i);
      }
    }
  }

  lemma GrowsShape(s: State, s': State, t: nat)
    requires Grows(s, s', t)
    ensures s'.threads.Keys == s.threads.Keys + {t} && |s.services| <= |s'.services|
  {
  }

  lemma LookupKeeps(s: State, t: nat)
    requires Inv(s) && t in s.threads && s.threads[t].pc == Lookup
    ensures Inv(DoLookup(s, t))
  {
    var s', op := DoLookup(s, t), s.threads[t].op;
    assert RegistryOk(s) && MarksOk(s);
    assert op.key in s.registry ==> Valid(s, s.registry[op.key]);
    hide Inv, MarksOk;
    if op.key !in s.registry && op.Add? {
      assert Fills(s', t, |s.services|);
    }
    GrowsMarks(s, s', t);
    GrowsKeeps(s, s', t);
  }

  lemma StartKeeps(s: State, t: nat, op: Op)
    requires Inv(s) && t !in s.threads
    ensures Inv(Started(s, t, op))
  {
    var s' := Started(s, t, op);
    assert RegistryOk(s) && MarksOk(s);
    hide Inv, MarksOk;
    GrowsMarks(s, s', t);
    GrowsKeeps(s, s', t);
  }

  // ----- whole runs -----------------------------------------------------------

  lemma AdvanceKeeps(s: State, t: nat, s': State)
    requires Inv(s) && Advances(s, t, s')
    ensures Inv(s')
  {
    var th := s.threads[t];
    if th.pc == Lookup {
      LookupKeeps(s, t);
    } else {
      var o := th.pc.o;
      assert RegistryOk(s) && MarksOk(s) && ThreadOk(s, t) && ServiceOk(s, o);
      hide Inv, MarksOk, RegistryOk, ThreadOk, ServiceOk, Kept;
      ServiceStepKept(s, t, o, s');
      KeptKeeps(s, s', t, o);
    }
  }

  lemma ServiceStepKept(s: State, t: nat, o: nat, s': State)
    requires Advances(s, t, s') && Refers(s.threads[t].pc, o) && Valid(s, o)
    requires RegistryOk(s) && MarksOk(s) && ThreadOk(s, t) && ServiceOk(s, o)
    ensures Kept(s, s', t, o) && MarksOk(s')
  {
    hide MarksOk, RegistryOk, ThreadOk, ServiceOk, Kept;
    match s.threads[t].pc
    case WaitLock(_) =>
      LockKept(s, t, o);
      MarksKept(s, s', o);
    case Locked(_) =>
      if s.threads[t].op.Add? {
        BalancerKept(s, t, o);
        BalancerMarks(s, t, o);
      } else {
        RemoveKept(s, t, o);
        MarksKept(s, s', o);
      }
    case HasBalancer(_) =>
      BackendKept(s, t, o);
      MarksKept(s, s', o);
    case Emptied(_) =>
      UnregisterKept(s, t, o);
      MarksKept(s, s', o);
  }

  lemma StepKeeps(s: State, s': State)
    requires Inv(s) && Step(s, s')
    ensures Inv(s')
  {
    hide Inv, Advances;
    if t, op :| t !in s.threads && s' == Started(s, t, op) {
      StartKeeps(s, t, op);
    } else {
      var t :| Advances(s, t, s');
      AdvanceKeeps(s, t, s');
    }
  }

  /** Any schedule of any threads, from the empty registry. */
  ghost predicate Schedule(ss: seq<State>) {
    |ss| > 0 && ss[0] == INITIAL && forall i: nat :: i < |ss| - 1 ==> Step(ss[i], ss[i + 1])
  }

  lemma {:induction false} ScheduleInv(ss: seq<State>, n: nat)
    requires Schedule(ss) && n < |ss|
    ensures Inv(ss[n])
  {
    if n > 0 {
      ScheduleInv(ss, n - 1);
      hide Inv, Step;
      assert Step(ss[n - 1], ss[n - 1 + 1]);
      StepKeeps(ss[n - 1], ss[n]);
    }
  }

  // ----- what the invariant is for --------------------------------------------

  /** A thread that adds to or unregisters a service works on the object registered under its key. */
  lemma WorksOnRegistered(ss: seq<State>, n: nat, t: nat, o: nat)
    requires Schedule(ss) && n < |ss| && t in ss[n].threads
    requires
      var th := ss[n].threads[t];
      (th.op.Add? && th.pc == Locked(o)) || th.pc == HasBalancer(o) || th.pc == Emptied(o)
    ensures
      var s := ss[n];
      && s.threads[t].op.key in s.registry && s.registry[s.threads[t].op.key] == o
      && o < |s.services| && !s.services[o].deleted && s.services[o].owner == Some(t)
  {
    ScheduleInv(ss, n);
    assert ThreadOk(ss[n], t) && ServiceOk(ss[n], o);
  }

  /** With no thread running, every registered service has a load balancer and every load balancer an endpoint. */
  lemma QuiescentNonEmpty(ss: seq<State>, n: nat, k: ServiceKey)
    requires Schedule(ss) && n < |ss| && k in ss[n].registry
    requires forall t :: t in ss[n].threads ==> ss[n].threads[t].pc == Finished
    ensures
      var s := ss[n];
      && s.registry[k] < |s.services|
      && var lbs := s.services[s.registry[k]].loadBalancers;
      lbs != map[] && forall nid :: nid in lbs ==> lbs[nid].backEnds != map[]
  {
    var s := ss[n];
    ScheduleInv(ss, n);
    var o := s.registry[k];
    assert ServiceOk(s, o);
    assert forall nid :: nid in s.services[o].loadBalancers ==> BalancerOk(s, o, nid);
  }

  /** Two live load balancers share a firewall mark exactly when the counter wrapped between their creations. */
  lemma MarkSharedIffWrapped(ss: seq<State>, n: nat, o: nat, nid: string, i: nat, m: string)
    requires Schedule(ss) && n < |ss|
    requires HasLb(ss[n], o, nid) && HasLb(ss[n], i, m) && (o, nid) != (i, m)
    ensures Serial(ss[n], o, nid) != Serial(ss[n], i, m)
    ensures
      ss[n].services[o].loadBalancers[nid].fwMark == ss[n].services[i].loadBalancers[m].fwMark <==>
      (Serial(ss[n], o, nid) - Serial(ss[n], i, m)) % U32_LIMIT == 0
    ensures ss[n].created <= U32_LIMIT ==>
      ss[n].services[o].loadBalancers[nid].fwMark != ss[n].services[i].loadBalancers[m].fwMark
  {
    ScheduleInv(ss, n);
    assert MarkOk(ss[n], o, nid) && MarkOk(ss[n], i, m);
  }

  /** The endpoint is behind the load balancer of the network in the service registered under the key. */
  ghost predicate Bound(s: State, k: ServiceKey, nid: string, eid: string) {
    k in s.registry && HasLb(s, s.registry[k], nid) && eid in s.services[s.registry[k]].loadBalancers[nid].backEnds
  }

  /** An add ends with its endpoint bound and enabled in the registered service. */
  lemma AddBinds(ss: seq<State>, n: nat, t: nat)
    requires Schedule(ss) && n < |ss| - 1 && t in ss[n].threads && ss[n].threads[t].op.Add?
    requires ss[n].threads[t].pc.HasBalancer? && Advances(ss[n], t, ss[n + 1])
    ensures
      var op, s' := ss[n].threads[t].op, ss[n + 1];
      && Bound(s', op.key, op.nid, op.eid)
      && s'.services[s'.registry[op.key]].loadBalancers[op.nid].backEnds[op.eid] == Backend(op.ip, false)
  {
    WorksOnRegistered(ss, n, t, ss[n].threads[t].pc.o);
  }

  /** A bound endpoint is unbound only by a full remove that names it: no schedule loses a binding. */
  lemma OnlyRemoveUnbinds(s: State, s': State, k: ServiceKey, nid: string, eid: string)
    requires Inv(s) && Step(s, s') && Bound(s, k, nid, eid) && !Bound(s', k, nid, eid)
    ensures exists t :: t in s.threads && s.threads[t].op == Remove(k, nid, eid, true) && Advances(s, t, s')
  {
    if t, op :| t !in s.threads && s' == Started(s, t, op) {
      assert Bound(s', k, nid, eid);
    } else {
      var t :| Advances(s, t, s');
      assert ThreadOk(s, t);
      if s.threads[t].op != Remove(k, nid, eid, true) {
        StaysBound(s, t, s', k, nid, eid);
      }
    }
  }

  lemma StaysBound(s: State, t: nat, s': State, k: ServiceKey, nid: string, eid: string)
    requires Advances(s, t, s') && Bound(s, k, nid, eid) && RegistryOk(s) && ThreadOk(s, t)
    requires s.threads[t].pc.Emptied? ==> ServiceOk(s, s.threads[t].pc.o)
    requires s.threads[t].op != Remove(k, nid, eid, true)
    ensures Bound(s', k, nid, eid)
  {
    var th := s.threads[t];
    if th.pc.Locked? && th.op.Remove? {
      RemoveStaysBound(s, t, th.pc.o, k, nid, eid);
    }
  }

  lemma RemoveStaysBound(s: State, t: nat, o: nat, k: ServiceKey, nid: string, eid: string)
    requires t in s.threads && s.threads[t].op.Remove? && s.threads[t].op != Remove(k, nid, eid, true)
    requires Valid(s, o) && s.services[o].key == s.threads[t].op.key && Bound(s, k, nid, eid) && RegistryOk(s)
    ensures Bound(DoRemove(s, t, o), k, nid, eid)
  {
    var op := s.threads[t].op;
    if o == s.registry[k] && op.nid == nid {
      var was := s.services[o].loadBalancers[nid].backEnds;
      if op.eid in was {
        var bs := if op.full then was - {op.eid} else was[op.eid := was[op.eid].(disabled := true)];
        assert eid in bs;
      }
    }
    if o == s.registry[k] {
      assert nid in DoRemove(s, t, o).services[o].loadBalancers;
    }
  }

  // ----- the bindings as one map ----------------------------------------------

  /** What the registry holds for an endpoint: the abstract map from key, network and endpoint to backend. */
  ghost function BackendAt(s: State, k: ServiceKey, nid: string, eid: string): (b: Option<Backend>) {
    if Bound(s, k, nid, eid) then Some(s.services[s.registry[k]].loadBalancers[nid].backEnds[eid]) else None
  }

  /**
   The thread is about to take effect: an add with its load balancer, or a remove that holds the registered
   service.
   */
  ghost predicate Commits(s: State, t: nat) {
    t in s.threads &&
    var th := s.threads[t];
    || th.pc.HasBalancer?
    || (th.op.Remove? && th.pc.Locked? && th.op.key in s.registry && s.registry[th.op.key] == th.pc.o)
  }

  predicate Names(op: Op, k: ServiceKey, nid: string, eid: string) {
    op.key == k && op.nid == nid && op.eid == eid
  }

  /** What an operation makes of the endpoint it names. */
  function Outcome(op: Op, b: Option<Backend>): (r: Option<Backend>) {
    match op
    case Add(_, _, _, ip) => Some(Backend(ip, false))
    case Remove(_, _, _, full) => if b.None? || full then None else Some(Backend(b.value.ip, true))
  }

  lemma RemoveRefines(s: State, t: nat, o: nat, k: ServiceKey, nid: string, eid: string)
    requires Inv(s) && t in s.threads && s.threads[t].op.Remove? && s.threads[t].pc == Locked(o)
    ensures Valid(s, o)
    ensures
      var op, s' := s.threads[t].op, DoRemove(s, t, o);
      BackendAt(s', k, nid, eid) ==
        var was := BackendAt(s, k, nid, eid);
        if Commits(s, t) && Names(op, k, nid, eid) then Outcome(op, was) else was
  {
    assert ThreadOk(s, t) && ServiceOk(s, o);
    if k in s.registry {
      assert s.services[s.registry[k]].key == k;
      var op, lbs := s.threads[t].op, s.services[o].loadBalancers;
      if s.registry[k] == o && nid == op.nid && Bound(s, k, nid, op.eid) {
        var was := lbs[nid].backEnds;
        assert op.full && eid in was && eid != op.eid ==> eid in was - {op.eid};
        assert !op.full ==> op.eid in was[op.eid := was[op.eid].(disabled := true)];
      }
      hide Inv;
    }
  }

  /** Every step of every thread leaves the bindings alone, or is where its operation takes effect, all at once. */
  lemma StepRefines(s: State, t: nat, s': State, k: ServiceKey, nid: string, eid: string)
    requires Inv(s) && Advances(s, t, s')
    ensures
      var op := s.threads[t].op;
      BackendAt(s', k, nid, eid) ==
        var was := BackendAt(s, k, nid, eid);
        if Commits(s, t) && Names(op, k, nid, eid) then Outcome(op, was) else was
  {
    assert ThreadOk(s, t);
    var th := s.threads[t];
    if k in s.registry {
      assert s.services[s.registry[k]].key == k;
    }
    if th.op.Remove? && th.pc.Locked? {
      RemoveRefines(s, t, th.pc.o, k, nid, eid);
    } else if th.pc.Locked? || th.pc.HasBalancer? || th.pc.Emptied? {
      assert ServiceOk(s, th.pc.o);
    }
  }

  /** How many steps a thread has left, if it does not have to look its service up again. */
  function StepsLeft(pc: Pc): (n: nat) {
    match pc
    case Lookup => 4
    case WaitLock(_) => 3
    case Locked(_) => 2
    case HasBalancer(_) => 1
    case Emptied(_) => 1
    case Finished => 0
  }

  /**
   Every step of a thread is one less to go, but for an add that gets the lock of a deleted service: it looks
   again. A remove does not, so it ends after four steps at most. A thread can take its next step unless it waits
   for a lock.
   */
  lemma StepCounts(s: State, t: nat)
    requires Inv(s) && t in s.threads && s.threads[t].pc != Finished
    ensures
      var th := s.threads[t];
      if th.pc.WaitLock? && Valid(s, th.pc.o) && s.services[th.pc.o].owner.Some? then
        forall s' :: !Advances(s, t, s')
      else
        exists s' :: Advances(s, t, s')
    ensures forall s' :: Advances(s, t, s') ==>
      var th := s.threads[t];
      && t in s'.threads && s'.threads[t].op == th.op
      && if th.pc.WaitLock? && th.op.Add? && s.services[th.pc.o].deleted then s'.threads[t].pc == Lookup
         else StepsLeft(s'.threads[t].pc) < StepsLeft(th.pc)
  {
    assert ThreadOk(s, t);
    var th := s.threads[t];
    match th.pc
    case Lookup => assert Advances(s, t, DoLookup(s, t));
    case WaitLock(o) =>
      if s.services[o].owner.None? {
        assert Advances(s, t, DoLock(s, t, o));
      }
    case Locked(o) =>
      assert Advances(s, t, if th.op.Add? then DoBalancer(s, t, o) else DoRemove(s, t, o));
    case HasBalancer(o) => assert Advances(s, t, DoBackend(s, t, o));
    case Emptied(o) => assert Advances(s, t, DoUnregister(s, t, o));
  }

  // ----- one thread by itself -------------------------------------------------

  /** The steps of one thread, with no other in between. */
  ghost predicate Alone(ss: seq<State>, t: nat) {
    |ss| > 0 && forall i: nat :: i < |ss| - 1 ==> Advances(ss[i], t, ss[i + 1])
  }

  /** The thread has not begun, and nobody holds the service of its key. */
  ghost predicate Free(s: State, t: nat) {
    && Inv(s) && t in s.threads && s.threads[t].pc == Lookup
    && var k := s.threads[t].op.key;
    k in s.registry ==> s.services[s.registry[k]].owner.None?
  }

  /** An add that runs by itself ends, with its endpoint bound and enabled. */
  lemma AddAlone(s: State, t: nat) returns (ss: seq<State>)
    requires Free(s, t) && s.threads[t].op.Add?
    ensures Alone(ss, t) && ss[0] == s
    ensures
      var op, s' := s.threads[t].op, ss[|ss| - 1];
      && t in s'.threads && s'.threads[t].pc == Finished
      && BackendAt(s', op.key, op.nid, op.eid) == Some(Backend(op.ip, false))
  {
    var s1 := DoLookup(s, t);
    assert Advances(s, t, s1);
    var o := s1.threads[t].pc.o;
    var s2 := DoLock(s1, t, o);
    assert Advances(s1, t, s2) && s2.threads[t].pc == Locked(o);
    var s3 := DoBalancer(s2, t, o);
    assert Advances(s2, t, s3);
    var s4 := DoBackend(s3, t, o);
    assert Advances(s3, t, s4);
    ss := [s, s1, s2, s3, s4];
  }

  /** The endpoint is the only one bound under its key. */
  ghost predicate OnlyBound(s: State, k: ServiceKey, nid: string, eid: string) {
    Bound(s, k, nid, eid) && forall n, e :: Bound(s, k, n, e) ==> n == nid && e == eid
  }

  /** The service is left empty exactly by a full remove of its only endpoint; else the remove is done. */
  lemma RemoveLast(s: State, t: nat, o: nat)
    requires t in s.threads && s.threads[t].op.Remove? && Valid(s, o)
    requires s.threads[t].op.key in s.registry && s.registry[s.threads[t].op.key] == o
    requires forall nid :: nid in s.services[o].loadBalancers ==> s.services[o].loadBalancers[nid].backEnds != map[]
    ensures
      var op, s' := s.threads[t].op, DoRemove(s, t, o);
      && s'.threads[t].pc == (if op.full && OnlyBound(s, op.key, op.nid, op.eid) then Emptied(o) else Finished)
      && BackendAt(s', op.key, op.nid, op.eid) == Outcome(op, BackendAt(s, op.key, op.nid, op.eid))
      && (forall n :: n in s.services[o].loadBalancers && n != op.nid ==>
            n in s'.services[o].loadBalancers && s'.services[o].loadBalancers[n] == s.services[o].loadBalancers[n])
  {
    var op, lbs := s.threads[t].op, s.services[o].loadBalancers;
    var k, nid, eid := op.key, op.nid, op.eid;
    if Bound(s, k, nid, eid) {
      var was := lbs[nid].backEnds;
      if op.full && OnlyBound(s, k, nid, eid) {
        forall e | e in was ensures e == eid {
          assert Bound(s, k, nid, e);
        }
        forall n | n in lbs ensures n == nid {
          var e :| e in lbs[n].backEnds;
          assert Bound(s, k, n, e);
        }
        assert was - {eid} == map[] && lbs - {nid} == map[];
      } else if op.full {
        var n, e :| Bound(s, k, n, e) && (n != nid || e != eid);
        var bs := was - {eid};
        if n == nid {
          assert e in bs;
        } else {
          assert n in lbs - {nid};
        }
        assert n in lbs[nid := lbs[nid].(backEnds := bs)];
      } else {
        var bs := was[eid := was[eid].(disabled := true)];
        assert eid in bs && nid in lbs[nid := lbs[nid].(backEnds := bs)];
      }
    }
  }

  /** The endpoint is the only one behind the load balancer of its network. */
  predicate OnlyBehind(lbs: map<string, LoadBalancer>, nid: string, eid: string) {
    nid in lbs && eid in lbs[nid].backEnds && lbs[nid].backEnds - {eid} == map[]
  }

  /**
   A remove at work on the registered service: its load balancer goes exactly with its only endpoint, and else
   has that endpoint gone or disabled and the same mark; every other one stays. The thread goes on to unregister
   the service exactly if that was its only endpoint.
   */
  lemma RemoveEffect(s: State, t: nat, o: nat)
    requires Inv(s) && t in s.threads && s.threads[t].op.Remove? && s.threads[t].pc == Locked(o) && Commits(s, t)
    ensures Valid(s, o)
    ensures
      var op, s', lbs := s.threads[t].op, DoRemove(s, t, o), s.services[o].loadBalancers;
      var lbs' := s'.services[o].loadBalancers;
      && s'.threads[t].pc == (if op.full && OnlyBound(s, op.key, op.nid, op.eid) then Emptied(o) else Finished)
      && BackendAt(s', op.key, op.nid, op.eid) == Outcome(op, BackendAt(s, op.key, op.nid, op.eid))
      && (forall n :: n != op.nid ==> (n in lbs' <==> n in lbs))
      && (forall n :: n != op.nid && n in lbs ==> lbs'[n] == lbs[n])
      && (op.nid in lbs' <==> op.nid in lbs && !(op.full && OnlyBehind(lbs, op.nid, op.eid)))
      && (op.nid in lbs' ==>
            lbs'[op.nid].fwMark == lbs[op.nid].fwMark &&
            lbs'[op.nid].backEnds - {op.eid} == lbs[op.nid].backEnds - {op.eid})
  {
    assert ThreadOk(s, t) && ServiceOk(s, o);
    var op, lbs := s.threads[t].op, s.services[o].loadBalancers;
    forall nid | nid in lbs ensures lbs[nid].backEnds != map[] {
      assert BalancerOk(s, o, nid);
    }
    hide Inv;
    RemoveLast(s, t, o);
    hide OnlyBound, BackendAt, Outcome;
    if op.nid in lbs && op.eid in lbs[op.nid].backEnds && !op.full {
      var was := lbs[op.nid].backEnds;
      assert op.eid in was[op.eid := was[op.eid].(disabled := true)];
    }
  }

  lemma SameBindings(s: State, s': State, k: ServiceKey, nid: string, eid: string)
    requires s'.registry == s.registry && k in s.registry && Valid(s, s.registry[k]) && Valid(s', s.registry[k])
    requires s'.services[s.registry[k]].loadBalancers == s.services[s.registry[k]].loadBalancers
    ensures BackendAt(s', k, nid, eid) == BackendAt(s, k, nid, eid)
    ensures OnlyBound(s', k, nid, eid) <==> OnlyBound(s, k, nid, eid)
  {
    forall n, e ensures Bound(s', k, n, e) <==> Bound(s, k, n, e) {
    }
  }

  /**
   A remove that runs by itself ends with its endpoint gone, or disabled if the remove is not full; the service
   is unregistered exactly with the last of its endpoints.
   */
  lemma RemoveAlone(s: State, t: nat) returns (ss: seq<State>)
    requires Free(s, t) && s.threads[t].op.Remove?
    ensures Alone(ss, t) && ss[0] == s
    ensures
      var op, s' := s.threads[t].op, ss[|ss| - 1];
      && t in s'.threads && s'.threads[t].pc == Finished
      && BackendAt(s', op.key, op.nid, op.eid) == Outcome(op, BackendAt(s, op.key, op.nid, op.eid))
      && (op.key in s'.registry <==> op.key in s.registry && !(op.full && OnlyBound(s, op.key, op.nid, op.eid)))
  {
    var op := s.threads[t].op;
    var s1 := DoLookup(s, t);
    if op.key !in s.registry {
      ss := [s, s1];
      return;
    }
    var o := s.registry[op.key];
    assert ServiceOk(s, o) && s.services[o].key == op.key;
    var s2 := DoLock(s1, t, o);
    var s3 := DoRemove(s2, t, o);
    assert Advances(s, t, s1) && Advances(s1, t, s2) && Advances(s2, t, s3);
    RemoveLast(s2, t, o);
    SameBindings(s, s2, op.key, op.nid, op.eid);
    hide Inv, OnlyBound, BackendAt, DoRemove;
    if s3.threads[t].pc == Emptied(o) {
      var s4 := DoUnregister(s3, t, o);
      assert Advances(s3, t, s4);
      ss := [s, s1, s2, s3, s4];
    } else {
      ss := [s, s1, s2, s3];
    }
  }
}
