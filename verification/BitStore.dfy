/**
 Many handles on one bitmask in a shared store. Each client owns a handle and runs
 one request at a time; a request reads the stored value, works on a private copy
 and writes it back only if the stored version has not moved. The steps of
 different clients interleave freely.
 */
module MaskStore {
  import opened Bitmaps
  import opened Runs
  import opened Search
  import opened Handles

  type ClientId = nat

  datatype Request =
    | Reserve(ordinal: nat)
    | ReserveAny(start: nat, end: nat, serial: bool)
    | Release(ordinal: nat)

  datatype Phase =
    | Idle
    | Fetching(req: Request)
    | Fetched(req: Request)
    | Writing(req: Request, ordinal: nat, copy: Mask)

  /** A handle with the store version it was last read or written at. */
  datatype Client = Client(mask: Mask, index: nat, phase: Phase)

  datatype Stored = Absent | Present(index: nat, mask: Mask)

  /** `held` records the grants that have not been released yet. */
  datatype System = System(bits: nat, store: Stored, clients: map<ClientId, Client>, held: set<(ClientId, nat)>)

  datatype Action =
    | Open(c: ClientId, version: nat)
    | Begin(c: ClientId, req: Request)
    | Refresh(c: ClientId)
    | Compute(c: ClientId)
    | Write(c: ClientId, version: nat)
    | Abort(c: ClientId)

  /** The stored byte form has no serial position: reading it keeps the reader's own. */
  ghost function Load(m: Mask, curr: nat): (r: Mask) {
    m.(curr := curr)
  }

  ghost predicate ValidRequest(s: System, c: ClientId, req: Request)
    requires c in s.clients
  {
    match req
    case Reserve(i) => i < s.bits
    case ReserveAny(start, end, serial) => start <= end < s.bits && s.clients[c].mask.unselected != 0
    case Release(i) => i < s.bits && (c, i) in s.held
  }

  /** When an action may happen. New versions are larger than the stored one. */
  ghost predicate Enabled(s: System, a: Action) {
    match a
    case Open(c, v) => c !in s.clients && (s.store.Present? ==> v > s.store.index)
    case Begin(c, req) => c in s.clients && s.clients[c].phase.Idle? && ValidRequest(s, c, req)
    case Refresh(c) => c in s.clients && s.clients[c].phase.Fetching? && s.store.Present?
    case Compute(c) => c in s.clients && s.clients[c].phase.Fetched?
    case Write(c, v) => c in s.clients && s.clients[c].phase.Writing? && s.store.Present? && v > s.store.index
    case Abort(c) => c in s.clients && !s.clients[c].phase.Idle?
  }

  /** Picks a bit on the freshly read handle, or ends the request. */
  ghost function Computed(k: Client): (r: Client)
    requires k.phase.Fetched?
  {
    match k.phase.req
    case Reserve(i) =>
      if Taken(k.mask, i) then k.(phase := Idle)
      else k.(phase := Writing(k.phase.req, i, Pushed(k.mask, i, false)))
    case ReserveAny(start, end, serial) =>
      var r := AvailableFrom(BitsOf(k.mask), start, if serial then k.mask.curr else 0, end);
      if r.None? then k.(phase := Idle)
      else
        var m := k.mask.(curr := r.value + 1);
        k.(mask := m, phase := Writing(k.phase.req, r.value, Pushed(m, r.value, false)))
    case Release(i) => k.(phase := Writing(k.phase.req, i, Pushed(k.mask, i, true)))
  }

  ghost function Next(s: System, a: Action): (s': System)
    requires Enabled(s, a)
  {
    match a
    case Open(c, v) =>
      var stored := if s.store.Absent? then Present(v, Fresh(s.bits)) else s.store;
      s.(store := stored, clients := s.clients[c := Client(Load(stored.mask, 0), stored.index, Idle)])
    case Begin(c, req) => s.(clients := s.clients[c := s.clients[c].(phase := Fetching(req))])
    case Refresh(c) =>
      var k := s.clients[c];
      s.(clients := s.clients[c := Client(Load(s.store.mask, k.mask.curr), s.store.index, Fetched(k.phase.req))])
    case Compute(c) => s.(clients := s.clients[c := Computed(s.clients[c])])
    case Write(c, v) =>
      var k := s.clients[c];
      if k.index != s.store.index then s.(clients := s.clients[c := k.(phase := Fetching(k.phase.req))])
      else
        s.(store := Present(v, k.phase.copy),
           clients := s.clients[c := Client(k.phase.copy, v, Idle)],
           held := if k.phase.req.Release? then s.held - {(c, k.phase.ordinal)} else s.held + {(c, k.phase.ordinal)})
    case Abort(c) => s.(clients := s.clients[c := s.clients[c].(phase := Idle)])
  }

  // ----- the invariant --------------------------------------------------------

  /** What a client knows: at the stored version its handle is the stored value. */
  ghost predicate ClientInv(s: System, c: ClientId, k: Client) {
    && s.store.Present? && k.mask.bits == s.bits && WellFormed(k.mask)
    && k.index <= s.store.index
    && (k.index == s.store.index ==> Load(k.mask, 0) == Load(s.store.mask, 0))
    && match k.phase
       case Idle => true
       case Fetching(req) => RequestInv(s, c, req)
       case Fetched(req) => RequestInv(s, c, req)
       case Writing(req, i, copy) =>
         && RequestInv(s, c, req) && i < s.bits && copy == Pushed(k.mask, i, req.Release?)
         && (if req.Release? then i == req.ordinal else !Taken(k.mask, i))
  }

  ghost predicate RequestInv(s: System, c: ClientId, req: Request) {
    match req
    case Reserve(i) => i < s.bits
    case ReserveAny(start, end, serial) => start <= end < s.bits
    case Release(i) => i < s.bits && (c, i) in s.held
  }

  /** No two clients hold the same ordinal, and a held ordinal is taken in the store. */
  ghost predicate GrantsInv(s: System) {
    && (forall g | g in s.held :: s.store.Present? && Taken(s.store.mask, g.1))
    && (forall g, h | g in s.held && h in s.held && g.1 == h.1 :: g == h)
  }

  ghost predicate Inv(s: System) {
    && s.bits < U64_LIMIT
    && (s.store.Present? ==> s.store.mask.bits == s.bits && WellFormed(s.store.mask) && Conserved(s.store.mask))
    && GrantsInv(s)
    && forall c | c in s.clients :: ClientInv(s, c, s.clients[c])
  }

  ghost function Initial(bits: nat): (s: System) {
    System(bits, Absent, map[], {})
  }

  lemma LoadSame(m: Mask, curr: nat)
    ensures WellFormed(m) && curr < U64_LIMIT ==> WellFormed(Load(m, curr))
    ensures forall i: nat :: Taken(Load(m, curr), i) <==> Taken(m, i)
    ensures Conserved(Load(m, curr)) <==> Conserved(m)
  {
  }

  /** Steps that only move one client leave every other obligation alone. */
  lemma OneClientStep(s: System, c: ClientId, k: Client)
    requires Inv(s) && c in s.clients && ClientInv(s, c, k)
    ensures Inv(s.(clients := s.clients[c := k]))
  {
    var s' := s.(clients := s.clients[c := k]);
    forall d | d in s'.clients
      ensures ClientInv(s', d, s'.clients[d])
    {
      assert ClientInv(s, d, s'.clients[d]);
    }
  }

  lemma ComputeInv(s: System, c: ClientId)
    requires Inv(s) && Enabled(s, Compute(c))
    ensures Inv(Next(s, Compute(c)))
  {
    hide PushBit, AvailableFrom;
    var k := s.clients[c];
    assert ClientInv(s, c, k);
    if k.phase.req.ReserveAny? {
      WellFormedSize(k.mask);
      var req := k.phase.req;
      AvailableFromRange(BitsOf(k.mask), req.start, if req.serial then k.mask.curr else 0, req.end);
    }
    OneClientStep(s, c, Computed(k));
  }

  /** Equal up to the serial position: the same bits are taken. */
  lemma SameTaken(a: Mask, b: Mask)
    requires Load(a, 0) == Load(b, 0)
    ensures forall i: nat :: Taken(a, i) <==> Taken(b, i)
    ensures Conserved(a) <==> Conserved(b)
  {
    LoadSame(a, 0);
    LoadSame(b, 0);
  }

  /** A successful write publishes the old value with one bit changed. */
  lemma WrittenMask(s: System, c: ClientId)
    requires Inv(s) && c in s.clients && s.clients[c].phase.Writing? && s.clients[c].index == s.store.index
    ensures var p := s.clients[c].phase;
            && WellFormed(p.copy) && p.copy.bits == s.bits && Conserved(p.copy)
            && (forall i: nat ::
                  Taken(p.copy, i) <==> if i == p.ordinal then !p.req.Release? else Taken(s.store.mask, i))
            && (!p.req.Release? ==> !Taken(s.store.mask, p.ordinal))
  {
    var k := s.clients[c];
    assert ClientInv(s, c, k);
    SameTaken(k.mask, s.store.mask);
    PushedSpec(k.mask, k.phase.ordinal, k.phase.req.Release?);
  }

  lemma WriteGrants(s: System, c: ClientId, v: nat)
    requires Inv(s) && Enabled(s, Write(c, v)) && s.clients[c].index == s.store.index
    ensures GrantsInv(Next(s, Write(c, v)))
  {
    hide WellFormed, Conserved, Pushed, Taken;
    WrittenMask(s, c);
    var p := s.clients[c].phase;
    var s' := Next(s, Write(c, v));
    assert ClientInv(s, c, s.clients[c]);
    assert p.req.Release? ==> (c, p.ordinal) in s.held;
    assert forall g | g in s.held :: g in s'.held ==> Taken(s.store.mask, g.1);
  }

  lemma WriteClients(s: System, c: ClientId, v: nat, d: ClientId)
    requires Inv(s) && Enabled(s, Write(c, v)) && s.clients[c].index == s.store.index && d in s.clients
    ensures var s' := Next(s, Write(c, v)); ClientInv(s', d, s'.clients[d])
  {
    WrittenMask(s, c);
    assert ClientInv(s, d, s.clients[d]);
    assert ClientInv(s, c, s.clients[c]);
  }

  lemma WriteInv(s: System, c: ClientId, v: nat)
    requires Inv(s) && Enabled(s, Write(c, v))
    ensures Inv(Next(s, Write(c, v)))
  {
    var s' := Next(s, Write(c, v));
    assert ClientInv(s, c, s.clients[c]);
    if s.clients[c].index != s.store.index {
      OneClientStep(s, c, s'.clients[c]);
    } else {
      WrittenMask(s, c);
      WriteGrants(s, c, v);
      forall d | d in s'.clients
        ensures ClientInv(s', d, s'.clients[d])
      {
        WriteClients(s, c, v, d);
      }
    }
  }

  lemma OpenInv(s: System, c: ClientId, v: nat)
    requires Inv(s) && Enabled(s, Open(c, v))
    ensures Inv(Next(s, Open(c, v)))
  {
    var s' := Next(s, Open(c, v));
    FreshSpec(s.bits);
    LoadSame(s'.store.mask, 0);
    forall d | d in s'.clients
      ensures ClientInv(s', d, s'.clients[d])
    {
      if d != c { assert ClientInv(s, d, s.clients[d]); }
    }
  }

  /** Every step of every client keeps the invariant. */
  lemma StepInv(s: System, a: Action)
    requires Inv(s) && Enabled(s, a)
    ensures Inv(Next(s, a))
  {
    match a
    case Open(c, v) => OpenInv(s, c, v);
    case Compute(c) => ComputeInv(s, c);
    case Write(c, v) => WriteInv(s, c, v);
    case Begin(c, req) =>
      assert ClientInv(s, c, s.clients[c]);
      OneClientStep(s, c, s.clients[c].(phase := Fetching(req)));
    case Refresh(c) =>
      assert ClientInv(s, c, s.clients[c]);
      LoadSame(s.store.mask, s.clients[c].mask.curr);
      OneClientStep(s, c, Next(s, a).clients[c]);
    case Abort(c) =>
      assert ClientInv(s, c, s.clients[c]);
      OneClientStep(s, c, s.clients[c].(phase := Idle));
  }

  // ----- whole executions -----------------------------------------------------

  ghost predicate Execution(states: seq<System>, actions: seq<Action>) {
    && |states| == |actions| + 1
    && forall i | 0 <= i < |actions| :: Enabled(states[i], actions[i]) && states[i + 1] == Next(states[i], actions[i])
  }

  lemma {:induction false} ExecutionInv(states: seq<System>, actions: seq<Action>, n: nat)
    requires Execution(states, actions) && Inv(states[0]) && n < |states|
    ensures Inv(states[n])
  {
    if n > 0 {
      ExecutionInv(states, actions, n - 1);
      StepInv(states[n - 1], actions[n - 1]);
    }
  }

  /**
   However the clients interleave, an ordinal granted and not yet released has one
   holder and is set in the store, and the stored count of free bits is exact.
   */
  lemma NoDoubleGrant(bits: nat, states: seq<System>, actions: seq<Action>, n: nat, c: ClientId, d: ClientId, i: nat)
    requires bits < U64_LIMIT && Execution(states, actions) && states[0] == Initial(bits) && n < |states|
    ensures (c, i) in states[n].held && (d, i) in states[n].held ==> c == d
    ensures (c, i) in states[n].held ==> states[n].store.Present? && Taken(states[n].store.mask, i)
    ensures states[n].store.Present? ==> Conserved(states[n].store.mask)
  {
    assert Inv(Initial(bits));
    ExecutionInv(states, actions, n);
    var held := states[n].held;
    if (c, i) in held && (d, i) in held {
      assert (c, i).1 == (d, i).1;
    }
  }

  // ----- one client by itself -------------------------------------------------

  /** The request can be met on the stored bitmask. */
  ghost predicate Servable(m: Mask, req: Request) {
    match req
    case Reserve(i) => !Taken(m, i)
    case ReserveAny(start, end, _) => FreeIn(m, start, end + 1)
    case Release(_) => true
  }

  predicate Fits(req: Request, i: nat) {
    match req
    case Reserve(o) => i == o
    case ReserveAny(start, end, _) => start <= i <= end
    case Release(o) => i == o
  }

  /** The request is met with ordinal `i`: that bit of the stored bitmask changes, and the holder is recorded. */
  ghost predicate Served(s: System, s': System, c: ClientId, req: Request, i: nat) {
    && s.store.Present? && s'.store.Present? && Fits(req, i) && (!req.Release? ==> !Taken(s.store.mask, i))
    && (forall j: nat :: Taken(s'.store.mask, j) <==> if j == i then !req.Release? else Taken(s.store.mask, j))
    && s'.held == if req.Release? then s.held - {(c, i)} else s.held + {(c, i)}
  }

  /** The client begins a request and reads the store. */
  ghost function Prepared(s: System, c: ClientId, req: Request): (s': System)
    requires Enabled(s, Begin(c, req)) && s.store.Present?
  {
    Next(Next(s, Begin(c, req)), Refresh(c))
  }

  lemma PreparedFresh(s: System, c: ClientId, req: Request)
    requires Inv(s) && Enabled(s, Begin(c, req)) && s.store.Present?
    ensures
      var s2 := Prepared(s, c, req);
      && Inv(s2) && s2.store == s.store && s2.held == s.held && c in s2.clients
      && s2.clients[c].phase == Fetched(req) && s2.clients[c].index == s.store.index
      && s2.clients[c].mask.bits == s.bits && WellFormed(s2.clients[c].mask)
      && forall j: nat :: Taken(s2.clients[c].mask, j) <==> Taken(s.store.mask, j)
  {
    var s1 := Next(s, Begin(c, req));
    StepInv(s, Begin(c, req));
    StepInv(s1, Refresh(c));
    LoadSame(s.store.mask, s1.clients[c].mask.curr);
    var s2 := Prepared(s, c, req);
    assert ClientInv(s2, c, s2.clients[c]);
  }

  /** A request that nobody interrupts is met if and only if it can be met on the stored bitmask. */
  lemma AloneServed(s: System, c: ClientId, req: Request, v: nat)
    requires Inv(s) && Enabled(s, Begin(c, req)) && s.store.Present? && v > s.store.index
    ensures Enabled(Prepared(s, c, req), Compute(c))
    ensures
      var s3 := Next(Prepared(s, c, req), Compute(c));
      && c in s3.clients && s3.store == s.store && s3.held == s.held
      && if Servable(s.store.mask, req) then
           Enabled(s3, Write(c, v)) && exists i: nat :: Served(s, Next(s3, Write(c, v)), c, req, i)
         else s3.clients[c].phase == Idle
  {
    PreparedFresh(s, c, req);
    var k := Prepared(s, c, req).clients[c];
    PickIff(k, s.store.mask);
    hide *;
    ComputeServes(s, Prepared(s, c, req), c, req, v);
  }

  /** What the request does to a handle without a store. */
  ghost function OnHandle(m: Mask, req: Request): (r: (Mask, Outcome)) {
    match req
    case Reserve(i) => SetBit(m, i)
    case ReserveAny(start, end, serial) => SetAnyIn(m, start, end, serial)
    case Release(i) => Unset(m, i)
  }

  /**
   A request that nobody interrupts leaves in the store what it leaves of the stored bitmask in a handle without
   one, searching from the client's own serial position.
   */
  lemma AloneAsHandle(s: System, c: ClientId, req: Request, v: nat)
    requires Inv(s) && Enabled(s, Begin(c, req)) && s.store.Present? && v > s.store.index
    ensures
      var s2, m := Prepared(s, c, req), OnHandle(Load(s.store.mask, s.clients[c].mask.curr), req).0;
      && Enabled(s2, Compute(c))
      && var s3 := Next(s2, Compute(c));
      if s3.clients[c].phase.Writing? then
        Enabled(s3, Write(c, v)) && Next(s3, Write(c, v)).store == Present(v, m)
      else m == Load(s.store.mask, s.clients[c].mask.curr)
  {
    PreparedFresh(s, c, req);
    var s2 := Prepared(s, c, req);
    assert s2.clients[c].mask == Load(s.store.mask, s.clients[c].mask.curr);
    PicksAsHandle(s2.clients[c]);
    hide *;
    WritesCopy(s2, c, v);
  }

  /** The picked ordinal and the private copy are those of the handle without a store. */
  lemma PicksAsHandle(k: Client)
    requires k.phase.Fetched? && WellFormed(k.mask)
    requires k.phase.req.Reserve? || k.phase.req.Release? ==> k.phase.req.ordinal < k.mask.bits
    ensures
      var k', m := Computed(k), OnHandle(k.mask, k.phase.req).0;
      && k'.index == k.index
      && if k'.phase.Writing? then k'.phase.copy == m else m == k.mask
  {
    WellFormedSize(k.mask);
    hide WellFormed, Pushed, AvailableFrom;
  }

  lemma WritesCopy(s: System, c: ClientId, v: nat)
    requires c in s.clients && s.clients[c].phase.Fetched? && s.store.Present? && v > s.store.index
    requires Computed(s.clients[c]).index == s.store.index
    ensures Enabled(s, Compute(c))
    ensures
      var s3 := Next(s, Compute(c));
      && c in s3.clients && s3.clients[c] == Computed(s.clients[c])
      && (s3.clients[c].phase.Writing? ==>
            Enabled(s3, Write(c, v)) && Next(s3, Write(c, v)).store == Present(v, s3.clients[c].phase.copy))
  {
    hide Computed;
  }

  lemma ComputeServes(s: System, s2: System, c: ClientId, req: Request, v: nat)
    requires s.store.Present? && v > s.store.index && s2.store == s.store && s2.held == s.held
    requires c in s2.clients && s2.clients[c].phase == Fetched(req) && s2.clients[c].index == s.store.index
    requires Picked(s2.clients[c], s.store.mask)
    ensures Enabled(s2, Compute(c))
    ensures
      var s3 := Next(s2, Compute(c));
      && c in s3.clients && s3.store == s.store && s3.held == s.held
      && if Servable(s.store.mask, req) then
           Enabled(s3, Write(c, v)) && exists i: nat :: Served(s, Next(s3, Write(c, v)), c, req, i)
         else s3.clients[c].phase == Idle
  {
    hide Taken, Computed, Servable, Fits;
    var s3 := Next(s2, Compute(c));
    if Servable(s.store.mask, req) {
      assert Served(s, Next(s3, Write(c, v)), c, req, s3.clients[c].phase.ordinal);
    }
  }

  /** The handle's request is met on a private copy, if it can be met on the bitmask. */
  ghost predicate Picked(k: Client, m: Mask)
    requires k.phase.Fetched?
  {
    var req, p := k.phase.req, Computed(k).phase;
    && Computed(k).index == k.index
    && if Servable(m, req) then
         && p.Writing? && p.req == req && Fits(req, p.ordinal) && (!req.Release? ==> !Taken(m, p.ordinal))
         && forall j: nat :: Taken(p.copy, j) <==> if j == p.ordinal then !req.Release? else Taken(m, j)
       else p == Idle
  }

  lemma AnyPick(m: Mask, start: nat, end: nat, serial: bool)
    requires WellFormed(m) && start <= end < m.bits
    ensures
      var r := AvailableFrom(BitsOf(m), start, if serial then m.curr else 0, end);
      && (r.Some? <==> FreeIn(m, start, end + 1))
      && (r.Some? ==> start <= r.value <= end && !Taken(m, r.value) && forall j: nat ::
            Taken(Pushed(m.(curr := r.value + 1), r.value, false), j) <==> j == r.value || Taken(m, j))
  {
    hide AvailableFrom, Pushed;
    WellFormedSize(m);
    var c := if serial then m.curr else 0;
    AvailableFromRange(BitsOf(m), start, c, end);
    var r := AvailableFrom(BitsOf(m), start, c, end);
    if r.Some? {
      var m1 := m.(curr := r.value + 1);
      LoadSame(m, r.value + 1);
      PushedSpec(m1, r.value, false);
      assert !Taken(m, r.value);
    }
  }

  /** On a fresh handle an ordinal is picked exactly if there is one to pick. */
  lemma PickIff(k: Client, m: Mask)
    requires k.phase.Fetched? && WellFormed(k.mask) && forall j: nat :: Taken(k.mask, j) <==> Taken(m, j)
    requires m.bits == k.mask.bits
    requires
      match k.phase.req
      case Reserve(i) => i < m.bits
      case ReserveAny(start, end, _) => start <= end < m.bits
      case Release(i) => i < m.bits
    ensures Picked(k, m)
  {
    hide WellFormed, Taken;
    match k.phase.req
    case Reserve(i) => PushedSpec(k.mask, i, false);
    case ReserveAny(start, end, serial) =>
      AnyPick(k.mask, start, end, serial);
    case Release(i) => PushedSpec(k.mask, i, true);
  }
}
