/**
 Many allocators on one pool table in a shared store. A call reads the stored table, edits
 its own copy and writes it back only if the stored version has not moved; otherwise it
 starts over. The steps of different allocators interleave freely.
 */
module PoolStore {
  import opened Pools

  /** How far a call has got: the copy it works on, and the version that was read. */
  datatype Phase =
    | Idle
    | Pending(e: Event)
    | Loaded(e: Event, copy: PoolTable, index: nat)
    | Edited(e: Event, copy: PoolTable, index: nat)

  /** `history` lists the calls whose writes succeeded. */
  datatype State = State(table: PoolTable, index: nat, calls: map<nat, Phase>, history: seq<Event>)

  datatype Action =
    | Begin(i: nat, e: Event)
    | Repick(i: nat, e: Event)
    | Refresh(i: nat)
    | Edit(i: nat)
    | Write(i: nat)

  /** Whether the call takes effect on a table, and the table it leaves. */
  ghost function Effect(m: PoolTable, e: Event): (r: (bool, PoolTable)) {
    if e.Ask? then
      var (r, m') := AddPool(m, e.k, e.nw, e.ipr, e.pdf);
      (r.Added?, m')
    else
      var (r, m') := RemovePool(m, e.k);
      (r.Removed?, m')
  }

  predicate Default(e: Event) {
    e.Ask? && e.pdf
  }

  /** A request for a default pool picks one anew before each attempt. */
  predicate Enabled(s: State, a: Action) {
    a.i in s.calls &&
    var p := s.calls[a.i];
    match a
    case Begin(_, _) => p.Idle?
    case Repick(_, e) => p.Pending? && Default(p.e) && Default(e)
    case Refresh(_) => p.Pending?
    case Edit(_) => p.Loaded?
    case Write(_) => p.Edited?
  }

  ghost function NextPhase(s: State, a: Action): (p: Phase)
    requires Enabled(s, a)
  {
    var p := s.calls[a.i];
    match a
    case Begin(_, e) => Pending(e)
    case Repick(_, e) => Pending(e)
    case Refresh(_) => Loaded(p.e, s.table, s.index)
    case Edit(_) =>
      var (ok, m) := Effect(p.copy, p.e);
      if ok then Edited(p.e, m, p.index)
      else if Default(p.e) && p.e.k in p.copy then Pending(p.e)
      else Idle
    case Write(_) => if p.index == s.index then Idle else Pending(p.e)
  }

  ghost function Next(s: State, a: Action): (s': State)
    requires Enabled(s, a)
  {
    var p, calls := s.calls[a.i], s.calls[a.i := NextPhase(s, a)];
    if a.Write? && p.index == s.index then State(p.copy, s.index + 1, calls, s.history + [p.e])
    else s.(calls := calls)
  }

  /** An empty table, and allocators with nothing to do. */
  ghost predicate Initial(s: State) {
    s == State(map[], 0, s.calls, []) && forall i :: i in s.calls ==> s.calls[i].Idle?
  }

  ghost predicate Execution(acts: seq<Action>, ss: seq<State>) {
    && |ss| == |acts| + 1
    && Initial(ss[0])
    && forall j: nat :: j < |acts| ==> Enabled(ss[j], acts[j]) && ss[j + 1] == Next(ss[j], acts[j])
  }

  // ----- every write is decided on the stored table ---------------------------

  /** A copy of the current version is the stored table, edited or not. */
  ghost predicate PhaseOk(s: State, p: Phase) {
    && (p.Loaded? || p.Edited? ==> p.index <= s.index)
    && (p.Loaded? && p.index == s.index ==> p.copy == s.table)
    && (p.Edited? && p.index == s.index ==> Effect(s.table, p.e) == (true, p.copy))
  }

  ghost predicate Inv(s: State) {
    && s.table == Run(s.history).0
    && forall i :: i in s.calls ==> PhaseOk(s, s.calls[i])
  }

  lemma {:induction false} RunSnoc(es: seq<Event>, e: Event)
    ensures Run(es + [e]).0 == Effect(Run(es).0, e).1
  {
    assert (es + [e])[..|es|] == es;
  }

  lemma StepInv(s: State, a: Action)
    requires Inv(s) && Enabled(s, a)
    ensures Inv(Next(s, a))
  {
    hide Run, Effect;
    assert PhaseOk(s, s.calls[a.i]);
    if a.Write? {
      RunSnoc(s.history, s.calls[a.i].e);
    }
  }

  /** In every interleaving the stored table is that of the committed calls, one after the other. */
  lemma {:induction false} Linearized(acts: seq<Action>, ss: seq<State>, j: nat)
    requires Execution(acts, ss) && j < |ss|
    ensures Inv(ss[j])
  {
    if j > 0 {
      Linearized(acts, ss, j - 1);
      hide Inv, Next, Enabled;
      assert ss[j - 1 + 1] == Next(ss[j - 1], acts[j - 1]);
      StepInv(ss[j - 1], acts[j - 1]);
    }
  }

  /** A call that commits takes effect on the table stored at that moment, however old the copy it read. */
  lemma CommitTakesEffect(acts: seq<Action>, ss: seq<State>, j: nat)
    requires Execution(acts, ss) && j < |acts| && ss[j + 1].history != ss[j].history
    ensures acts[j].Write? && ss[j].calls[acts[j].i].Edited?
    ensures
      var e := ss[j].calls[acts[j].i].e;
      ss[j + 1].history == ss[j].history + [e] && Effect(ss[j].table, e) == (true, ss[j + 1].table)
  {
    hide Run, Effect;
    Linearized(acts, ss, j);
    assert Enabled(ss[j], acts[j]) && ss[j + 1] == Next(ss[j], acts[j]);
    assert PhaseOk(ss[j], ss[j].calls[acts[j].i]);
  }

  /** In every interleaving whose releases match grants, the stored counts are those of the live grants. */
  lemma StoredCounted(acts: seq<Action>, ss: seq<State>, j: nat)
    requires Execution(acts, ss) && j < |ss| && Matched(ss[j].history)
    ensures Counted(ss[j].table, Run(ss[j].history).1)
  {
    hide Run, Matched, Counted;
    Linearized(acts, ss, j);
    RunCounted(ss[j].history);
  }

  /** And while no sub-pool request creates an overlapping master, no two allocators are granted overlapping masters. */
  lemma StoredDisjoint(acts: seq<Action>, ss: seq<State>, j: nat)
    requires Execution(acts, ss) && j < |ss| && Matched(ss[j].history) && NamesMasters(ss[j].history)
    ensures DisjointMasters(ss[j].table)
  {
    hide Run, Matched, NamesMasters, DisjointMasters;
    Linearized(acts, ss, j);
    RunDisjoint(ss[j].history);
  }

  /** The call of an idle allocator up to its edit, with no other step in between. */
  ghost function Tried(s: State, i: nat, e: Event): (s': State)
    requires i in s.calls && s.calls[i].Idle?
  {
    Next(Next(Next(s, Begin(i, e)), Refresh(i)), Edit(i))
  }

  /**
   A call that nobody interrupts is committed if and only if it takes effect on the stored table; one that does
   not changes nothing, and is tried again only if the default pool it picked is taken.
   */
  lemma AloneCommits(s: State, i: nat, e: Event)
    requires i in s.calls && s.calls[i].Idle?
    ensures
      var s3, (ok, m) := Tried(s, i, e), Effect(s.table, e);
      && i in s3.calls
      && if ok then
           && Enabled(s3, Write(i))
           && var s4 := Next(s3, Write(i));
           s4.table == m && s4.history == s.history + [e] && s4.index == s.index + 1 && s4.calls[i] == Idle
         else
           && s3.table == s.table && s3.history == s.history
           && s3.calls[i] == if Default(e) && e.k in s.table then Pending(e) else Idle
  {
    hide Effect;
  }

  /** A write lands if and only if the stored version is the one that was read; else the call starts over. */
  lemma WriteLandsIff(s: State, i: nat)
    requires Enabled(s, Write(i))
    ensures
      var s', p := Next(s, Write(i)), s.calls[i];
      && (s'.history != s.history <==> p.index == s.index)
      && s'.calls[i] == (if p.index == s.index then Idle else Pending(p.e))
      && (p.index != s.index ==> s'.table == s.table)
  {
  }
}
