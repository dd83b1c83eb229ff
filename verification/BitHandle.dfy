/**
 The bitmask handle: the list of runs plus the number of bits, the count of
 unselected bits and the position of the last serial allocation. `Mask` is its
 value; the class edits the linked list in place and is proved against functions
 on that value.
 */
module Handles {
  import opened Blocks
  import opened Bitmaps
  import opened Runs
  import opened Sequences
  import opened Search

  datatype Mask = Mask(bits: nat, unselected: nat, runs: seq<Run>, curr: nat)

  datatype Outcome = Granted(ordinal: nat) | Done | NoBitAvailable | BitAllocated | BadRequest

  ghost function BitsOf(m: Mask): (bs: seq<Block>) {
    Flat(m.runs)
  }

  /** The list covers the bits with no block to spare, and is in canonical form. */
  ghost predicate WellFormed(m: Mask) {
    && m.bits < U64_LIMIT && m.unselected < U64_LIMIT && m.curr < U64_LIMIT
    && m.bits <= 32 * Total(m.runs) < m.bits + 32
    && m.runs != [] && (Canonical(m.runs) || Total(m.runs) == 0)
    && (m.bits == 0 ==> m.unselected == 0)
  }

  lemma WellFormedSize(m: Mask)
    requires WellFormed(m)
    ensures |BitsOf(m)| == Total(m.runs) && m.bits <= 32 * |BitsOf(m)|
    ensures Searchable(m.runs)
  {
    FlatLength(m.runs);
  }

  /** Bit `i` is taken. */
  ghost predicate Taken(m: Mask, i: nat)
  {
    i < m.bits && i < 32 * |BitsOf(m)| && BitAt(BitsOf(m), i)
  }

  /** `unselected` is the number of clear bits among the first `bits`. */
  ghost predicate Conserved(m: Mask) {
    m.bits <= 32 * |BitsOf(m)| && m.unselected == ClearCount(BitsOf(m), m.bits)
  }

  // ----- the operations as functions ------------------------------------------

  ghost function Fresh(bits: nat): (m: Mask) {
    Mask(bits, bits, [Run(0, (bits + 31) / 32)], 0)
  }

  /** The counter is a uint64 and wraps. */
  function NextCount(unselected: nat, release: bool): (n: u64) {
    (unselected + if release then 1 else U64_LIMIT - 1) % U64_LIMIT
  }

  lemma NextCountExact(unselected: nat, release: bool, count: nat)
    requires unselected < U64_LIMIT && count < U64_LIMIT
    ensures NextCount(unselected, release) == count <==>
            count == unselected + (if release then 1 else -1)
            || (count == 0 && unselected == U64_LIMIT - 1 && release)
            || (count == U64_LIMIT - 1 && unselected == 0 && !release)
  {
  }

  ghost function Pushed(m: Mask, i: nat, release: bool): (r: Mask) {
    m.(runs := PushBit(m.runs, i, release),
       unselected := NextCount(m.unselected, release))
  }

  ghost function SetBit(m: Mask, i: nat): (r: (Mask, Outcome)) {
    if i >= m.bits then (m, BadRequest)
    else if i < 32 * |BitsOf(m)| && !BitAt(BitsOf(m), i) then (Pushed(m, i, false), Done)
    else (m, BitAllocated)
  }

  ghost function Unset(m: Mask, i: nat): (r: (Mask, Outcome)) {
    if i >= m.bits then (m, BadRequest) else (Pushed(m, i, true), Done)
  }

  ghost function SetAnyIn(m: Mask, start: nat, end: nat, serial: bool): (r: (Mask, Outcome)) {
    var i := AvailableFrom(BitsOf(m), start, if serial then m.curr else 0, end);
    if i.None? then (m, NoBitAvailable)
    else (Pushed(m, i.value, false).(curr := i.value + 1), Granted(i.value))
  }

  ghost function SetAnyInRange(m: Mask, start: nat, end: nat, serial: bool): (r: (Mask, Outcome)) {
    if end < start || end >= m.bits then (m, BadRequest)
    else if m.unselected == 0 then (m, NoBitAvailable)
    else SetAnyIn(m, start, end, serial)
  }

  ghost function SetAny(m: Mask, serial: bool): (r: (Mask, Outcome)) {
    if m.unselected == 0 then (m, NoBitAvailable)
    else SetAnyIn(m, 0, if m.bits == 0 then U64_LIMIT - 1 else m.bits - 1, serial)
  }

  // ----- what they do to the bits and to the count ----------------------------

  lemma PushedForm(m: Mask, i: nat, release: bool)
    requires WellFormed(m) && m.bits > 0
    ensures WellFormed(Pushed(m, i, release)) && |BitsOf(Pushed(m, i, release))| == |BitsOf(m)|
  {
    var p := Pushed(m, i, release);
    WellFormedSize(m);
    PushBitFlat(m.runs, i, release);
    if Canonical(m.runs) {
      PushBitCanonical(m.runs, i, release);
    }
    FlatLength(p.runs);
  }

  lemma PushedBits(m: Mask, i: nat, release: bool, j: nat)
    requires WellFormed(m) && i < m.bits
    ensures Taken(Pushed(m, i, release), j) <==> if j == i then !release else Taken(m, j)
  {
    WellFormedSize(m);
    PushBitFlat(m.runs, i, release);
    if j < m.bits {
      SetAtBits(BitsOf(m), i, release, j);
    }
  }

  /** The count stays right exactly when the bit really changes. */
  lemma PushedCount(m: Mask, i: nat, release: bool)
    requires WellFormed(m) && i < m.bits && Conserved(m)
    ensures Conserved(Pushed(m, i, release)) <==> Taken(m, i) == release
  {
    WellFormedSize(m);
    PushBitFlat(m.runs, i, release);
    ClearCountSetAt(BitsOf(m), i, release, m.bits);
    NextCountExact(m.unselected, release, ClearCount(SetAt(BitsOf(m), i, release), m.bits));
  }

  lemma PushedSpec(m: Mask, i: nat, release: bool)
    requires WellFormed(m) && i < m.bits
    ensures WellFormed(Pushed(m, i, release))
    ensures forall j: nat :: Taken(Pushed(m, i, release), j) <==> if j == i then !release else Taken(m, j)
    ensures Conserved(m) ==> (Conserved(Pushed(m, i, release)) <==> (Taken(m, i) == release))
  {
    PushedForm(m, i, release);
    forall j: nat
      ensures Taken(Pushed(m, i, release), j) <==> if j == i then !release else Taken(m, j)
    {
      PushedBits(m, i, release, j);
    }
    if Conserved(m) {
      PushedCount(m, i, release);
    }
  }

  lemma FreshSpec(bits: nat)
    requires bits < U64_LIMIT
    ensures WellFormed(Fresh(bits)) && Conserved(Fresh(bits))
    ensures forall j: nat :: !Taken(Fresh(bits), j)
  {
    var m := Fresh(bits);
    FlatOne(m.runs[0]);
    FlatLength(m.runs);
    forall j: nat | j < 32 * |BitsOf(m)|
      ensures !BitAt(BitsOf(m), j)
    {
      EmptyBlock(j % 32);
    }
    ClearCountAll(BitsOf(m), bits);
  }

  /** `Set` succeeds exactly on a free ordinal of the mask, and takes it and nothing else. */
  lemma SetBitSpec(m: Mask, i: nat)
    requires WellFormed(m)
    ensures SetBit(m, i).1 == if i >= m.bits then BadRequest else if Taken(m, i) then BitAllocated else Done
    ensures SetBit(m, i).1 != Done ==> SetBit(m, i).0 == m
    ensures SetBit(m, i).1 == Done ==> WellFormed(SetBit(m, i).0)
    ensures SetBit(m, i).1 == Done ==> forall j: nat :: Taken(SetBit(m, i).0, j) <==> j == i || Taken(m, j)
    ensures SetBit(m, i).1 == Done && Conserved(m) ==> Conserved(SetBit(m, i).0)
  {
    WellFormedSize(m);
    if i < m.bits {
      PushedSpec(m, i, false);
    }
  }

  lemma UnsetSpec(m: Mask, i: nat)
    requires WellFormed(m)
    ensures i >= m.bits ==> Unset(m, i) == (m, BadRequest)
    ensures WellFormed(Unset(m, i).0)
    ensures forall j: nat :: Taken(Unset(m, i).0, j) <==> Taken(m, j) && j != i
    ensures i < m.bits && Conserved(m) ==> (Conserved(Unset(m, i).0) <==> Taken(m, i))
  {
    if i < m.bits {
      PushedSpec(m, i, true);
    }
  }

  /** A range request grants a free ordinal of the range, or proves the range full. */
  lemma SetAnyInSpec(m: Mask, start: nat, end: nat, serial: bool)
    requires WellFormed(m) && end < m.bits
    ensures var (m', o) := SetAnyIn(m, start, end, serial);
            if o.Granted? then
              && start <= o.ordinal <= end && !Taken(m, o.ordinal) && WellFormed(m') && m'.curr == o.ordinal + 1
              && (forall j: nat :: Taken(m', j) <==> j == o.ordinal || Taken(m, j))
              && (Conserved(m) ==> Conserved(m'))
            else
              o == NoBitAvailable && m' == m && forall j: nat | start <= j <= end :: Taken(m, j)
  {
    hide PushBit, AvailableFrom;
    WellFormedSize(m);
    var c := if serial then m.curr else 0;
    AvailableFromRange(BitsOf(m), start, c, end);
    var i := AvailableFrom(BitsOf(m), start, c, end);
    if i.Some? {
      PushedSpec(m, i.value, false);
      var p, m' := Pushed(m, i.value, false), SetAnyIn(m, start, end, serial).0;
      assert forall j: nat :: Taken(m', j) <==> Taken(p, j);
    }
  }

  /** Some ordinal from `lo` to below `hi` is free. */
  ghost predicate FreeIn(m: Mask, lo: nat, hi: nat) {
    exists i: nat :: lo <= i < hi && i < m.bits && !Taken(m, i)
  }

  /**
   A granted ordinal is the lowest free one of the range; of a serial request, the lowest from where the last one
   ended, if there is one.
   */
  lemma SetAnyOrder(m: Mask, start: nat, end: nat, serial: bool)
    requires WellFormed(m) && end < m.bits && SetAnyIn(m, start, end, serial).1.Granted?
    ensures
      var o := SetAnyIn(m, start, end, serial).1.ordinal;
      var from := if serial && m.curr > start && FreeIn(m, m.curr, end + 1) then m.curr else start;
      from <= o && forall j: nat | from <= j < o :: Taken(m, j)
  {
    hide AvailableFrom;
    WellFormedSize(m);
    var c := if serial then m.curr else 0;
    AvailableFromRange(BitsOf(m), start, c, end);
    AvailableFromOrder(BitsOf(m), start, c, end);
    var o := SetAnyIn(m, start, end, serial).1.ordinal;
    assert !Taken(m, o);
    if c > start {
      assert FreeIn(m, c, end + 1) <==> c <= o;
    }
  }

  /** The count of free bits is zero exactly when every bit is taken. */
  lemma NoneLeftIff(m: Mask)
    requires WellFormed(m) && Conserved(m)
    ensures m.unselected == 0 <==> !FreeIn(m, 0, m.bits)
  {
    WellFormedSize(m);
    ClearCountZero(BitsOf(m), m.bits);
    if m.unselected != 0 {
      var j :| 0 <= j < m.bits && !BitAt(BitsOf(m), j);
      assert !Taken(m, j);
    }
  }

  /** A request for any bit is granted exactly when one is free. */
  lemma SetAnyIff(m: Mask, serial: bool)
    requires WellFormed(m) && Conserved(m)
    ensures
      var o := SetAny(m, serial).1;
      (o.Granted? <==> FreeIn(m, 0, m.bits)) && (!o.Granted? ==> o == NoBitAvailable)
  {
    hide WellFormed, Conserved, Taken, SetAnyIn;
    NoneLeftIff(m);
    if m.unselected != 0 {
      SetAnyInSpec(m, 0, m.bits - 1, serial);
    }
  }

  /** A request for a bit of a range is refused for a bad range, and else granted exactly when one of it is free. */
  lemma SetAnyInRangeIff(m: Mask, start: nat, end: nat, serial: bool)
    requires WellFormed(m) && Conserved(m)
    ensures
      var o := SetAnyInRange(m, start, end, serial).1;
      if start <= end < m.bits then
        (o.Granted? <==> FreeIn(m, start, end + 1)) && (!o.Granted? ==> o == NoBitAvailable)
      else o == BadRequest
  {
    hide WellFormed, Conserved, Taken, SetAnyIn;
    if start <= end < m.bits {
      NoneLeftIff(m);
      SetAnyInSpec(m, start, end, serial);
    }
  }

  // ----- whole runs -----------------------------------------------------------

  datatype Op =
    | OpSet(i: nat)
    | OpSetAny(serial: bool)
    | OpSetAnyInRange(start: nat, end: nat, serial: bool)
    | OpUnset(i: nat)

  ghost function Apply(m: Mask, op: Op): (r: (Mask, Outcome)) {
    match op
    case OpSet(i) => SetBit(m, i)
    case OpSetAny(serial) => SetAny(m, serial)
    case OpSetAnyInRange(start, end, serial) => SetAnyInRange(m, start, end, serial)
    case OpUnset(i) => Unset(m, i)
  }

  /** A release names a taken bit, or one outside the mask that is refused anyway. */
  ghost predicate Matched(m: Mask, op: Op) {
    op.OpUnset? && op.i < m.bits ==> Taken(m, op.i)
  }

  /** What any call does: it fails and changes nothing, grants a free bit, or keeps the form. */
  ghost predicate CallSpec(m: Mask, op: Op, m': Mask, o: Outcome) {
    && WellFormed(m')
    && (Conserved(m') <==> Matched(m, op))
    && (!o.Granted? && !o.Done? ==> m' == m)
    && (o.Granted? ==> !Taken(m, o.ordinal))
  }

  lemma SetAnySpec(m: Mask, serial: bool)
    requires WellFormed(m) && Conserved(m)
    ensures CallSpec(m, OpSetAny(serial), SetAny(m, serial).0, SetAny(m, serial).1)
  {
    hide SetAnyIn, Flat;
    if m.unselected != 0 {
      SetAnyInSpec(m, 0, m.bits - 1, serial);
    }
  }

  lemma SetAnyInRangeSpec(m: Mask, start: nat, end: nat, serial: bool)
    requires WellFormed(m) && Conserved(m)
    ensures CallSpec(m, OpSetAnyInRange(start, end, serial),
                     SetAnyInRange(m, start, end, serial).0, SetAnyInRange(m, start, end, serial).1)
  {
    hide SetAnyIn, Flat;
    if start <= end < m.bits {
      SetAnyInSpec(m, start, end, serial);
    }
  }

  /** One call keeps the count right if and only if it does not release a clear bit. */
  lemma ApplySpec(m: Mask, op: Op)
    requires WellFormed(m) && Conserved(m)
    ensures CallSpec(m, op, Apply(m, op).0, Apply(m, op).1)
  {
    match op
    case OpSet(i) => SetBitSpec(m, i);
    case OpUnset(i) => UnsetSpec(m, i);
    case OpSetAny(serial) => SetAnySpec(m, serial);
    case OpSetAnyInRange(start, end, serial) => SetAnyInRangeSpec(m, start, end, serial);
  }

  ghost function AfterRun(m: Mask, ops: seq<Op>): (r: Mask)
    decreases |ops|
  {
    if ops == [] then m else AfterRun(Apply(m, ops[0]).0, ops[1..])
  }

  ghost predicate AllMatched(m: Mask, ops: seq<Op>)
    decreases |ops|
  {
    ops == [] || (Matched(m, ops[0]) && AllMatched(Apply(m, ops[0]).0, ops[1..]))
  }

  /** Over every run in which only taken bits are released, the unselected count is exact. */
  lemma {:induction false} RunConserves(m: Mask, ops: seq<Op>)
    requires WellFormed(m) && Conserved(m) && AllMatched(m, ops)
    ensures WellFormed(AfterRun(m, ops)) && Conserved(AfterRun(m, ops))
    decreases |ops|
  {
    if ops != [] {
      ApplySpec(m, ops[0]);
      RunConserves(Apply(m, ops[0]).0, ops[1..]);
    }
  }

  lemma RunFromFresh(bits: nat, ops: seq<Op>)
    requires bits < U64_LIMIT && AllMatched(Fresh(bits), ops)
    ensures WellFormed(AfterRun(Fresh(bits), ops)) && Conserved(AfterRun(Fresh(bits), ops))
  {
    FreshSpec(bits);
    RunConserves(Fresh(bits), ops);
  }

  // ----- the object -----------------------------------------------------------

  class Handle {
    var bits: u64
    var unselected: u64
    var head: Sequence
    var curr: u64
    ghost var runs: seq<Run>
    ghost var nodes: set<Sequence>

    ghost function Value(): (m: Mask)
      reads this
    {
      Mask(bits, unselected, runs, curr)
    }

    ghost predicate Valid()
      reads this, nodes
    {
      WellFormed(Value()) && IsList(head, runs, nodes)
    }

    constructor (numElements: u64)
      ensures Valid() && fresh(nodes) && Value() == Fresh(numElements)
    {
      var n := GetNumBlocks(numElements);
      var s := new Sequence(0, n, null);
      bits, unselected, head, curr := numElements, numElements, s, 0;
      runs, nodes := [Run(0, n)], {s};
      new;
      SingleNode(s, null);
      FreshSpec(numElements);
    }

    /** Edits a private copy of the list and installs it, with the new serial position. */
    method Install(bytePos: u64, bitPos: u64, release: bool, next: u64)
      requires Valid() && bits > 0 && bitPos < 8
      modifies this
      ensures Valid() && fresh(nodes - old(nodes))
      ensures Value() == Pushed(old(Value()), 8 * bytePos + bitPos, release).(curr := next)
    {
      hide PushBit;
      WellFormedSize(Value());
      PushedForm(Value(), 8 * bytePos + bitPos, release);
      var copy, copied := GetCopy(head, runs, nodes);
      head, nodes := PushReservation(bytePos, bitPos, copy, release, runs, copied);
      runs := PushBit(runs, 8 * bytePos + bitPos, release);
      unselected := NextCount(unselected, release);
      curr := next;
    }

    /** Chooses the position a call is about, or the reason why there is none. */
    method Pick(ordinal: u64, start: u64, end: u64, any: bool, release: bool, serial: bool)
      returns (o: Outcome, bytePos: u64, bitPos: u64)
      requires Valid()
      requires if any then !release && end < bits else ordinal < bits
      ensures o.Granted? || o.Done? ==> bitPos < 8
      ensures !any ==> o == (if !release && Taken(Value(), ordinal) then BitAllocated else Done)
      ensures o.Done? ==> 8 * bytePos + bitPos == ordinal
      ensures any ==> var r := AvailableFrom(Flat(runs), start, if serial then curr else 0, end);
                      if r.None? then o == NoBitAvailable
                      else r.value <= end && 8 * bytePos + bitPos == r.value && o == Granted(r.value)
    {
      WellFormedSize(Value());
      var found;
      o := Done;
      if release {
        bytePos, bitPos := OrdinalToPos(ordinal);
      } else if any {
        var from := if serial then curr else 0;
        found, bytePos, bitPos := GetAvailableFromCurrent(head, start, from, end, runs, nodes);
        AvailableFromRange(Flat(runs), start, from, end);
        o := if found then Granted(PosToOrdinal(bytePos, bitPos)) else NoBitAvailable;
      } else {
        found, bytePos, bitPos := CheckIfAvailable(head, ordinal, runs, nodes);
        o := if found then Done else BitAllocated;
      }
    }

    /** The shared body of all calls: pick a position, then install the change. */
    method Update(ordinal: u64, start: u64, end: u64, any: bool, release: bool, serial: bool) returns (o: Outcome)
      requires Valid()
      requires if any then !release && end < bits else ordinal < bits
      modifies this
      ensures Valid() && fresh(nodes - old(nodes))
      ensures release ==> o == Done && Value() == Pushed(old(Value()), ordinal, true)
      ensures !release && any ==> (Value(), o) == SetAnyIn(old(Value()), start, end, serial)
      ensures !release && !any ==> (Value(), o) == SetBit(old(Value()), ordinal)
    {
      hide PushBit, AvailableFrom;
      WellFormedSize(Value());
      var bytePos, bitPos;
      o, bytePos, bitPos := Pick(ordinal, start, end, any, release, serial);
      if !o.Granted? && !o.Done? {
        return;
      }
      Install(bytePos, bitPos, release, if o.Granted? then o.ordinal + 1 else curr);
    }

    /** Takes the first free bit of the range. */
    method SetAnyBitInRange(start: u64, end: u64, serial: bool) returns (o: Outcome)
      requires Valid()
      modifies this
      ensures Valid() && fresh(nodes - old(nodes))
      ensures (Value(), o) == SetAnyInRange(old(Value()), start, end, serial)
    {
      hide SetAnyIn, Pushed, SetBit, Flat, Total;
      if end < start || end >= bits {
        return BadRequest;
      }
      if unselected == 0 {
        return NoBitAvailable;
      }
      o := Update(0, start, end, true, false, serial);
    }

    method SetAnyBit(serial: bool) returns (o: Outcome)
      requires Valid()
      modifies this
      ensures Valid() && fresh(nodes - old(nodes))
      ensures (Value(), o) == SetAny(old(Value()), serial)
    {
      hide SetAnyIn, Pushed, SetBit, Flat, Total;
      if unselected == 0 {
        return NoBitAvailable;
      }
      o := Update(0, 0, bits - 1, true, false, serial);
    }

    method SetOne(ordinal: u64) returns (o: Outcome)
      requires Valid()
      modifies this
      ensures Valid() && fresh(nodes - old(nodes))
      ensures (Value(), o) == SetBit(old(Value()), ordinal)
    {
      if ordinal >= bits {
        return BadRequest;
      }
      o := Update(ordinal, 0, 0, false, false, false);
    }

    method UnsetOne(ordinal: u64) returns (o: Outcome)
      requires Valid()
      modifies this
      ensures Valid() && fresh(nodes - old(nodes))
      ensures (Value(), o) == Unset(old(Value()), ordinal)
    {
      if ordinal >= bits {
        return BadRequest;
      }
      o := Update(ordinal, 0, 0, false, true, false);
    }

    method IsSet(ordinal: u64) returns (r: bool)
      requires Valid()
      ensures r <==> Taken(Value(), ordinal)
    {
      WellFormedSize(Value());
      if ordinal >= bits {
        return false;
      }
      var found, bytePos, bitPos := CheckIfAvailable(head, ordinal, runs, nodes);
      return !found;
    }
  }
}
