/** Searching the run-length encoded list for a clear bit, without decoding it. */
module Search {
  import opened Blocks
  import opened Bitmaps
  import opened Runs
  import opened Sequences

  /** A list whose runs are all non-empty, or the list of a handle with no bits at all. */
  ghost predicate Searchable(rs: seq<Run>) {
    Total(rs) <= MAX_BLOCKS && (Positive(rs) || Total(rs) == 0)
  }

  /** Bits `from` up to `to` of the block are all set. */
  ghost predicate SetBetween(b: Block, from: nat, to: nat)
    requires to <= 32
  {
    forall i | from <= i < to :: Bit(b, i)
  }

  /** Bit `i` is the first clear bit of the block at or after `from`. */
  ghost predicate FirstIn(b: Block, from: nat, i: nat) {
    from <= i < 32 && !Bit(b, i) && SetBetween(b, from, i)
  }

  // ----- what the runs say about the flat bitmap ------------------------------

  lemma RunBlock(rs: seq<Run>, k: nat, q: nat)
    requires k < |rs| && q < rs[k].count
    ensures |Flat(rs)| == Total(rs) && Total(rs[..k]) + q < Total(rs)
    ensures Flat(rs)[Total(rs[..k]) + q] == rs[k].block
  {
    LocateUnique(rs, Total(rs[..k]) + q, k, q);
    LocateBlock(rs, Total(rs[..k]) + q);
  }

  /** The search may step over the set bits `from..to` of block `n`. */
  lemma SkipInBlock(bs: seq<Block>, n: nat, from: nat, to: nat)
    requires n < |bs| && from <= to <= 32
    requires SetBetween(bs[n], from, to)
    ensures FirstClear(bs, 32 * n + from) == FirstClear(bs, 32 * n + to)
  {
    forall j | 32 * n + from <= j < 32 * n + to
      ensures j < 32 * |bs| && BitAt(bs, j)
    {
      BlockBitAt(bs, n, j - 32 * n);
      assert Bit(bs[n], j - 32 * n);
    }
    FirstClearSkip(bs, 32 * n + from, 32 * n + to);
  }

  lemma FullBlockBit(bs: seq<Block>, j: nat)
    requires j < 32 * |bs| && bs[j / 32] == BLOCK_MAX
    ensures BitAt(bs, j)
  {
    FullBlock(bs[j / 32]);
  }

  /** The search may step over a stretch of full blocks. */
  lemma SkipFullBlocks(bs: seq<Block>, n: nat, from: nat, m: nat)
    requires n < m <= |bs| && from <= 32
    requires forall i | n <= i < m :: bs[i] == BLOCK_MAX
    ensures FirstClear(bs, 32 * n + from) == FirstClear(bs, 32 * m)
  {
    forall j | 32 * n + from <= j < 32 * m
      ensures BitAt(bs, j)
    {
      assert n <= j / 32 < m;
      FullBlockBit(bs, j);
    }
    FirstClearSkip(bs, 32 * n + from, 32 * m);
  }

  lemma RunBlocks(rs: seq<Run>, k: nat, q: nat)
    requires k < |rs| && q <= rs[k].count
    ensures |Flat(rs)| == Total(rs) && Total(rs[..k]) + rs[k].count <= Total(rs)
    ensures forall i | Total(rs[..k]) + q <= i < Total(rs[..k]) + rs[k].count :: Flat(rs)[i] == rs[k].block
  {
    TotalPrefix(rs, k);
    FlatLength(rs);
    forall i | Total(rs[..k]) + q <= i < Total(rs[..k]) + rs[k].count
      ensures Flat(rs)[i] == rs[k].block
    {
      RunBlock(rs, k, i - Total(rs[..k]));
    }
  }

  lemma SkipFullRun(rs: seq<Run>, k: nat, q: nat, from: nat, bs: seq<Block>, n: nat, m: nat)
    requires k < |rs| && q < rs[k].count && from <= 32 && rs[k].block == BLOCK_MAX
    requires bs == Flat(rs) && n == Total(rs[..k]) + q && m == Total(rs[..k]) + rs[k].count
    ensures FirstClear(bs, 32 * n + from) == FirstClear(bs, 32 * m)
  {
    assert m <= |bs| && forall i | n <= i < m :: bs[i] == BLOCK_MAX by { RunBlocks(rs, k, q); }
    SkipFullBlocks(bs, n, from, m);
  }

  lemma AllSetIsFull(b: Block)
    requires SetBetween(b, 0, 32)
    ensures b == BLOCK_MAX
  {
    FullBlock(b);
    forall i | 0 <= i < 32
      ensures Bits(b)[i]
    {
      assert Bit(b, i);
    }
    assert Bits(b) == seq(32, _ => true);
  }

  lemma FoundInNext(bs: seq<Block>, n: nat, from: nat, i: nat)
    requires n + 1 < |bs| && from <= 32 && SetBetween(bs[n], from, 32) && FirstIn(bs[n + 1], 0, i)
    ensures FirstClear(bs, 32 * n + from) == Some(32 * (n + 1) + i)
  {
    SkipInBlock(bs, n, from, 32);
    FoundInBlock(bs, n + 1, 0, i);
  }

  lemma FoundInBlock(bs: seq<Block>, n: nat, from: nat, i: nat)
    requires n < |bs| && FirstIn(bs[n], from, i)
    ensures FirstClear(bs, 32 * n + from) == Some(32 * n + i)
  {
    SkipInBlock(bs, n, from, i);
    BlockBitAt(bs, n, i);
    FirstClearIs(bs, 32 * n + i, 32 * n + i);
  }

  // ----- the search -----------------------------------------------------------

  /** The first clear bit of the block of `s` at or after `from`. */
  method GetAvailableBit(s: Sequence, from: u64) returns (found: bool, bytePos: u64, bitPos: u64)
    requires from < 32
    ensures found ==> bitPos < 8 && FirstIn(s.block, from, 8 * bytePos + bitPos)
    ensures !found && s.count != 0 ==> SetBetween(s.block, from, 32)
  {
    if s.block == BLOCK_MAX || s.count == 0 {
      FullBlock(s.block);
      return false, INVALID_POS, INVALID_POS;
    }
    var bits: u64 := from;
    while bits < 32 && Bit(s.block, bits)
      invariant from <= bits <= 32
      invariant SetBetween(s.block, from, bits)
    {
      bits := bits + 1;
    }
    if bits == 32 {
      return false, INVALID_POS, INVALID_POS;
    }
    return true, bits / 8, bits % 8;
  }

  /** Finds the least clear bit at or after `start`. */
  method GetFirstAvailable(head: Sequence, start: u64, ghost rs: seq<Run>, ghost nodes: set<Sequence>)
    returns (found: bool, bytePos: u64, bitPos: u64)
    requires IsList(head, rs, nodes) && Searchable(rs)
    ensures found <==> FirstClear(Flat(rs), start).Some?
    ensures found ==> bitPos < 8 && FirstClear(Flat(rs), start) == Some(8 * bytePos + bitPos)
  {
    hide Flat, Total, Locate;
    FlatLength(rs);
    var byteStart, bitStart := OrdinalToPos(start);
    var current: Sequence?, previous: Sequence?, precBlocks: u64, inBlockBytePos: u64, k: nat, before, after :=
      FindSequence(head, byteStart, rs, nodes);
    if current == null {
      // Beyond the list the source derives two offsets that wrap; they are never read.
      return false, INVALID_POS, INVALID_POS;
    }
    LocatePosition(rs, byteStart / 4);
    assert 8 * (byteStart - inBlockBytePos) + (inBlockBytePos * 8 + bitStart) == start;
    found, bytePos, bitPos := SearchFrom(current, precBlocks, byteStart - inBlockBytePos,
                                         inBlockBytePos * 8 + bitStart, k, rs, after);
  }

  lemma BeyondLast(rs: seq<Run>, k: nat, m: nat)
    requires k < |rs| && m == Total(rs[..k]) + rs[k].count
    ensures m == Total(rs[..k + 1]) <= Total(rs) == |Flat(rs)|
    ensures k + 1 == |rs| ==> FirstClear(Flat(rs), 32 * m) == None
  {
    TotalPrefix(rs, k);
    FlatLength(rs);
    if k + 1 == |rs| {
      assert rs[..k + 1] == rs;
    }
  }

  /** The outer loop: run by run until a clear bit turns up. */
  method SearchFrom(first: Sequence, prec: u64, offset: u64, bit: u64, ghost at: nat, ghost rs: seq<Run>,
                    ghost nodes: set<Sequence>)
    returns (found: bool, bytePos: u64, bitPos: u64)
    requires at < |rs| && IsList(first, rs[at..], nodes) && Searchable(rs)
    requires prec < rs[at].count && bit < 32 && offset == 4 * (Total(rs[..at]) + prec)
    ensures var r := FirstClear(Flat(rs), 8 * offset + bit);
            (found <==> r.Some?) && (found ==> bitPos < 8 && r == Some(8 * bytePos + bitPos))
  {
    hide FirstClear, Flat, Total;
    ghost var bs := Flat(rs);
    ghost var n := Total(rs[..at]) + prec;
    ghost var result := FirstClear(bs, 32 * n + bit);
    var current: Sequence? := first;
    var precBlocks, byteOffset, bitOffset := prec, offset, bit;
    ghost var k, after := at, nodes;
    while current != null
      invariant k <= |rs| && IsList(current, rs[k..], after)
      invariant 0 <= bitOffset < 32 && 0 <= precBlocks && n == Total(rs[..k]) + precBlocks && byteOffset == 4 * n
      invariant k < |rs| ==> precBlocks < rs[k].count
      invariant result == if k < |rs| then FirstClear(bs, 32 * n + bitOffset) else None
      decreases |rs| - k
    {
      assert rs[k..][0] == rs[k] && rs[k..][1..] == rs[k + 1..];
      ghost var m := Total(rs[..k]) + rs[k].count;
      BeyondLast(rs, k, m);
      if current.block != BLOCK_MAX {
        found, bytePos, bitPos, precBlocks, byteOffset :=
          SearchRun(current, precBlocks, byteOffset, bitOffset, k, rs, n);
        if found {
          return true, byteOffset + bytePos, bitPos;
        }
      } else {
        SkipFullRun(rs, k, precBlocks, bitOffset, bs, n, m);
      }
      // Moving to next block: reset bit offset.
      bitOffset := 0;
      byteOffset := byteOffset + (current.count * 4 - precBlocks * 4);
      precBlocks := 0;
      after := after - {current};
      current := current.next;
      k, n := k + 1, m;
    }
    return false, INVALID_POS, INVALID_POS;
  }

  /**
   Searches the blocks of one run: the block it starts in, then the next instance
   of the same block if there is one. On failure every remaining bit of the run is
   set.
   */
  method SearchRun(current: Sequence, prec: u64, offset: u64, bit: u64, ghost k: nat, ghost rs: seq<Run>, ghost n: nat)
    returns (found: bool, bytePos: u64, bitPos: u64, precBlocks: u64, byteOffset: u64)
    requires k < |rs| && current.block == rs[k].block && current.count == rs[k].count && Total(rs) <= MAX_BLOCKS
    requires current.block != BLOCK_MAX && prec < rs[k].count && bit < 32
    requires n == Total(rs[..k]) + prec && offset == 4 * n
    ensures precBlocks < rs[k].count && byteOffset == 4 * (Total(rs[..k]) + precBlocks)
    ensures found ==> bytePos < 4 && bitPos < 8
                      && FirstClear(Flat(rs), 32 * n + bit) == Some(8 * (byteOffset + bytePos) + bitPos)
    ensures !found ==> FirstClear(Flat(rs), 32 * n + bit) == FirstClear(Flat(rs), 32 * (Total(rs[..k]) + rs[k].count))
  {
    hide FirstClear, Flat, Total;
    precBlocks, byteOffset := prec, offset;
    var bitOffset := bit;
    TotalPrefix(rs, k);
    found, bytePos, bitPos := GetAvailableBit(current, bitOffset);
    while !found && precBlocks != current.count - 1
      invariant precBlocks < rs[k].count && byteOffset == 4 * (Total(rs[..k]) + precBlocks)
      invariant if precBlocks == prec then bitOffset == bit else
                  precBlocks == prec + 1 && found && bitOffset == 0 && SetBetween(rs[k].block, bit, 32)
      invariant found ==> bitPos < 8 && FirstIn(rs[k].block, bitOffset, 8 * bytePos + bitPos)
      invariant !found ==> SetBetween(rs[k].block, bitOffset, 32)
      decreases current.count - precBlocks
    {
      bitOffset := 0;
      byteOffset := byteOffset + 4;
      precBlocks := precBlocks + 1;
      found, bytePos, bitPos := GetAvailableBit(current, bitOffset);
      if !found {
        AllSetIsFull(rs[k].block);
        assert false;
      }
    }
    RunSearched(rs, k, Flat(rs), n, bit, precBlocks - prec, if found then 8 * bytePos + bitPos else 32);
  }

  lemma BlocksSearched(bs: seq<Block>, n: nat, bit: nat, step: nat, i: nat)
    requires n + step < |bs| && bit < 32 && i <= 32 && step <= 1
    requires step == 1 || i == 32 ==> SetBetween(bs[n], bit, 32)
    requires i < 32 ==> FirstIn(bs[n + step], if step == 0 then bit else 0, i)
    requires i == 32 ==> step == 0
    ensures FirstClear(bs, 32 * n + bit) == if i < 32 then Some(32 * (n + step) + i) else FirstClear(bs, 32 * (n + 1))
  {
    if i == 32 {
      SkipInBlock(bs, n, bit, 32);
    } else if step == 0 {
      FoundInBlock(bs, n, bit, i);
    } else {
      FoundInNext(bs, n, bit, i);
    }
  }

  /** What looking through a run tells about the whole bitmap. */
  lemma RunSearched(rs: seq<Run>, k: nat, bs: seq<Block>, n: nat, bit: nat, step: nat, i: nat)
    requires k < |rs| && bs == Flat(rs) && bit < 32 && i <= 32 && step <= 1
    requires Total(rs[..k]) <= n && n + step < Total(rs[..k]) + rs[k].count
    requires step == 1 ==> SetBetween(rs[k].block, bit, 32)
    requires if i < 32 then FirstIn(rs[k].block, if step == 0 then bit else 0, i) else
               step == 0 && n + 1 == Total(rs[..k]) + rs[k].count && SetBetween(rs[k].block, bit, 32)
    ensures FirstClear(bs, 32 * n + bit) == if i < 32 then Some(32 * (n + step) + i) else FirstClear(bs, 32 * (n + 1))
  {
    RunBlock(rs, k, n - Total(rs[..k]));
    RunBlock(rs, k, n + step - Total(rs[..k]));
    BlocksSearched(bs, n, bit, step, i);
  }

  // ----- choosing a bit for a request -----------------------------------------

  ghost function Within(r: Option<nat>, end: nat): (q: Option<nat>) {
    if r.Some? && r.value <= end then r else None
  }

  /** From `curr` up to `end` if `curr` is past `start`, else, or if that fails, from `start`. */
  ghost function AvailableFrom(bs: seq<Block>, start: nat, curr: nat, end: nat): (r: Option<nat>)
  {
    var ahead := if curr > start then Within(FirstClear(bs, curr), end) else None;
    if ahead.Some? then ahead else Within(FirstClear(bs, start), end)
  }

  /** The serial search never leaves the range and fails only when the whole range is taken. */
  lemma AvailableFromRange(bs: seq<Block>, start: nat, curr: nat, end: nat)
    requires end < 32 * |bs|
    ensures var r := AvailableFrom(bs, start, curr, end);
            if r.Some? then start <= r.value <= end && !BitAt(bs, r.value)
            else forall j | start <= j <= end :: BitAt(bs, j)
  {
    FirstClearLeast(bs, start);
    FirstClearLeast(bs, curr);
  }

  /** It prefers the first clear bit from `curr` on, and falls back to the first from `start`. */
  lemma AvailableFromOrder(bs: seq<Block>, start: nat, curr: nat, end: nat)
    requires end < 32 * |bs|
    requires AvailableFrom(bs, start, curr, end).Some?
    ensures var i := AvailableFrom(bs, start, curr, end).value;
            IsFirstClear(bs, if curr > start && curr <= i then curr else start, i)
    ensures var i := AvailableFrom(bs, start, curr, end).value;
            curr > i ==> forall j | curr <= j <= end :: BitAt(bs, j)
  {
    FirstClearLeast(bs, start);
    FirstClearLeast(bs, curr);
  }

  method GetAvailableFromCurrent(head: Sequence, start: u64, curr: u64, end: u64,
                                 ghost rs: seq<Run>, ghost nodes: set<Sequence>)
    returns (found: bool, bytePos: u64, bitPos: u64)
    requires IsList(head, rs, nodes) && Searchable(rs)
    ensures found <==> AvailableFrom(Flat(rs), start, curr, end).Some?
    ensures found ==> bitPos < 8 && AvailableFrom(Flat(rs), start, curr, end) == Some(8 * bytePos + bitPos)
  {
    if curr != 0 && curr > start {
      found, bytePos, bitPos := GetFirstAvailable(head, curr, rs, nodes);
      if found { FirstClearBound(rs, curr); }
      var ret := PosToOrdinal(bytePos, bitPos);
      if !(end < ret || !found) {
        return true, bytePos, bitPos;
      }
    }
    found, bytePos, bitPos := GetFirstAvailable(head, start, rs, nodes);
    if found { FirstClearBound(rs, start); }
    var ret := PosToOrdinal(bytePos, bitPos);
    if end < ret || !found {
      return false, INVALID_POS, INVALID_POS;
    }
  }

  lemma FirstClearBound(rs: seq<Run>, from: nat)
    requires FirstClear(Flat(rs), from).Some? && Total(rs) <= MAX_BLOCKS
    ensures FirstClear(Flat(rs), from).value < U64_LIMIT
  {
    FirstClearLeast(Flat(rs), from);
    FlatLength(rs);
  }

  /** Whether the ordinal lies inside the list and its bit is clear. */
  method CheckIfAvailable(head: Sequence, ordinal: u64, ghost rs: seq<Run>, ghost nodes: set<Sequence>)
    returns (found: bool, bytePos: u64, bitPos: u64)
    requires IsList(head, rs, nodes) && Total(rs) <= MAX_BLOCKS
    ensures |Flat(rs)| == Total(rs)
    ensures found <==> ordinal < 32 * Total(rs) && !BitAt(Flat(rs), ordinal)
    ensures found ==> bitPos < 8 && 8 * bytePos + bitPos == ordinal
  {
    FlatLength(rs);
    bytePos, bitPos := OrdinalToPos(ordinal);
    PositionOfBit(bytePos, bitPos);
    var current, previous, precBlocks, inBlockBytePos, at, before, after := FindSequence(head, bytePos, rs, nodes);
    if current != null {
      LocateBlock(rs, ordinal / 32);
      assert rs[at..][0] == rs[at];
      if !Bit(current.block, inBlockBytePos * 8 + bitPos) {
        return true, bytePos, bitPos;
      }
    }
    return false, INVALID_POS, INVALID_POS;
  }
}
