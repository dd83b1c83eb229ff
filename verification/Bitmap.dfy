/** A flat bitmap: a vector of blocks seen as one long row of bits. */
module Bitmaps {
  import opened Blocks

  datatype Option<+T> = None | Some(value: T)

  const I32_LIMIT: int := 0x8000_0000
  const U32_LIMIT: nat := 0x1_0000_0000
  const U64_LIMIT: nat := 0x1_0000_0000_0000_0000

  /** Values the source keeps in a uint64. Assigning to one is a proof that nothing wrapped. */
  type u64 = n: nat | n < U64_LIMIT

  /** Bit `i` of the row. */
  predicate BitAt(bs: seq<Block>, i: nat)
    requires i < 32 * |bs|
  {
    Bit(bs[i / 32], i % 32)
  }

  ghost predicate SameBits(a: seq<Block>, b: seq<Block>) {
    |a| == |b| && forall i: nat | i < 32 * |a| :: BitAt(a, i) == BitAt(b, i)
  }

  lemma BlockBitAt(bs: seq<Block>, k: nat, i: nat)
    requires k < |bs| && i < 32
    ensures 32 * k + i < 32 * |bs| && BitAt(bs, 32 * k + i) == Bit(bs[k], i)
  {
    assert (32 * k + i) / 32 == k && (32 * k + i) % 32 == i;
  }

  lemma SameBitsSameBlocks(a: seq<Block>, b: seq<Block>)
    requires SameBits(a, b)
    ensures a == b
  {
    forall k | 0 <= k < |a|
      ensures a[k] == b[k]
    {
      forall i | 0 <= i < 32
        ensures Bits(a[k])[i] == Bits(b[k])[i]
      {
        BlockBitAt(a, k, i);
        BlockBitAt(b, k, i);
      }
      assert Bits(a[k]) == Bits(b[k]);
      BlockExtensional(a[k], b[k]);
    }
  }

  // ----- changing one bit -----------------------------------------------------

  function SetAt(bs: seq<Block>, i: nat, release: bool): (r: seq<Block>)
    requires i < 32 * |bs|
    ensures |r| == |bs|
  {
    bs[i / 32 := WithBit(bs[i / 32], i % 32, release)]
  }

  /** `SetAt` changes bit `i` and no other. */
  lemma SetAtBits(bs: seq<Block>, i: nat, release: bool, j: nat)
    requires i < 32 * |bs| && j < 32 * |bs|
    ensures BitAt(SetAt(bs, i, release), j) == if j == i then !release else BitAt(bs, j)
  {
    WithBitBits(bs[i / 32], i % 32, release);
  }

  // ----- searching ------------------------------------------------------------

  ghost predicate IsFirstClear(bs: seq<Block>, from: nat, i: nat) {
    from <= i < 32 * |bs| && !BitAt(bs, i) && forall j | from <= j < i :: BitAt(bs, j)
  }

  /** The least clear bit at or after `from`, if there is one. */
  ghost function FirstClear(bs: seq<Block>, from: nat): (r: Option<nat>)
  {
    if exists i :: IsFirstClear(bs, from, i) then
      var i :| IsFirstClear(bs, from, i);
      Some(i)
    else None
  }

  lemma {:induction false} AllSetOrFirst(bs: seq<Block>, from: nat)
    ensures (exists i :: IsFirstClear(bs, from, i)) || forall j | from <= j < 32 * |bs| :: BitAt(bs, j)
    decreases 32 * |bs| - from
  {
    if from < 32 * |bs| {
      if BitAt(bs, from) {
        var next := from + 1;
        AllSetOrFirst(bs, next);
        if i :| IsFirstClear(bs, next, i) {
          assert IsFirstClear(bs, from, i);
        }
      } else {
        assert IsFirstClear(bs, from, from);
      }
    }
  }

  /** `FirstClear` fails only when every bit from `from` on is set. */
  lemma FirstClearLeast(bs: seq<Block>, from: nat)
    ensures var r := FirstClear(bs, from);
            if r.Some? then IsFirstClear(bs, from, r.value)
            else forall j | from <= j < 32 * |bs| :: BitAt(bs, j)
  {
    AllSetOrFirst(bs, from);
  }

  lemma FirstClearIs(bs: seq<Block>, from: nat, i: nat)
    requires IsFirstClear(bs, from, i)
    ensures FirstClear(bs, from) == Some(i)
  {
    FirstClearLeast(bs, from);
  }

  /** Skipping a stretch of set bits does not change the result of the search. */
  lemma FirstClearSkip(bs: seq<Block>, from: nat, to: nat)
    requires from <= to
    requires forall j | from <= j < to && j < 32 * |bs| :: BitAt(bs, j)
    ensures FirstClear(bs, from) == FirstClear(bs, to)
  {
    FirstClearLeast(bs, from);
    FirstClearLeast(bs, to);
  }

  // ----- counting -------------------------------------------------------------

  /** How many of the first `n` bits are clear. */
  function ClearCount(bs: seq<Block>, n: nat): (c: nat)
    requires n <= 32 * |bs|
    ensures c <= n
  {
    if n == 0 then 0 else ClearCount(bs, n - 1) + if BitAt(bs, n - 1) then 0 else 1
  }

  lemma {:induction false} ClearCountSetAt(bs: seq<Block>, i: nat, release: bool, n: nat)
    requires i < 32 * |bs| && n <= 32 * |bs|
    ensures ClearCount(SetAt(bs, i, release), n) ==
            ClearCount(bs, n) + if i < n && BitAt(bs, i) == release then (if release then 1 else -1) else 0
  {
    if n > 0 {
      ClearCountSetAt(bs, i, release, n - 1);
      SetAtBits(bs, i, release, n - 1);
    }
  }

  lemma {:induction false} ClearCountZero(bs: seq<Block>, n: nat)
    requires n <= 32 * |bs|
    ensures ClearCount(bs, n) == 0 <==> forall j | 0 <= j < n :: BitAt(bs, j)
  {
    if n > 0 {
      ClearCountZero(bs, n - 1);
    }
  }

  lemma {:induction false} ClearCountAll(bs: seq<Block>, n: nat)
    requires n <= 32 * |bs|
    requires forall j | 0 <= j < n :: !BitAt(bs, j)
    ensures ClearCount(bs, n) == n
  {
    if n > 0 {
      ClearCountAll(bs, n - 1);
    }
  }
}
