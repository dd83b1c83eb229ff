/**
 The run-length encoded bitmap as a value: a sequence of runs, each a block and
 the number of times it repeats. `Flat` is the bit vector it stands for.
 */
module Runs {
  import opened Blocks
  import opened Bitmaps

  datatype Run = Run(block: Block, count: nat)

  function Repeat(b: Block, n: nat): (bs: seq<Block>)
    ensures |bs| == n && forall i :: 0 <= i < n ==> bs[i] == b
  {
    seq(n, _ => b)
  }

  function Flat(rs: seq<Run>): (bs: seq<Block>)
  {
    if rs == [] then [] else Repeat(rs[0].block, rs[0].count) + Flat(rs[1..])
  }

  function Total(rs: seq<Run>): (n: nat)
  {
    if rs == [] then 0 else rs[0].count + Total(rs[1..])
  }

  ghost predicate Positive(rs: seq<Run>) {
    forall i :: 0 <= i < |rs| ==> rs[i].count > 0
  }

  ghost predicate NoEqualNeighbours(rs: seq<Run>) {
    forall i :: 0 <= i < |rs| - 1 ==> rs[i].block != rs[i + 1].block
  }

  /** The form every reachable list is in: no empty run, no two equal neighbours. */
  ghost predicate Canonical(rs: seq<Run>) {
    Positive(rs) && NoEqualNeighbours(rs)
  }

  lemma FlatLength(rs: seq<Run>)
    ensures |Flat(rs)| == Total(rs)
  {
  }

  lemma {:induction false} FlatConcat(a: seq<Run>, b: seq<Run>)
    ensures Flat(a + b) == Flat(a) + Flat(b)
    ensures Total(a + b) == Total(a) + Total(b)
  {
    if a == [] {
      assert a + b == b;
    } else {
      FlatConcat(a[1..], b);
      assert (a + b)[1..] == a[1..] + b;
      hide Repeat;
      Reassociate(Repeat(a[0].block, a[0].count), Flat(a[1..]), Flat(b));
    }
  }

  lemma Reassociate(x: seq<Block>, y: seq<Block>, z: seq<Block>)
    ensures x + (y + z) == x + y + z
  {
  }

  lemma FlatOne(r: Run)
    ensures Flat([r]) == Repeat(r.block, r.count)
    ensures Total([r]) == r.count
  {
    assert [r][1..] == [];
  }

  lemma FlatCons(r: Run, rs: seq<Run>)
    ensures Flat([r] + rs) == Repeat(r.block, r.count) + Flat(rs)
    ensures Total([r] + rs) == r.count + Total(rs)
  {
    assert ([r] + rs)[1..] == rs;
  }

  lemma RepeatConcat(b: Block, m: nat, n: nat)
    ensures Repeat(b, m) + Repeat(b, n) == Repeat(b, m + n)
  {
  }

  // ----- merging neighbours ---------------------------------------------------

  /** Merges equal neighbours from the head of the list to its end. */
  function Merge(rs: seq<Run>): (r: seq<Run>)
    decreases |rs|
  {
    if |rs| < 2 then rs
    else if rs[0].block == rs[1].block then
      Merge([Run(rs[0].block, rs[0].count + rs[1].count)] + rs[2..])
    else [rs[0]] + Merge(rs[1..])
  }

  lemma {:induction false} MergeFlat(rs: seq<Run>)
    ensures Flat(Merge(rs)) == Flat(rs) && Total(Merge(rs)) == Total(rs)
    decreases |rs|
  {
    if |rs| >= 2 {
      if rs[0].block == rs[1].block {
        var r := Run(rs[0].block, rs[0].count + rs[1].count);
        MergeFlat([r] + rs[2..]);
        FlatCons(r, rs[2..]);
        assert rs == [rs[0]] + ([rs[1]] + rs[2..]);
        FlatCons(rs[0], [rs[1]] + rs[2..]);
        FlatCons(rs[1], rs[2..]);
        RepeatConcat(rs[0].block, rs[0].count, rs[1].count);
      } else {
        MergeFlat(rs[1..]);
        FlatCons(rs[0], Merge(rs[1..]));
      }
    }
  }

  lemma {:induction false} MergeCanonical(rs: seq<Run>)
    requires Positive(rs)
    ensures Canonical(Merge(rs))
    ensures rs != [] ==> Merge(rs) != [] && Merge(rs)[0].block == rs[0].block
    decreases |rs|
  {
    if |rs| >= 2 {
      if rs[0].block == rs[1].block {
        MergeCanonical([Run(rs[0].block, rs[0].count + rs[1].count)] + rs[2..]);
      } else {
        MergeCanonical(rs[1..]);
      }
    }
  }

  lemma CanonicalJoin(a: seq<Run>, b: seq<Run>)
    requires Canonical(a) && Canonical(b)
    requires a != [] && b != [] ==> a[|a| - 1].block != b[0].block
    ensures Canonical(a + b)
  {
    var c := a + b;
    forall i | 0 <= i < |c| - 1
      ensures c[i].block != c[i + 1].block
    {
      if i == |a| - 1 {
        assert c[i] == a[|a| - 1] && c[i + 1] == b[0];
      }
    }
  }

  // ----- locating a block -----------------------------------------------------

  datatype Place = Place(index: nat, prec: nat)

  /** The run holding block `p` and the number of blocks before it in that run. */
  function Locate(rs: seq<Run>, p: nat): (l: Place)
    requires p < Total(rs)
    ensures l.index < |rs| && l.prec < rs[l.index].count
  {
    if p < rs[0].count then Place(0, p)
    else
      var l := Locate(rs[1..], p - rs[0].count);
      Place(l.index + 1, l.prec)
  }

  lemma {:induction false} LocatePosition(rs: seq<Run>, p: nat)
    requires p < Total(rs)
    ensures var l := Locate(rs, p); Total(rs[..l.index]) + l.prec == p
  {
    if p < rs[0].count {
      assert rs[..0] == [];
    } else {
      var l := Locate(rs[1..], p - rs[0].count);
      LocatePosition(rs[1..], p - rs[0].count);
      assert rs[..l.index + 1] == [rs[0]] + rs[1..][..l.index];
      FlatCons(rs[0], rs[1..][..l.index]);
    }
  }

  lemma FlatSplit(rs: seq<Run>, i: nat)
    requires i < |rs|
    ensures Flat(rs) == Flat(rs[..i]) + (Repeat(rs[i].block, rs[i].count) + Flat(rs[i + 1..]))
    ensures Total(rs) == Total(rs[..i]) + (rs[i].count + Total(rs[i + 1..]))
  {
    var rest := [rs[i]] + rs[i + 1..];
    FlatConcat(rs[..i], rest);
    FlatCons(rs[i], rs[i + 1..]);
    assert rs == rs[..i] + rest;
  }

  lemma UpdateMiddle(x: seq<Block>, y: seq<Block>, z: seq<Block>, k: nat, v: Block)
    requires k < |y|
    ensures x + (y[k := v] + z) == (x + (y + z))[|x| + k := v]
  {
  }

  lemma LocateBlock(rs: seq<Run>, p: nat)
    requires p < Total(rs)
    ensures |Flat(rs)| == Total(rs)
    ensures Flat(rs)[p] == rs[Locate(rs, p).index].block
  {
    var l := Locate(rs, p);
    LocatePosition(rs, p);
    FlatSplit(rs, l.index);
    FlatLength(rs);
    FlatLength(rs[..l.index]);
  }

  // ----- replacing one block --------------------------------------------------

  /** What replaces the run `cur` when its block number `prec` becomes `b`. */
  function Pieces(cur: Run, prec: nat, b: Block): (r: seq<Run>)
    requires prec < cur.count
  {
    (if prec == 0 then [] else [Run(cur.block, prec)])
    + [Run(b, 1)]
    + (if prec == cur.count - 1 then [] else [Run(cur.block, cur.count - 1 - prec)])
  }

  /**
   The list after block `p` becomes `b`: the run is split in up to three, and
   neighbours are merged from the run before the new one when the new run is the
   first piece, from the shrunken run when it is the last, and not at all between.
   */
  function Push(rs: seq<Run>, p: nat, b: Block): (r: seq<Run>)
    requires p < Total(rs)
  {
    var l := Locate(rs, p);
    var cur := rs[l.index];
    var tail := Pieces(cur, l.prec, b) + rs[l.index + 1..];
    if cur.block == b then rs
    else if l.prec == 0 then
      if l.index == 0 then Merge(tail)
      else rs[..l.index - 1] + Merge([rs[l.index - 1]] + tail)
    else if l.prec == cur.count - 1 then rs[..l.index] + Merge(tail)
    else rs[..l.index] + tail
  }

  lemma PiecesFlat(cur: Run, prec: nat, b: Block)
    requires prec < cur.count
    ensures Flat(Pieces(cur, prec, b)) == Repeat(cur.block, cur.count)[prec := b]
    ensures Total(Pieces(cur, prec, b)) == cur.count
  {
    var front := if prec == 0 then [] else [Run(cur.block, prec)];
    var back := if prec == cur.count - 1 then [] else [Run(cur.block, cur.count - 1 - prec)];
    if prec != 0 { FlatOne(front[0]); }
    if prec != cur.count - 1 { FlatOne(back[0]); }
    FlatOne(Run(b, 1));
    FlatConcat(front, [Run(b, 1)]);
    FlatConcat(front + [Run(b, 1)], back);
    assert Flat(front) == Repeat(cur.block, prec);
    assert Flat(back) == Repeat(cur.block, cur.count - 1 - prec);
  }

  lemma SpliceAt(pre: seq<Run>, cur: Run, post: seq<Run>, prec: nat, b: Block)
    requires prec < cur.count
    ensures |Flat(pre + ([cur] + post))| > Total(pre) + prec
    ensures Flat(pre + (Pieces(cur, prec, b) + post)) == Flat(pre + ([cur] + post))[Total(pre) + prec := b]
  {
    var pieces := Pieces(cur, prec, b);
    FlatConcat(pre, [cur] + post);
    FlatCons(cur, post);
    FlatConcat(pre, pieces + post);
    FlatConcat(pieces, post);
    PiecesFlat(cur, prec, b);
    FlatLength(pre);
    UpdateMiddle(Flat(pre), Repeat(cur.block, cur.count), Flat(post), prec, b);
  }

  /** Replacing the run that holds block `p` by its pieces changes exactly that block. */
  lemma SplicedFlat(rs: seq<Run>, p: nat, b: Block)
    requires p < Total(rs)
    ensures |Flat(rs)| == Total(rs)
    ensures var l := Locate(rs, p);
            Flat(rs[..l.index] + (Pieces(rs[l.index], l.prec, b) + rs[l.index + 1..])) == Flat(rs)[p := b]
  {
    var l := Locate(rs, p);
    LocatePosition(rs, p);
    FlatLength(rs);
    SpliceAt(rs[..l.index], rs[l.index], rs[l.index + 1..], l.prec, b);
    assert rs == rs[..l.index] + ([rs[l.index]] + rs[l.index + 1..]);
  }

  lemma MergeTailFlat(pre: seq<Run>, tail: seq<Run>)
    ensures Flat(pre + Merge(tail)) == Flat(pre + tail)
  {
    MergeFlat(tail);
    FlatConcat(pre, Merge(tail));
    FlatConcat(pre, tail);
  }

  lemma MergeBackFlat(rs: seq<Run>, i: nat, tail: seq<Run>)
    requires 0 < i <= |rs|
    ensures Flat(rs[..i - 1] + Merge([rs[i - 1]] + tail)) == Flat(rs[..i] + tail)
  {
    MergeTailFlat(rs[..i - 1], [rs[i - 1]] + tail);
    assert rs[..i - 1] + ([rs[i - 1]] + tail) == rs[..i] + tail;
  }

  lemma UpdateSame(bs: seq<Block>, p: nat, b: Block)
    requires p < |bs| && bs[p] == b
    ensures bs[p := b] == bs
  {
  }

  /** The fast path refines the flat vector: one block changes and nothing else. */
  lemma PushFlat(rs: seq<Run>, p: nat, b: Block)
    requires p < Total(rs)
    ensures |Flat(rs)| == Total(rs)
    ensures Flat(Push(rs, p, b)) == Flat(rs)[p := b]
  {
    var l := Locate(rs, p);
    var cur := rs[l.index];
    var tail := Pieces(cur, l.prec, b) + rs[l.index + 1..];
    SplicedFlat(rs, p, b);
    if cur.block == b {
      LocateBlock(rs, p);
      UpdateSame(Flat(rs), p, b);
    } else if l.prec == 0 && l.index == 0 {
      MergeFlat(tail);
      assert rs[..0] + tail == tail;
    } else if l.prec == 0 {
      MergeBackFlat(rs, l.index, tail);
    } else if l.prec == cur.count - 1 {
      MergeTailFlat(rs[..l.index], tail);
    }
  }

  lemma PushTotal(rs: seq<Run>, p: nat, b: Block)
    requires p < Total(rs)
    ensures Total(Push(rs, p, b)) == Total(rs)
  {
    PushFlat(rs, p, b);
    FlatLength(rs);
    FlatLength(Push(rs, p, b));
  }

  lemma CanonicalSlices(rs: seq<Run>, i: nat, j: nat)
    requires Canonical(rs) && i <= j <= |rs|
    ensures Canonical(rs[i..j]) && Canonical(rs[i..]) && Canonical(rs[..j])
  {
  }

  lemma PushCanonical(rs: seq<Run>, p: nat, b: Block)
    requires p < Total(rs) && Canonical(rs)
    ensures Canonical(Push(rs, p, b)) && Push(rs, p, b) != []
  {
    var l := Locate(rs, p);
    var cur := rs[l.index];
    var pieces := Pieces(cur, l.prec, b);
    var tail := pieces + rs[l.index + 1..];
    if cur.block != b {
      CanonicalSlices(rs, l.index + 1, |rs|);
      CanonicalSlices(rs, 0, l.index);
      assert Positive(tail);
      if l.prec == 0 && l.index == 0 {
        MergeCanonical(tail);
      } else if l.prec == 0 {
        CanonicalSlices(rs, 0, l.index - 1);
        MergeCanonical([rs[l.index - 1]] + tail);
        CanonicalJoin(rs[..l.index - 1], Merge([rs[l.index - 1]] + tail));
      } else if l.prec == cur.count - 1 {
        MergeCanonical(tail);
        CanonicalJoin(rs[..l.index], Merge(tail));
      } else {
        assert Canonical(pieces);
        CanonicalJoin(pieces, rs[l.index + 1..]);
        CanonicalJoin(rs[..l.index], tail);
      }
    }
  }

  // ----- canonical forms are unique -------------------------------------------

  /** A canonical list starts with the longest possible first run. */
  lemma FirstRunMaximal(rs: seq<Run>)
    requires Canonical(rs) && rs != []
    ensures |Flat(rs)| == Total(rs) && rs[0].count <= Total(rs)
    ensures forall i :: 0 <= i < rs[0].count ==> Flat(rs)[i] == rs[0].block
    ensures rs[0].count < Total(rs) ==> Flat(rs)[rs[0].count] != rs[0].block
  {
    FlatLength(rs);
    if |rs| > 1 {
      assert rs[1..] != [] && rs[1..][0] == rs[1];
      assert Flat(rs[1..]) == Repeat(rs[1].block, rs[1].count) + Flat(rs[1..][1..]);
      assert Flat(rs)[rs[0].count] == Flat(rs[1..])[0];
    }
  }

  /** Canonical lists with the same flat vector are the same list. */
  lemma {:induction false} CanonicalUnique(a: seq<Run>, b: seq<Run>)
    requires Canonical(a) && Canonical(b) && Flat(a) == Flat(b)
    ensures a == b
  {
    FlatLength(a);
    FlatLength(b);
    if a == [] {
      if b != [] {
        FirstRunMaximal(b);
        assert false;
      }
    } else {
      assert a[0].count > 0;
      FirstRunMaximal(a);
      assert b != [];
      FirstRunMaximal(b);
      assert Flat(a)[0] == Flat(b)[0];
      assert a[0] == b[0];
      CanonicalSlices(a, 1, |a|);
      CanonicalSlices(b, 1, |b|);
      var n := a[0].count;
      assert Flat(a)[n..] == Flat(a[1..]) && Flat(b)[n..] == Flat(b[1..]);
      CanonicalUnique(a[1..], b[1..]);
    }
  }

  /** Comparing canonical lists run by run decides equality of the bitmaps. */
  lemma EqualDecidesBits(a: seq<Run>, b: seq<Run>)
    requires Canonical(a) && Canonical(b)
    ensures a == b <==> SameBits(Flat(a), Flat(b))
  {
    if SameBits(Flat(a), Flat(b)) {
      SameBitsSameBlocks(Flat(a), Flat(b));
      CanonicalUnique(a, b);
    }
  }

  // ----- reserving and releasing one bit --------------------------------------

  /** Sets or clears bit `i`; a position outside the list leaves it alone. */
  function PushBit(rs: seq<Run>, i: nat, release: bool): (r: seq<Run>)
  {
    if i / 32 >= Total(rs) then rs
    else Push(rs, i / 32, WithBit(rs[Locate(rs, i / 32).index].block, i % 32, release))
  }

  /** The in-place edit refines the flat vector, and does nothing out of range. */
  lemma PushBitFlat(rs: seq<Run>, i: nat, release: bool)
    ensures |Flat(rs)| == Total(rs)
    ensures i < 32 * Total(rs) ==> Flat(PushBit(rs, i, release)) == SetAt(Flat(rs), i, release)
    ensures i >= 32 * Total(rs) ==> PushBit(rs, i, release) == rs
    ensures Total(PushBit(rs, i, release)) == Total(rs)
  {
    FlatLength(rs);
    if i / 32 < Total(rs) {
      LocateBlock(rs, i / 32);
      var b := WithBit(rs[Locate(rs, i / 32).index].block, i % 32, release);
      PushFlat(rs, i / 32, b);
      PushTotal(rs, i / 32, b);
    }
  }

  lemma PushBitCanonical(rs: seq<Run>, i: nat, release: bool)
    requires Canonical(rs)
    ensures Canonical(PushBit(rs, i, release))
    ensures rs != [] ==> PushBit(rs, i, release) != []
  {
    if i / 32 < Total(rs) {
      PushCanonical(rs, i / 32, WithBit(rs[Locate(rs, i / 32).index].block, i % 32, release));
    }
  }
}
