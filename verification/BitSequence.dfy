/**
 The linked list of runs that the bit sequence edits in place. A list is given by
 the ghost set of its nodes and the runs they hold, in order. Every local that the
 source keeps in a uint64 has type `u64`, so no live value wraps.
 */
module Sequences {
  import opened Blocks
  import opened Bitmaps
  import opened Runs

  /** Blocks of the largest list: 2^64 - 1 bits need 2^59 of them. */
  const MAX_BLOCKS: nat := 0x800_0000_0000_0000

  const INVALID_POS: u64 := 0xFFFF_FFFF_FFFF_FFFF

  class Sequence {
    var block: Block
    var count: u64
    var next: Sequence?

    constructor (block: Block, count: u64, next: Sequence?)
      ensures this.block == block && this.count == count && this.next == next
    {
      this.block := block;
      this.count := count;
      this.next := next;
    }
  }

  /** The nodes from `n` up to but not including `end` are the set `nodes`; they hold the runs `rs`. */
  ghost predicate Segment(n: Sequence?, rs: seq<Run>, end: Sequence?, nodes: set<Sequence>)
    reads nodes
    decreases |rs|
  {
    if rs == [] then n == end && nodes == {} else
      && n != null && n in nodes && n.block == rs[0].block && n.count == rs[0].count
      && Segment(n.next, rs[1..], end, nodes - {n})
  }

  ghost predicate IsList(head: Sequence?, rs: seq<Run>, nodes: set<Sequence>)
    reads nodes
  {
    Segment(head, rs, null, nodes)
  }

  lemma {:induction false} JoinSegments(n: Sequence?, rs: seq<Run>, m: Sequence?, a: set<Sequence>,
                                        qs: seq<Run>, end: Sequence?, b: set<Sequence>)
    requires Segment(n, rs, m, a) && Segment(m, qs, end, b) && a !! b
    ensures Segment(n, rs + qs, end, a + b)
  {
    if rs == [] {
      assert rs + qs == qs && a + b == b;
    } else {
      JoinSegments(n.next, rs[1..], m, a - {n}, qs, end, b);
      assert (rs + qs)[1..] == rs[1..] + qs && a + b - {n} == a - {n} + b;
    }
  }

  lemma SingleNode(n: Sequence, end: Sequence?)
    requires n.next == end
    ensures Segment(n, [Run(n.block, n.count)], end, {n})
  {
    assert {n} - {n} == {} && [Run(n.block, n.count)][1..] == [];
  }

  lemma ConsNode(n: Sequence, r: Run, rs: seq<Run>, end: Sequence?, nodes: set<Sequence>)
    requires n.block == r.block && n.count == r.count && Segment(n.next, rs, end, nodes) && n !in nodes
    ensures Segment(n, [r] + rs, end, {n} + nodes)
  {
    assert ([r] + rs)[1..] == rs && {n} + nodes - {n} == nodes;
  }

  // ----- positions ------------------------------------------------------------

  method OrdinalToPos(ordinal: u64) returns (bytePos: u64, bitPos: u64)
    ensures 8 * bytePos + bitPos == ordinal && bitPos < 8
  {
    return ordinal / 8, ordinal % 8;
  }

  /** The inverse of `OrdinalToPos`. On an invalid position the product wraps; no caller uses it. */
  function PosToOrdinal(bytePos: u64, bitPos: u64): (r: u64)
    ensures 8 * bytePos + bitPos < U64_LIMIT ==> r == 8 * bytePos + bitPos
  {
    (8 * bytePos + bitPos) % U64_LIMIT
  }

  /** The blocks needed for `bits` bits: enough of them, and not one block more. */
  method GetNumBlocks(bits: u64) returns (n: u64)
    ensures bits <= 32 * n < bits + 32
    ensures n <= MAX_BLOCKS
  {
    n := bits / 32;
    if bits % 32 != 0 {
      n := n + 1;
    }
  }

  // ----- finding the node that holds a byte -----------------------------------

  lemma {:induction false} LocateUnique(rs: seq<Run>, p: nat, k: nat, q: nat)
    requires k < |rs| && q < rs[k].count && Total(rs[..k]) + q == p
    ensures p < Total(rs) && Locate(rs, p) == Place(k, q)
  {
    if k == 0 {
      assert rs[..0] == [];
    } else {
      assert rs[..k] == [rs[0]] + rs[1..][..k - 1];
      FlatCons(rs[0], rs[1..][..k - 1]);
      LocateUnique(rs[1..], p - rs[0].count, k - 1, q);
    }
  }

  lemma TotalPrefix(rs: seq<Run>, k: nat)
    requires k < |rs|
    ensures Total(rs[..k + 1]) == Total(rs[..k]) + rs[k].count
    ensures Total(rs[..k + 1]) <= Total(rs)
  {
    assert rs[..k + 1] == rs[..k] + [rs[k]];
    FlatConcat(rs[..k], [rs[k]]);
    FlatOne(rs[k]);
    assert rs == rs[..k + 1] + rs[k + 1..];
    FlatConcat(rs[..k + 1], rs[k + 1..]);
  }

  /**
   Finds the node that holds byte `bytePos`. `before` are the nodes ahead of
   `previous` and `after` those from `current` on.
   */
  method FindSequence(head: Sequence, bytePos: u64, ghost rs: seq<Run>, ghost nodes: set<Sequence>)
    returns (current: Sequence?, previous: Sequence?, precBlocks: u64, inBlockBytePos: u64,
             ghost at: nat, ghost before: set<Sequence>, ghost after: set<Sequence>)
    requires IsList(head, rs, nodes) && Total(rs) <= MAX_BLOCKS
    ensures current == null <==> bytePos / 4 >= Total(rs)
    ensures current == null ==> previous == null && precBlocks == 0 && inBlockBytePos == INVALID_POS
    ensures current != null ==>
              && bytePos / 4 < Total(rs) && Locate(rs, bytePos / 4) == Place(at, precBlocks)
              && inBlockBytePos == bytePos % 4 && previous != null
              && Found(head, previous, current, at, rs, before, after, nodes)
  {
    previous := head;
    current := head;
    var n: u64 := bytePos;
    at := 0;
    before, after := {}, nodes;
    TotalPrefix(rs, 0);
    assert rs[0..] == rs;
    while current.next != null && n >= current.count * 4
      invariant current != null && previous != null && Found(head, previous, current, at, rs, before, after, nodes)
      invariant n + 4 * Total(rs[..at]) == bytePos
      invariant Total(rs[..at + 1]) == Total(rs[..at]) + current.count <= Total(rs)
      decreases |rs| - at
    {
      n := n - current.count * 4;
      before, after := NextFound(head, previous, current, at, rs, before, after, nodes);
      previous := current;
      current := current.next;
      at := at + 1;
      TotalPrefix(rs, at);
    }

    if n >= current.count * 4 {
      assert IsList(current.next, rs[at..][1..], after - {current});
      assert rs[..at + 1] == rs;
      return null, null, 0, INVALID_POS, at, before, after;
    }
    precBlocks := n / 4;
    inBlockBytePos := bytePos % 4;
    LocateUnique(rs, bytePos / 4, at, precBlocks);
  }

  /** `current` holds run `at`; unless it is the head, `previous` is the node ahead of it. */
  ghost predicate Found(head: Sequence, previous: Sequence, current: Sequence, at: nat, rs: seq<Run>,
                        before: set<Sequence>, after: set<Sequence>, nodes: set<Sequence>)
    reads before, after, previous
  {
    && at < |rs| && current in after && IsList(current, rs[at..], after)
    && if at == 0 then previous == head && current == head && before == {} && after == nodes else
       && before !! after && previous !in before && previous !in after && nodes == before + {previous} + after
       && previous.next == current && previous.block == rs[at - 1].block && previous.count == rs[at - 1].count
       && Segment(head, rs[..at - 1], previous, before)
  }

  lemma NextFound(head: Sequence, previous: Sequence, current: Sequence, at: nat, rs: seq<Run>,
                  before: set<Sequence>, after: set<Sequence>, nodes: set<Sequence>)
    returns (before': set<Sequence>, after': set<Sequence>)
    requires Found(head, previous, current, at, rs, before, after, nodes) && current.next != null
    ensures Found(head, current, current.next, at + 1, rs, before', after', nodes)
  {
    before' := if at == 0 then {} else before + {previous};
    after' := after - {current};
    assert rs[at..][1..] == rs[at + 1..];
    assert IsList(current.next, rs[at + 1..], after');
    if at == 0 {
      assert rs[..0] == [];
    } else {
      SingleNode(previous, current);
      JoinSegments(head, rs[..at - 1], previous, before, [rs[at - 1]], current, {previous});
      assert rs[..at - 1] + [rs[at - 1]] == rs[..at];
    }
  }

  // ----- comparing and copying ------------------------------------------------

  /** Node by node comparison: the answer is whether the two lists hold the same runs. */
  method Equal(s: Sequence, o: Sequence,
               ghost rs: seq<Run>, ghost ns: set<Sequence>, ghost qs: seq<Run>, ghost os: set<Sequence>)
    returns (r: bool)
    requires IsList(s, rs, ns) && IsList(o, qs, os)
    ensures r <==> rs == qs
  {
    var this', other: Sequence? := s, o;
    ghost var k, ns', os' := 0, ns, os;
    while this' != null
      invariant 0 <= k <= |rs| && k <= |qs|
      invariant IsList(this', rs[k..], ns') && IsList(other, qs[k..], os')
      invariant forall i | 0 <= i < k :: rs[i] == qs[i]
      decreases |rs| - k
    {
      if other == null {
        return false;
      }
      if this'.block != other.block || this'.count != other.count {
        assert rs[k..][0] != qs[k..][0];
        return false;
      }
      assert rs[k..][0] == qs[k..][0];
      assert rs[k..][1..] == rs[k + 1..] && qs[k..][1..] == qs[k + 1..];
      ns', os', k := ns' - {this'}, os' - {other}, k + 1;
      this' := this'.next;
      other := other.next;
    }
    if other != null {
      return false;
    }
    return true;
  }

  /** Hangs a new node after the last node `p` of a list under construction. */
  method Append(s: Sequence, p: Sequence, block: Block, count: u64, ghost rs: seq<Run>, ghost nodes: set<Sequence>)
    returns (q: Sequence)
    requires Segment(s, rs, p, nodes) && p !in nodes && p.next == null
    modifies p
    ensures fresh(q) && q.block == block && q.count == count && q.next == null
    ensures Segment(s, rs + [Run(old(p.block), old(p.count))], q, nodes + {p})
  {
    q := new Sequence(block, count, null);
    p.next := q;
    SingleNode(p, q);
    JoinSegments(s, rs, p, nodes, [Run(p.block, p.count)], q, {p});
  }

  method GetCopy(s: Sequence, ghost rs: seq<Run>, ghost nodes: set<Sequence>)
    returns (n: Sequence, ghost copy: set<Sequence>)
    requires IsList(s, rs, nodes)
    ensures IsList(n, rs, copy) && fresh(copy)
  {
    n := new Sequence(s.block, s.count, null);
    var pn := n;
    var ps := s.next;
    ghost var k := 0;
    ghost var rest: set<Sequence> := nodes - {s};
    copy := {};
    assert rs[..0] == [];
    while ps != null
      invariant 0 <= k < |rs| && rest <= nodes && IsList(ps, rs[k + 1..], rest)
      invariant fresh(copy) && fresh(pn) && pn !in copy
      invariant Segment(n, rs[..k], pn, copy)
      invariant pn.block == rs[k].block && pn.count == rs[k].count && pn.next == null
      decreases |rs| - k
    {
      assert rs[k + 1..][1..] == rs[k + 2..];
      assert IsList(ps.next, rs[k + 2..], rest - {ps});
      var m := Append(n, pn, ps.block, ps.count, rs[..k], copy);
      assert rs[..k] + [rs[k]] == rs[..k + 1];
      copy, k, rest := copy + {pn}, k + 1, rest - {ps};
      pn := m;
      ps := ps.next;
    }
    SingleNode(pn, null);
    JoinSegments(n, rs[..k], pn, copy, [rs[k]], null, {pn});
    assert rs[..k] + [rs[k]] == rs;
    copy := copy + {pn};
  }

  // ----- merging neighbours ---------------------------------------------------

  /** Node `s` swallows its successor. */
  method Absorb(s: Sequence, ghost rs: seq<Run>, ghost nodes: set<Sequence>)
    returns (ghost qs: seq<Run>, ghost kept: set<Sequence>)
    requires |rs| >= 2 && IsList(s, rs, nodes) && rs[0].count + rs[1].count < U64_LIMIT
    modifies s
    ensures kept <= nodes && qs == [Run(rs[0].block, rs[0].count + rs[1].count)] + rs[2..]
    ensures IsList(s, qs, kept)
  {
    assert IsList(s.next, rs[1..], nodes - {s});
    assert IsList(s.next.next, rs[1..][1..], nodes - {s} - {s.next});
    assert rs[1..][1..] == rs[2..];
    kept := {s} + (nodes - {s} - {s.next});
    qs := [Run(rs[0].block, rs[0].count + rs[1].count)] + rs[2..];
    s.count := s.count + s.next.count;
    s.next := s.next.next;
    ConsNode(s, qs[0], rs[2..], null, kept - {s});
  }

  lemma MergeHead(a: seq<Run>)
    requires |a| >= 2
    ensures a[0].count + a[1].count <= Total(a)
    ensures var b := [Run(a[0].block, a[0].count + a[1].count)] + a[2..];
            Total(a) == Total(b) && (a[0].block == a[1].block ==> Merge(a) == Merge(b))
  {
    FlatCons(Run(a[0].block, a[0].count + a[1].count), a[2..]);
    FlatCons(a[1], a[2..]);
    FlatCons(a[0], a[1..]);
    assert a == [a[0]] + a[1..] && a[1..] == [a[1]] + a[2..];
  }

  /** The inner loop: node `s` swallows its successors as long as they repeat its block. */
  method MergeRun(s: Sequence, ghost rs: seq<Run>, ghost nodes: set<Sequence>)
    returns (ghost qs: seq<Run>, ghost kept: set<Sequence>)
    requires IsList(s, rs, nodes) && Total(rs) <= MAX_BLOCKS
    modifies s
    ensures IsList(s, qs, kept) && kept <= nodes && 0 < |qs| <= |rs|
    ensures Merge(rs) == [qs[0]] + Merge(qs[1..]) && Total(qs) == Total(rs)
  {
    qs, kept := rs, nodes;
    while s.next != null && s.block == s.next.block
      invariant IsList(s, qs, kept) && kept <= nodes && 0 < |qs| <= |rs|
      invariant Merge(rs) == Merge(qs) && Total(qs) == Total(rs)
      decreases |qs|
    {
      assert IsList(s.next, qs[1..], kept - {s});
      MergeHead(qs);
      qs, kept := Absorb(s, qs, kept);
    }
    assert IsList(s.next, qs[1..], kept - {s});
    if |qs| == 1 {
      assert qs == [qs[0]] + Merge(qs[1..]);
    }
  }

  /** Merges equal neighbours from `s` to the end of the list. */
  method MergeSequences(s: Sequence?, ghost rs: seq<Run>, ghost nodes: set<Sequence>)
    returns (ghost kept: set<Sequence>)
    requires IsList(s, rs, nodes) && Total(rs) <= MAX_BLOCKS
    modifies nodes
    ensures IsList(s, Merge(rs), kept) && kept <= nodes
    decreases |rs|
  {
    kept := nodes;
    if s != null {
      ghost var qs, first := MergeRun(s, rs, nodes);
      TotalTail(qs);
      assert IsList(s.next, qs[1..], first - {s});
      ghost var rest := MergeSequences(s.next, qs[1..], first - {s});
      ConsNode(s, qs[0], Merge(qs[1..]), null, rest);
      kept := {s} + rest;
    }
  }

  lemma TotalTail(rs: seq<Run>)
    requires rs != []
    ensures Total(rs[1..]) + rs[0].count == Total(rs)
  {
  }

  // ----- reserving and releasing one bit --------------------------------------

  /**
   The new run replaces the first block of `current`: it goes before it, and an
   empty `current` is dropped. The result starts at the new node.
   */
  method LinkFirst(current: Sequence, b: Block, ghost rs: seq<Run>, ghost nodes: set<Sequence>)
    returns (newSequence: Sequence, ghost kept: set<Sequence>)
    requires IsList(current, rs, nodes) && rs != [] && rs[0].count > 0
    modifies current
    ensures fresh(newSequence) && kept <= nodes + {newSequence}
    ensures IsList(newSequence, Pieces(rs[0], 0, b) + rs[1..], kept)
  {
    assert IsList(current.next, rs[1..], nodes - {current});
    current.count := current.count - 1;
    newSequence := new Sequence(b, 1, current);
    if current.count == 0 {
      newSequence.next := current.next;
      ConsNode(newSequence, Run(b, 1), rs[1..], null, nodes - {current});
      kept := {newSequence} + (nodes - {current});
      assert Pieces(rs[0], 0, b) + rs[1..] == [Run(b, 1)] + rs[1..];
    } else {
      ghost var rest := [Run(rs[0].block, rs[0].count - 1)] + rs[1..];
      ConsNode(current, rest[0], rs[1..], null, nodes - {current});
      assert {current} + (nodes - {current}) == nodes;
      ConsNode(newSequence, Run(b, 1), rest, null, nodes);
      kept := {newSequence} + nodes;
      assert Pieces(rs[0], 0, b) + rs[1..] == [Run(b, 1)] + rest;
    }
  }

  /** The new run replaces the last block of `current`: it goes after it. */
  method LinkLast(current: Sequence, b: Block, ghost rs: seq<Run>, ghost nodes: set<Sequence>)
    returns (ghost kept: set<Sequence>)
    requires IsList(current, rs, nodes) && rs != [] && rs[0].count > 1
    modifies current
    ensures fresh(kept - nodes)
    ensures IsList(current, Pieces(rs[0], rs[0].count - 1, b) + rs[1..], kept)
  {
    assert IsList(current.next, rs[1..], nodes - {current});
    current.count := current.count - 1;
    var newSequence := new Sequence(b, 1, current.next);
    current.next := newSequence;
    ghost var rest := [Run(b, 1)] + rs[1..];
    ConsNode(newSequence, rest[0], rs[1..], null, nodes - {current});
    ConsNode(current, Run(rs[0].block, rs[0].count - 1), rest, null, {newSequence} + (nodes - {current}));
    kept := {current} + ({newSequence} + (nodes - {current}));
    assert Pieces(rs[0], rs[0].count - 1, b) + rs[1..] == [Run(rs[0].block, rs[0].count - 1)] + rest;
  }

  /** The new run replaces a block in the middle: `current` keeps the blocks after it. */
  method LinkBetween(current: Sequence, b: Block, precBlocks: u64, ghost rs: seq<Run>, ghost nodes: set<Sequence>)
    returns (currPre: Sequence, ghost kept: set<Sequence>)
    requires IsList(current, rs, nodes) && rs != [] && 0 < precBlocks < rs[0].count - 1
    modifies current
    ensures fresh(currPre) && fresh(kept - nodes)
    ensures IsList(currPre, Pieces(rs[0], precBlocks, b) + rs[1..], kept)
  {
    assert IsList(current.next, rs[1..], nodes - {current});
    current.count := current.count - 1;
    current.count := current.count - precBlocks;
    var newSequence := new Sequence(b, 1, current);
    currPre := new Sequence(current.block, precBlocks, newSequence);
    ghost var post := [Run(rs[0].block, rs[0].count - 1 - precBlocks)] + rs[1..];
    ConsNode(current, post[0], rs[1..], null, nodes - {current});
    assert {current} + (nodes - {current}) == nodes;
    ghost var mid := [Run(b, 1)] + post;
    ConsNode(newSequence, mid[0], post, null, nodes);
    ConsNode(currPre, Run(rs[0].block, precBlocks), mid, null, {newSequence} + nodes);
    kept := {currPre} + ({newSequence} + nodes);
    assert Pieces(rs[0], precBlocks, b) + rs[1..] == [Run(rs[0].block, precBlocks)] + mid;
  }

  lemma PiecesTotal(pre: seq<Run>, cur: Run, post: seq<Run>, prec: nat, b: Block)
    requires prec < cur.count
    ensures Total(pre + (Pieces(cur, prec, b) + post)) == Total(pre + ([cur] + post))
  {
    PiecesFlat(cur, prec, b);
    FlatConcat(pre, Pieces(cur, prec, b) + post);
    FlatConcat(Pieces(cur, prec, b), post);
    FlatConcat(pre, [cur] + post);
    FlatCons(cur, post);
  }

  lemma PushedTotal(rs: seq<Run>, at: nat, prec: nat, b: Block, from: nat)
    requires from <= at < |rs| && prec < rs[at].count
    ensures Total(rs[from..at] + (Pieces(rs[at], prec, b) + rs[at + 1..])) <= Total(rs)
  {
    PiecesTotal(rs[from..at], rs[at], rs[at + 1..], prec, b);
    assert rs == rs[..from] + (rs[from..at] + ([rs[at]] + rs[at + 1..]));
    FlatConcat(rs[..from], rs[from..at] + ([rs[at]] + rs[at + 1..]));
  }

  method InsertFirst(head: Sequence, before: Sequence, current: Sequence, b: Block,
                     ghost at: nat, ghost rs: seq<Run>, ghost ahead: set<Sequence>, ghost after: set<Sequence>,
                     ghost nodes: set<Sequence>)
    returns (newHead: Sequence, ghost kept: set<Sequence>)
    requires Found(head, before, current, at, rs, ahead, after, nodes) && Total(rs) <= MAX_BLOCKS
    requires rs[at].count > 0
    modifies before, after
    ensures fresh(kept - nodes)
    ensures IsList(newHead,
                   var tail := Pieces(rs[at], 0, b) + rs[at + 1..];
                   if at == 0 then Merge(tail) else rs[..at - 1] + Merge([rs[at - 1]] + tail),
                   kept)
  {
    newHead := head;
    var previous := before;
    ghost var tail := Pieces(rs[at], 0, b) + rs[at + 1..];
    assert rs[at..][1..] == rs[at + 1..];
    PushedTotal(rs, at, 0, b, if at == 0 then 0 else at - 1);
    var newSequence, tailNodes := LinkFirst(current, b, rs[at..], after);
    ghost var from, runs := tailNodes, tail;
    if current == head {
      newHead := newSequence;
      previous := newHead;
      assert at == 0;
      assert rs[0..0] + tail == tail;
    } else {
      previous.next := newSequence;
      ConsNode(previous, rs[at - 1], tail, null, tailNodes);
      assert rs[at - 1..at] == [rs[at - 1]];
      from, runs := {previous} + tailNodes, [rs[at - 1]] + tail;
    }
    kept := MergeSequences(previous, runs, from);
    if at > 0 {
      JoinSegments(head, rs[..at - 1], previous, ahead, Merge(runs), null, kept);
      kept := ahead + kept;
    }
  }

  method InsertLast(head: Sequence, ghost previous: Sequence, current: Sequence, b: Block,
                    ghost at: nat, ghost rs: seq<Run>, ghost ahead: set<Sequence>, ghost after: set<Sequence>,
                    ghost nodes: set<Sequence>)
    returns (ghost kept: set<Sequence>)
    requires Found(head, previous, current, at, rs, ahead, after, nodes) && Total(rs) <= MAX_BLOCKS
    requires rs[at].count > 1
    modifies after
    ensures fresh(kept - nodes)
    ensures IsList(head, rs[..at] + Merge(Pieces(rs[at], rs[at].count - 1, b) + rs[at + 1..]), kept)
  {
    ghost var tail := Pieces(rs[at], rs[at].count - 1, b) + rs[at + 1..];
    assert rs[at..][1..] == rs[at + 1..];
    PushedTotal(rs, at, rs[at].count - 1, b, at);
    assert rs[at..at] + tail == tail;
    ghost var tailNodes := LinkLast(current, b, rs[at..], after);
    kept := MergeSequences(current, tail, tailNodes);
    if at == 0 {
      assert rs[..0] + Merge(tail) == Merge(tail);
    } else {
      SingleNode(previous, current);
      JoinSegments(head, rs[..at - 1], previous, ahead, [rs[at - 1]], current, {previous});
      assert rs[..at - 1] + [rs[at - 1]] == rs[..at];
      JoinSegments(head, rs[..at], current, ahead + {previous}, Merge(tail), null, kept);
      kept := ahead + {previous} + kept;
    }
  }

  method InsertBetween(head: Sequence, previous: Sequence, current: Sequence, b: Block, precBlocks: u64,
                       ghost at: nat, ghost rs: seq<Run>, ghost ahead: set<Sequence>, ghost after: set<Sequence>,
                       ghost nodes: set<Sequence>)
    returns (newHead: Sequence, ghost kept: set<Sequence>)
    requires Found(head, previous, current, at, rs, ahead, after, nodes)
    requires 0 < precBlocks < rs[at].count - 1
    modifies previous, current
    ensures fresh(kept - nodes)
    ensures IsList(newHead, rs[..at] + (Pieces(rs[at], precBlocks, b) + rs[at + 1..]), kept)
  {
    newHead := head;
    ghost var tail := Pieces(rs[at], precBlocks, b) + rs[at + 1..];
    assert rs[at..][1..] == rs[at + 1..];
    var currPre, tailNodes := LinkBetween(current, b, precBlocks, rs[at..], after);
    if current == head {
      newHead := currPre;
      kept := tailNodes;
      assert rs[..at] + tail == tail;
    } else {
      previous.next := currPre;
      SingleNode(previous, currPre);
      JoinSegments(head, rs[..at - 1], previous, ahead, [rs[at - 1]], currPre, {previous});
      assert rs[..at - 1] + [rs[at - 1]] == rs[..at];
      JoinSegments(head, rs[..at], currPre, ahead + {previous}, tail, null, tailNodes);
      kept := ahead + {previous} + tailNodes;
    }
  }

  lemma PositionOfBit(bytePos: nat, bitPos: nat)
    requires bitPos < 8
    ensures (8 * bytePos + bitPos) / 32 == bytePos / 4
    ensures (8 * bytePos + bitPos) % 32 == (bytePos % 4) * 8 + bitPos
  {
  }

  /** Puts the new run in its place; the three cases of the block position. */
  method Insert(head: Sequence, previous: Sequence, current: Sequence, b: Block, precBlocks: u64, ghost p: nat,
                ghost at: nat, ghost rs: seq<Run>, ghost ahead: set<Sequence>, ghost after: set<Sequence>,
                ghost nodes: set<Sequence>)
    returns (newHead: Sequence, ghost kept: set<Sequence>)
    requires Found(head, previous, current, at, rs, ahead, after, nodes) && Total(rs) <= MAX_BLOCKS
    requires p < Total(rs) && Locate(rs, p) == Place(at, precBlocks) && rs[at].block != b
    modifies previous, after
    ensures fresh(kept - nodes)
    ensures IsList(newHead, Push(rs, p, b), kept)
  {
    assert rs[at..][0] == rs[at];
    newHead := head;
    if precBlocks == 0 {
      newHead, kept := InsertFirst(head, previous, current, b, at, rs, ahead, after, nodes);
    } else if precBlocks == current.count - 1 {
      kept := InsertLast(head, previous, current, b, at, rs, ahead, after, nodes);
    } else {
      newHead, kept := InsertBetween(head, previous, current, b, precBlocks, at, rs, ahead, after, nodes);
    }
  }

  /** Sets or clears one bit of the list in place. */
  method PushReservation(bytePos: u64, bitPos: u64, head: Sequence, release: bool,
                         ghost rs: seq<Run>, ghost nodes: set<Sequence>)
    returns (newHead: Sequence, ghost kept: set<Sequence>)
    requires IsList(head, rs, nodes) && Total(rs) <= MAX_BLOCKS && bitPos < 8
    modifies nodes
    ensures fresh(kept - nodes)
    ensures IsList(newHead, PushBit(rs, 8 * bytePos + bitPos, release), kept)
  {
    newHead, kept := head, nodes;
    PositionOfBit(bytePos, bitPos);
    var current, previous, precBlocks, inBlockBytePos, at, ahead, after := FindSequence(head, bytePos, rs, nodes);
    if current == null {
      return;
    }
    assert rs[at..][0] == rs[at];
    var newBlock := WithBit(current.block, inBlockBytePos * 8 + bitPos, release);
    if current.block == newBlock {
      return;
    }
    newHead, kept := Insert(head, previous, current, newBlock, precBlocks, bytePos / 4, at, rs, ahead, after, nodes);
  }

  // ----- repairing a damaged list ---------------------------------------------

  function NonZero(rs: seq<Run>): (r: seq<Run>)
    ensures forall i | 0 <= i < |r| :: r[i].count > 0
  {
    if rs == [] then [] else (if rs[0].count == 0 then [] else [rs[0]]) + NonZero(rs[1..])
  }

  /** Every empty run after the head is dropped. */
  function Cleaned(rs: seq<Run>): (r: seq<Run>)
    requires rs != []
  {
    [rs[0]] + NonZero(rs[1..])
  }

  lemma {:induction false} NonZeroFlat(rs: seq<Run>)
    ensures Flat(NonZero(rs)) == Flat(rs)
  {
    if rs != [] {
      NonZeroFlat(rs[1..]);
      if rs[0].count == 0 {
        assert NonZero(rs) == NonZero(rs[1..]);
      } else {
        FlatCons(rs[0], NonZero(rs[1..]));
      }
    }
  }

  lemma {:induction false} NonZeroLength(rs: seq<Run>)
    ensures |NonZero(rs)| <= |rs|
    ensures Positive(rs) ==> NonZero(rs) == rs
  {
    if rs != [] {
      NonZeroLength(rs[1..]);
    }
  }

  /** The repair never changes a bit, and does something exactly when there was an empty run. */
  lemma CleanedFlat(rs: seq<Run>)
    requires rs != []
    ensures Flat(Cleaned(rs)) == Flat(rs)
    ensures Cleaned(rs) == rs <==> Positive(rs[1..])
  {
    NonZeroFlat(rs[1..]);
    NonZeroLength(rs[1..]);
    FlatCons(rs[0], NonZero(rs[1..]));
    assert rs == [rs[0]] + rs[1..];
    assert Cleaned(rs)[1..] == NonZero(rs[1..]);
  }

  lemma {:induction false} NonZeroSnoc(rs: seq<Run>, r: Run)
    ensures NonZero(rs + [r]) == NonZero(rs) + if r.count == 0 then [] else [r]
  {
    if rs == [] {
      assert rs + [r] == [r] && [r][1..] == [];
    } else {
      NonZeroSnoc(rs[1..], r);
      assert (rs + [r])[1..] == rs[1..] + [r];
    }
  }

  lemma CleanedSnoc(rs: seq<Run>, k: nat)
    requires 1 <= k < |rs|
    ensures Cleaned(rs[..k + 1]) == Cleaned(rs[..k]) + if rs[k].count == 0 then [] else [rs[k]]
    ensures Positive(rs[..k + 1][1..]) <==> Positive(rs[..k][1..]) && rs[k].count > 0
  {
    NonZeroSnoc(rs[..k][1..], rs[k]);
    PositiveSnoc(rs[..k][1..], rs[k]);
    assert rs[..k + 1][1..] == rs[..k][1..] + [rs[k]];
  }

  lemma PositiveSnoc(rs: seq<Run>, r: Run)
    ensures Positive(rs + [r]) <==> Positive(rs) && r.count > 0
  {
    assert forall i | 0 <= i < |rs| :: (rs + [r])[i] == rs[i];
    assert (rs + [r])[|rs|] == r;
  }

  method RunConsistencyCheck(head: Sequence, ghost rs: seq<Run>, ghost nodes: set<Sequence>)
    returns (corrupted: bool, ghost kept: set<Sequence>)
    requires IsList(head, rs, nodes)
    modifies nodes
    ensures kept <= nodes && IsList(head, Cleaned(rs), kept)
    ensures corrupted <==> !Positive(rs[1..])
  {
    hide NonZero, Positive;
    corrupted := false;
    var p: Sequence := head;
    var c := head.next;
    ghost var done: seq<Run>, k := [], 1;
    ghost var rest: set<Sequence> := nodes - {head};
    kept := {};
    CleanedHead(rs);
    while c != null
      invariant 1 <= k <= |rs| && IsList(c, rs[k..], rest) && p.next == c
      invariant kept + {p} + rest <= nodes && p !in kept && p !in rest && kept !! rest
      invariant Segment(head, done, p, kept)
      invariant done + [Run(p.block, p.count)] == Cleaned(rs[..k])
      invariant corrupted <==> !Positive(rs[..k][1..])
      decreases |rs| - k
    {
      CleanedSnoc(rs, k);
      assert rs[k..][1..] == rs[k + 1..] && rs[k..][0] == rs[k];
      assert IsList(c.next, rs[k + 1..], rest - {c});
      rest, k := rest - {c}, k + 1;
      if c.count == 0 {
        corrupted := true;
        p.next := c.next;
        c := c.next;
        continue;
      }
      SingleNode(p, c);
      JoinSegments(head, done, p, kept, [Run(p.block, p.count)], c, {p});
      done, kept := done + [Run(p.block, p.count)], kept + {p};
      p := c;
      c := c.next;
    }
    SingleNode(p, null);
    JoinSegments(head, done, p, kept, [Run(p.block, p.count)], null, {p});
    kept := kept + {p};
    assert rs[..k] == rs;
  }

  lemma CleanedHead(rs: seq<Run>)
    requires rs != []
    ensures Cleaned(rs[..1]) == [rs[0]] && Positive(rs[..1][1..])
  {
  }
}
