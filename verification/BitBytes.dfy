/** The byte form of a bitmask: big-endian counters followed by twelve bytes per run. */
module MaskBytes {
  import opened Blocks
  import opened Bitmaps
  import opened Runs
  import opened Sequences
  import opened Handles
  import opened Bytes

  lemma Pow256Sizes()
    ensures Pow256(4) == BLOCK_LIMIT && Pow256(8) == U64_LIMIT
  {
    assert Pow256(2) == 0x1_0000;
    assert Pow256(6) == 0x1_0000_0000_0000;
  }

  // ----- runs -----------------------------------------------------------------

  function EncodeRun(r: Run): (bs: seq<byte>)
    ensures |bs| == 12
  {
    PutBE(r.block, 4) + PutBE(r.count, 8)
  }

  function EncodeRuns(rs: seq<Run>): (bs: seq<byte>)
    ensures |bs| == 12 * |rs|
  {
    if rs == [] then [] else EncodeRun(rs[0]) + EncodeRuns(rs[1..])
  }

  function DecodeRun(bs: seq<byte>): (r: Run)
    requires |bs| == 12
    ensures r.count < U64_LIMIT
  {
    Pow256Sizes();
    Run(GetBE(bs[..4]), GetBE(bs[4..]))
  }

  function DecodeRuns(bs: seq<byte>): (rs: seq<Run>)
    requires |bs| % 12 == 0
    ensures 12 * |rs| == |bs|
  {
    if bs == [] then [] else [DecodeRun(bs[..12])] + DecodeRuns(bs[12..])
  }

  ghost predicate Encodable(rs: seq<Run>) {
    forall i | 0 <= i < |rs| :: rs[i].count < U64_LIMIT
  }

  lemma DecodeEncodeRun(r: Run)
    requires r.count < U64_LIMIT
    ensures DecodeRun(EncodeRun(r)) == r
  {
    Pow256Sizes();
    GetPutBE(r.block, 4);
    GetPutBE(r.count, 8);
    assert EncodeRun(r)[..4] == PutBE(r.block, 4) && EncodeRun(r)[4..] == PutBE(r.count, 8);
  }

  lemma {:induction false} DecodeEncodeRuns(rs: seq<Run>)
    requires Encodable(rs)
    ensures |EncodeRuns(rs)| % 12 == 0 && DecodeRuns(EncodeRuns(rs)) == rs
  {
    if rs != [] {
      var bs := EncodeRuns(rs);
      DecodeEncodeRun(rs[0]);
      DecodeEncodeRuns(rs[1..]);
      assert bs[..12] == EncodeRun(rs[0]) && bs[12..] == EncodeRuns(rs[1..]);
    }
  }

  lemma {:induction false} EncodeRunsSnoc(rs: seq<Run>, r: Run)
    ensures EncodeRuns(rs + [r]) == EncodeRuns(rs) + EncodeRun(r)
  {
    if rs == [] {
      assert [r][1..] == [] && rs + [r] == [r];
    } else {
      EncodeRunsSnoc(rs[1..], r);
      assert (rs + [r])[1..] == rs[1..] + [r];
    }
  }

  method SequenceToBytes(s: Sequence, ghost rs: seq<Run>, ghost nodes: set<Sequence>) returns (bb: seq<byte>)
    requires IsList(s, rs, nodes)
    ensures bb == EncodeRuns(rs)
  {
    bb := [];
    var p: Sequence? := s;
    ghost var k, rest := 0, nodes;
    assert rs[..0] == [];
    while p != null
      invariant 0 <= k <= |rs| && IsList(p, rs[k..], rest)
      invariant bb == EncodeRuns(rs[..k])
      decreases |rs| - k
    {
      bb := bb + EncodeRun(Run(p.block, p.count));
      EncodeRunsSnoc(rs[..k], rs[k]);
      assert rs[..k] + [rs[k]] == rs[..k + 1] && rs[k..][1..] == rs[k + 1..];
      rest, k := rest - {p}, k + 1;
      p := p.next;
    }
    assert rs[..k] == rs;
  }

  // ----- handles --------------------------------------------------------------

  datatype Decoded = Restored(bits: u64, unselected: u64, runs: seq<Run>) | BadLength | Panics

  function EncodeMask(bits: nat, unselected: nat, rs: seq<Run>): (bs: seq<byte>)
  {
    PutBE(bits, 8) + PutBE(unselected, 8) + EncodeRuns(rs)
  }

  /** The source slices off sixteen bytes first and always reads one run, whatever is left. */
  function DecodeMask(ba: seq<byte>): (d: Decoded)
  {
    Pow256Sizes();
    if |ba| < 16 then Panics
    else if (|ba| - 16) % 12 != 0 then BadLength
    else if |ba| == 16 then Panics
    else Restored(GetBE(ba[..8]), GetBE(ba[8..16]), DecodeRuns(ba[16..]))
  }

  /** Decoding the byte form of a handle gives back its bits, its count and its list. */
  lemma DecodeEncodeMask(bits: nat, unselected: nat, rs: seq<Run>)
    requires bits < U64_LIMIT && unselected < U64_LIMIT && rs != [] && Encodable(rs)
    ensures DecodeMask(EncodeMask(bits, unselected, rs)) == Restored(bits, unselected, rs)
  {
    var ba := EncodeMask(bits, unselected, rs);
    Pow256Sizes();
    GetPutBE(bits, 8);
    GetPutBE(unselected, 8);
    DecodeEncodeRuns(rs);
    assert ba[..8] == PutBE(bits, 8) && ba[8..16] == PutBE(unselected, 8) && ba[16..] == EncodeRuns(rs);
  }

  /** The k-th run is at twelve times k: its block in four bytes, then its count in eight. */
  lemma {:induction false} RunLayout(rs: seq<Run>, k: nat)
    requires Encodable(rs) && k < |rs|
    ensures
      var bs := EncodeRuns(rs);
      GetBE(bs[12 * k..12 * k + 4]) == rs[k].block && GetBE(bs[12 * k + 4..12 * k + 12]) == rs[k].count
  {
    var bs := EncodeRuns(rs);
    if k == 0 {
      DecodeEncodeRun(rs[0]);
      assert bs[..12] == EncodeRun(rs[0]);
      assert bs[0..4] == EncodeRun(rs[0])[..4] && bs[4..12] == EncodeRun(rs[0])[4..];
    } else {
      RunLayout(rs[1..], k - 1);
      var rest := EncodeRuns(rs[1..]);
      assert bs[12 * k..12 * k + 4] == rest[12 * (k - 1)..12 * (k - 1) + 4];
      assert bs[12 * k + 4..12 * k + 12] == rest[12 * (k - 1) + 4..12 * (k - 1) + 12];
    }
  }

  /** Where the byte form has what: size, count of free bits, runs, every number big-endian. */
  lemma MaskLayout(bits: nat, unselected: nat, rs: seq<Run>, k: nat)
    requires bits < U64_LIMIT && unselected < U64_LIMIT && Encodable(rs) && k < |rs|
    ensures
      var ba, j := EncodeMask(bits, unselected, rs), 16 + 12 * k;
      && |ba| == 16 + 12 * |rs| && GetBE(ba[..8]) == bits && GetBE(ba[8..16]) == unselected
      && GetBE(ba[j..j + 4]) == rs[k].block && GetBE(ba[j + 4..j + 12]) == rs[k].count
  {
    var ba, j := EncodeMask(bits, unselected, rs), 16 + 12 * k;
    DecodeEncodeMask(bits, unselected, rs);
    RunLayout(rs, k);
    hide GetBE, PutBE;
    assert ba[16..] == EncodeRuns(rs);
    assert ba[j..j + 4] == ba[16..][12 * k..12 * k + 4] && ba[j + 4..j + 12] == ba[16..][12 * k + 4..12 * k + 12];
  }

  lemma {:induction false} RunsEncodable(rs: seq<Run>)
    requires Total(rs) <= MAX_BLOCKS
    ensures Encodable(rs)
  {
    if rs != [] {
      TotalTail(rs);
      RunsEncodable(rs[1..]);
      assert forall i | 1 <= i < |rs| :: rs[i] == rs[1..][i - 1];
    }
  }

  /** Every well-formed handle survives the trip through its byte form. */
  lemma MaskRoundTrip(m: Mask)
    requires WellFormed(m)
    ensures DecodeMask(EncodeMask(m.bits, m.unselected, m.runs)) == Restored(m.bits, m.unselected, m.runs)
  {
    RunsEncodable(m.runs);
    DecodeEncodeMask(m.bits, m.unselected, m.runs);
  }

  method ToByteArray(h: Handle) returns (ba: seq<byte>)
    requires h.Valid()
    ensures ba == EncodeMask(h.bits, h.unselected, h.runs)
  {
    var bm := SequenceToBytes(h.head, h.runs, h.nodes);
    ba := PutBE(h.bits, 8) + PutBE(h.unselected, 8) + bm;
  }

  /** Reading one more run of twelve bytes. */
  lemma DecodeStep(data: seq<byte>, i: nat, rs: seq<Run>, k: nat)
    requires |data| % 12 == 0 && i % 12 == 0 && i < |data| && k <= |rs|
    requires DecodeRuns(data[i..]) == rs[k..]
    ensures k < |rs| && rs[k] == DecodeRun(data[i..i + 12]) && DecodeRuns(data[i + 12..]) == rs[k + 1..]
  {
    assert data[i..][..12] == data[i..i + 12] && data[i..][12..] == data[i + 12..];
    assert rs[k..][0] == rs[k] && rs[k..][1..] == rs[k + 1..];
  }

  /** Builds the list node by node; the first node is always read. */
  method SequenceFromBytes(data: seq<byte>) returns (s: Sequence, ghost nodes: set<Sequence>)
    requires |data| % 12 == 0 && data != []
    ensures IsList(s, DecodeRuns(data), nodes) && fresh(nodes)
  {
    hide DecodeRun, DecodeRuns;
    ghost var rs, k := DecodeRuns(data), 0;
    assert data[0..] == data && rs[0..] == rs && rs[..0] == [];
    DecodeStep(data, 0, rs, 0);
    var r := DecodeRun(data[0..12]);
    s := new Sequence(r.block, r.count, null);
    var p := s;
    var i := 12;
    nodes := {};
    while i != |data|
      invariant i == 12 * (k + 1) <= |data| && k < |rs| && DecodeRuns(data[i..]) == rs[k + 1..]
      invariant fresh(nodes) && fresh(p) && p !in nodes && Segment(s, rs[..k], p, nodes)
      invariant p.block == rs[k].block && p.count == rs[k].count && p.next == null
      decreases |data| - i
    {
      DecodeStep(data, i, rs, k + 1);
      r := DecodeRun(data[i..i + 12]);
      var q := Append(s, p, r.block, r.count, rs[..k], nodes);
      assert rs[..k] + [rs[k]] == rs[..k + 1];
      nodes, k := nodes + {p}, k + 1;
      p := q;
      i := i + 12;
    }
    SingleNode(p, null);
    JoinSegments(s, rs[..k], p, nodes, [rs[k]], null, {p});
    assert rs[..k] + [rs[k]] == rs;
    nodes := nodes + {p};
  }

  /** Loads a handle from its byte form; on a bad length the handle is left alone. */
  method FromByteArray(h: Handle, ba: seq<byte>) returns (d: Decoded)
    modifies h
    ensures d == DecodeMask(ba)
    ensures d.Restored? ==> d == Restored(h.bits, h.unselected, h.runs) && IsList(h.head, h.runs, h.nodes)
    ensures h.curr == old(h.curr)
    ensures !d.Restored? ==> h.Value() == old(h.Value()) && h.head == old(h.head) && h.nodes == old(h.nodes)
  {
    if |ba| < 16 {
      return Panics;
    }
    if (|ba| - 16) % 12 != 0 {
      return BadLength;
    }
    if |ba| == 16 {
      return Panics;
    }
    var nh, nodes := SequenceFromBytes(ba[16..]);
    Pow256Sizes();
    h.head, h.nodes, h.runs := nh, nodes, DecodeRuns(ba[16..]);
    h.bits := GetBE(ba[..8]);
    h.unselected := GetBE(ba[8..16]);
    return Restored(h.bits, h.unselected, DecodeRuns(ba[16..]));
  }
}
