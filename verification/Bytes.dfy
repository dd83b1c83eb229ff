/** Numbers as big-endian byte strings. */
module Bytes {
  type byte = n: nat | n < 256

  function Pow256(n: nat): (r: nat)
    ensures r > 0
  {
    if n == 0 then 1 else 256 * Pow256(n - 1)
  }

  /** `v` in `n` bytes, most significant first. */
  function PutBE(v: nat, n: nat): (bs: seq<byte>)
    ensures |bs| == n
    decreases v, n
  {
    if n == 0 then [] else PutBE(v / 256, n - 1) + [v % 256]
  }

  function GetBE(bs: seq<byte>): (v: nat)
    ensures v < Pow256(|bs|)
  {
    if bs == [] then 0 else 256 * GetBE(bs[..|bs| - 1]) + bs[|bs| - 1]
  }

  lemma {:induction false} GetPutBE(v: nat, n: nat)
    requires v < Pow256(n)
    ensures GetBE(PutBE(v, n)) == v
    decreases n
  {
    if n > 0 {
      GetPutBE(v / 256, n - 1);
      assert PutBE(v, n)[..n - 1] == PutBE(v / 256, n - 1);
    }
  }

  lemma {:induction false} PutGetBE(bs: seq<byte>)
    ensures PutBE(GetBE(bs), |bs|) == bs
  {
    if bs != [] {
      PutGetBE(bs[..|bs| - 1]);
    }
  }

  lemma {:induction false} GetConcat(hi: seq<byte>, lo: seq<byte>)
    ensures GetBE(hi + lo) == Pow256(|lo|) * GetBE(hi) + GetBE(lo)
    decreases |lo|
  {
    if lo == [] {
      assert hi + lo == hi;
    } else {
      var n := |lo| - 1;
      var init, x := lo[..n], lo[n];
      GetConcat(hi, init);
      assert (hi + lo)[..|hi| + n] == hi + init;
      assert GetBE(hi + lo) == 256 * GetBE(hi + init) + x && GetBE(lo) == 256 * GetBE(init) + x;
      assert Pow256(|lo|) == 256 * Pow256(n);
      hide *;
      Scale(Pow256(n), GetBE(hi), GetBE(init), x);
    }
  }

  lemma Scale(p: nat, h: nat, l: nat, x: nat)
    ensures 256 * (p * h + l) + x == 256 * p * h + (256 * l + x)
  {
  }

  /** The last four bytes of a number, and the bytes before them. */
  lemma GetLast4(bs: seq<byte>)
    requires |bs| >= 4
    ensures GetBE(bs) / 0x1_0000_0000 == GetBE(bs[..|bs| - 4]) && GetBE(bs) % 0x1_0000_0000 == GetBE(bs[|bs| - 4..])
  {
    var n := |bs| - 4;
    assert bs == bs[..n] + bs[n..];
    GetConcat(bs[..n], bs[n..]);
    assert Pow256(4) == 0x1_0000_0000;
    hide *;
    HighLow(GetBE(bs), GetBE(bs[..n]), GetBE(bs[n..]));
  }

  lemma HighLow(x: nat, hi: nat, lo: nat)
    requires x == 0x1_0000_0000 * hi + lo && lo < 0x1_0000_0000
    ensures x / 0x1_0000_0000 == hi && x % 0x1_0000_0000 == lo
  {
  }

  lemma {:induction false} GetOnes(n: nat)
    ensures GetBE(seq(n, _ => 255)) == Pow256(n) - 1
  {
    if n > 0 {
      GetOnes(n - 1);
      assert seq(n, _ => 255)[..n - 1] == seq(n - 1, _ => 255);
    }
  }
}
