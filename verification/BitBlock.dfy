/**
 A block is one 32-bit symbol of the bit sequence, a number below 2^32. Its bits
 are its binary digits, the most significant one first; a selector mask with a
 single bit set is written as the index of that bit.
 */
module Blocks {
  const BLOCK_LIMIT: nat := 0x1_0000_0000

  type Block = n: nat | n < BLOCK_LIMIT

  const BLOCK_MAX: Block := 0xFFFF_FFFF

  function Pow2(n: nat): (r: nat)
    ensures r > 0
  {
    if n == 0 then 1 else 2 * Pow2(n - 1)
  }

  /** The `w` low binary digits of `n`, the most significant one first. */
  function Digits(n: nat, w: nat): (ds: seq<bool>)
    ensures |ds| == w
    decreases n, w
  {
    if w == 0 then [] else Digits(n / 2, w - 1) + [n % 2 == 1]
  }

  function Value(ds: seq<bool>): (n: nat)
    ensures n < Pow2(|ds|)
  {
    if ds == [] then 0
    else 2 * Value(ds[..|ds| - 1]) + if ds[|ds| - 1] then 1 else 0
  }

  lemma {:induction false} DigitsValue(ds: seq<bool>)
    ensures Digits(Value(ds), |ds|) == ds
  {
    if ds != [] {
      DigitsValue(ds[..|ds| - 1]);
    }
  }

  lemma {:induction false} ValueDigits(n: nat, w: nat)
    requires n < Pow2(w)
    ensures Value(Digits(n, w)) == n
    decreases w
  {
    if w > 0 {
      ValueDigits(n / 2, w - 1);
      assert Digits(n, w)[..w - 1] == Digits(n / 2, w - 1);
    }
  }

  lemma Pow2At32()
    ensures Pow2(32) == BLOCK_LIMIT
  {
    assert Pow2(8) == 256;
    assert Pow2(16) == 0x1_0000;
    assert Pow2(24) == 0x100_0000;
  }

  function Bits(b: Block): (ds: seq<bool>)
    ensures |ds| == 32
  {
    Digits(b, 32)
  }

  predicate Bit(b: Block, i: nat)
    requires i < 32
  {
    Bits(b)[i]
  }

  /** The block with bit `i` cleared (release) or set (reserve). */
  function WithBit(b: Block, i: nat, release: bool): (r: Block)
    requires i < 32
  {
    Pow2At32();
    Value(Bits(b)[i := !release])
  }

  /** Setting or clearing a bit changes that bit and no other. */
  lemma WithBitBits(b: Block, i: nat, release: bool)
    requires i < 32
    ensures Bits(WithBit(b, i, release)) == Bits(b)[i := !release]
  {
    DigitsValue(Bits(b)[i := !release]);
  }

  /** A block is determined by its 32 bits. */
  lemma BlockExtensional(a: Block, b: Block)
    requires Bits(a) == Bits(b)
    ensures a == b
  {
    Pow2At32();
    ValueDigits(a, 32);
    ValueDigits(b, 32);
  }

  lemma {:induction false} AllOnes(w: nat)
    ensures Digits(Pow2(w) - 1, w) == seq(w, _ => true)
  {
    if w > 0 {
      AllOnes(w - 1);
      assert (Pow2(w) - 1) / 2 == Pow2(w - 1) - 1;
      assert (Pow2(w) - 1) % 2 == 1;
    }
  }

  lemma {:induction false} AllZeros(w: nat)
    ensures Digits(0, w) == seq(w, _ => false)
  {
    if w > 0 {
      AllZeros(w - 1);
    }
  }

  lemma AllSet(n: nat, w: nat)
    requires n < Pow2(w)
    ensures n == Pow2(w) - 1 <==> Digits(n, w) == seq(w, _ => true)
  {
    AllOnes(w);
    ValueDigits(n, w);
    ValueDigits(Pow2(w) - 1, w);
  }

  /** The full block has every bit set, and it is the only one. */
  lemma FullBlock(b: Block)
    ensures b == BLOCK_MAX <==> Bits(b) == seq(32, _ => true)
  {
    Pow2At32();
    AllSet(b, 32);
  }

  lemma EmptyBlock(i: nat)
    requires i < 32
    ensures !Bit(0, i)
  {
    AllZeros(32);
  }
}
