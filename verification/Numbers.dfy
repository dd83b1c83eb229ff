/** Division, remainders and powers of two. */
module Numbers {
  import opened Blocks

  lemma DivMul(q: nat, p: nat)
    requires p > 0
    ensures (p * q) % p == 0 && (p * q) / p == q
  {
    assert p * q == p * q + 0;
    MulDivMod(p, q, 0);
  }

  lemma {:induction false} MulDivMod(p: nat, q: nat, r: nat)
    requires r < p
    ensures (p * q + r) / p == q && (p * q + r) % p == r
    decreases q
  {
    if q > 0 {
      MulDivMod(p, q - 1, r);
      assert p * q + r == p * (q - 1) + r + p;
      AddDivisor(p * (q - 1) + r, p);
    }
  }

  lemma AddDivisor(x: nat, p: nat)
    requires p > 0
    ensures (x + p) / p == x / p + 1 && (x + p) % p == x % p
  {
    var t := (x + p) / p - x / p - 1;
    var d := x % p - (x + p) % p;
    assert p * t == d;
    SmallMultiple(p, t);
  }

  lemma SmallMultiple(p: int, t: int)
    requires -p < p * t < p
    ensures t == 0
  {
  }

  /** A multiple of `a * b` is `a` times a multiple of `b`. */
  lemma SplitMultiple(x: nat, a: nat, b: nat)
    requires a > 0 && b > 0 && a * b > 0 && x % (a * b) == 0
    ensures x % a == 0 && (x / a) % b == 0
  {
    var q := x / (a * b);
    assert x == a * b * q;
    assert x == a * (b * q);
    DivMul(b * q, a);
    DivMul(q, b);
  }

  lemma {:induction false} Pow2Add(a: nat, b: nat)
    ensures Pow2(a + b) == Pow2(a) * Pow2(b)
  {
    if a > 0 {
      Pow2Add(a - 1, b);
    }
  }

  lemma Pow2At8()
    ensures Pow2(8) == 256
  {
  }

  lemma {:induction false} Pow2Mono(a: nat, b: nat)
    requires a <= b
    ensures Pow2(a) <= Pow2(b)
  {
    if a < b {
      Pow2Mono(a, b - 1);
    }
  }

  lemma Distribute(p: nat, a: nat, b: nat)
    ensures p * (a + b) == p * a + p * b
  {
  }

  lemma Associate(p: nat, q: nat, a: nat)
    ensures p * q * a == p * (q * a)
  {
  }

  lemma MulMono(p: nat, a: nat, b: nat)
    requires a <= b
    ensures p * a <= p * b
  {
  }

  /** Dividing by a product is dividing twice. */
  lemma DivDiv(x: nat, p: nat, q: nat)
    requires p > 0 && q > 0 && p * q > 0
    ensures x / (p * q) == x / p / q
  {
    var a, r := x / (p * q), x % (p * q);
    var b, t := r / p, r % p;
    NestedDivision(p, q, a, b, t, r, x);
    QuotientBelow(r, p, q);
    MulDivMod(q, a, b);
  }

  lemma NestedDivision(p: nat, q: nat, a: nat, b: nat, t: nat, r: nat, x: nat)
    requires t < p && r == p * b + t && x == p * q * a + r
    ensures x / p == q * a + b
  {
    Associate(p, q, a);
    Distribute(p, q * a, b);
    MulDivMod(p, q * a + b, t);
  }

  lemma QuotientBelow(r: nat, p: nat, q: nat)
    requires p > 0 && r < p * q
    ensures r / p < q
  {
    if r / p >= q {
      MulMono(p, q, r / p);
    }
  }
}
