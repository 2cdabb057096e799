/** The Lehmer generator of the benchmarks: multiplication modulo 2^31 - 1 by shift and mask. */
module Random {

  const M: nat := 2147483647
  const A: nat := 16807

  /** The inverse of the multiplier modulo M. */
  const A_INVERSE: nat := 1407677000

  predicate GoodSeed(s: int) {
    1 <= s <= M - 1
  }

  function NextSeed(s: nat): nat {
    s * A % M
  }

  /** Bits 31 and up, added to the 31 bits below. */
  function Folded(product: nat): nat {
    product / 0x8000_0000 + product % 0x8000_0000
  }

  /** Folding the high bits onto the low ones keeps the residue. */
  lemma FoldKeepsResidue(product: nat)
    ensures Folded(product) % M == product % M
  {
    var high, low := product / 0x8000_0000, product % 0x8000_0000;
    assert product == (high + low) + high * M;
    ModAddMultiple(high + low, high);
  }

  lemma {:induction false} ModAddMultiple(x: nat, k: nat)
    ensures (x + k * M) % M == x % M
  {
    if k > 0 {
      ModAddMultiple(x, k - 1);
      assert x + k * M == (x + (k - 1) * M) + M;
    }
  }

  lemma ModMul(x: nat, y: nat)
    ensures (x % M) * y % M == x * y % M
  {
    var q := x / M;
    assert x == x % M + q * M;
    calc {
      x * y;
      (x % M + q * M) * y;
      (x % M) * y + (q * M) * y;
      { assert (q * M) * y == (q * y) * M; }
      (x % M) * y + (q * y) * M;
    }
    ModAddMultiple((x % M) * y, q * y);
  }

  /** Multiplying by the inverse takes a step back. */
  lemma StepBack(s: nat)
    requires s < M
    ensures NextSeed(s) * A_INVERSE % M == s
  {
    ModMul(s * A, A_INVERSE);
    assert A * A_INVERSE == 1 + 11017 * M;
    calc {
      s * A * A_INVERSE;
      { assert s * A * A_INVERSE == s * (A * A_INVERSE); }
      s * (1 + 11017 * M);
      s + s * 11017 * M;
    }
    ModAddMultiple(s, s * 11017);
  }

  /** Good seeds lead to good seeds, different ones to different ones, and every one is reached. */
  lemma NextIsPermutation(s: nat, t: nat)
    requires GoodSeed(s) && GoodSeed(t)
    ensures GoodSeed(NextSeed(s))
    ensures NextSeed(s) == NextSeed(t) ==> s == t
    ensures exists p: nat :: GoodSeed(p) && NextSeed(p) == t
  {
    StepBack(s);
    StepBack(t);
    var p := t * A_INVERSE % M;
    ModMul(t * A_INVERSE, A);
    assert A_INVERSE * A == 1 + 11017 * M;
    calc {
      t * A_INVERSE * A;
      { assert t * A_INVERSE * A == t * (A_INVERSE * A); }
      t * (1 + 11017 * M);
      t + t * 11017 * M;
    }
    ModAddMultiple(t, t * 11017);
    assert NextSeed(p) == t;
    assert GoodSeed(p);
  }

  /**
   * The product fits 64 bits; its folding fits 32 bits and is never M itself, so that one
   * subtraction of M, if any, completes the reduction.
   */
  lemma OneSubtraction(s: nat)
    requires GoodSeed(s)
    ensures s * A < 0x1_0000_0000_0000_0000
    ensures Folded(s * A) < 0x1_0000_0000 && Folded(s * A) != M
    ensures NextSeed(s) == if Folded(s * A) > M then Folded(s * A) - M else Folded(s * A)
  {
    NextIsPermutation(s, s);
    FoldKeepsResidue(s * A);
    assert Folded(s * A) < 2 * M;
  }

  class Generator {
    var seed: nat

    ghost predicate Valid()
      reads this
    {
      GoodSeed(seed)
    }

    /** Keep 31 bits of the seed, and avoid the two seeds that the recurrence fixes. */
    constructor (s: nat)
      requires s < 0x1_0000_0000
      ensures Valid()
      ensures seed == var low := s % 0x8000_0000; if low == 0 || low == M then 1 else low
    {
      seed := s % 0x8000_0000;
      if s % 0x8000_0000 == 0 || s % 0x8000_0000 == M {
        seed := 1;
      }
    }

    /** Multiply, fold, and subtract M at most once. */
    method Next() returns (r: nat)
      requires Valid()
      modifies this
      ensures Valid() && seed == NextSeed(old(seed)) && r == seed
    {
      NextIsPermutation(seed, seed);
      OneSubtraction(seed);
      var product := seed * A;
      seed := product / 0x8000_0000 + product % 0x8000_0000;
      if seed > M {
        seed := seed - M;
      }
      r := seed;
    }
  }
}
