/**
 * Capacity rounding (memory_align_ceiling): every capacity the array holds is
 * a power of two, the smallest one that fits the requested slot count.
 */
module Align {

  /** x is 2^k for some k; 1 counts, as 2^0. */
  predicate IsPowerOfTwo(x: nat)
    decreases x
  {
    x == 1 || (x >= 2 && x % 2 == 0 && IsPowerOfTwo(x / 2))
  }

  /**
   * The power-of-two ceiling of n: 1 for n <= 1, otherwise the power of two
   * in [n, 2n). There is only one power of two in such a range, so the
   * contract fixes the result; CeilPow2IsLeast states minimality directly.
   */
  function CeilPow2(n: nat): (r: nat)
    decreases n
    ensures IsPowerOfTwo(r)
    ensures 1 <= r && n <= r
    ensures n <= 1 ==> r == 1
    ensures 2 <= n ==> r < 2 * n
  {
    if n <= 1 then 1 else 2 * CeilPow2((n + 1) / 2)
  }

  /** Two distinct powers of two are at least a factor of two apart. */
  lemma {:induction false} PowersOfTwoSpaced(p: nat, q: nat)
    requires IsPowerOfTwo(p) && IsPowerOfTwo(q) && p < q
    ensures 2 * p <= q
    decreases p
  {
    if p != 1 {
      PowersOfTwoSpaced(p / 2, q / 2);
    }
  }

  /** No power of two that holds n slots is smaller than CeilPow2(n). */
  lemma CeilPow2IsLeast(n: nat, p: nat)
    requires IsPowerOfTwo(p) && n <= p
    ensures CeilPow2(n) <= p
  {
    var r := CeilPow2(n);
    if p < r {
      PowersOfTwoSpaced(p, r);
    }
  }

  /** A power of two is its own ceiling: rounding is idempotent. */
  lemma {:induction false} CeilPow2OfPowerOfTwo(p: nat)
    requires IsPowerOfTwo(p)
    ensures CeilPow2(p) == p
  {
    CeilPow2IsLeast(p, p);
  }

  /** Regrouping a product, stated once so the solver need not search for it. */
  lemma MulAssoc(a: nat, b: nat, c: nat)
    ensures a * (b * c) == (a * b) * c
  {
  }

  /** One shift of the loop below: halving the rest doubles the part already aligned. */
  lemma AlignStep(aligned: nat, rest: nat)
    requires 1 <= rest
    ensures aligned * CeilPow2(rest + 1) == (aligned * 2) * CeilPow2(rest / 2 + 1)
  {
    var half := CeilPow2(rest / 2 + 1);
    assert (rest + 2) / 2 == rest / 2 + 1;
    assert CeilPow2(rest + 1) == 2 * half;
    calc {
      aligned * CeilPow2(rest + 1);
      aligned * (2 * half);
      { MulAssoc(aligned, 2, half); }
      (aligned * 2) * half;
    }
  }

  /**
   * memory_align_ceiling, with its shifting loop. The C loop condition
   * `size >>= 1 != 0` parses as `size >>= (1 != 0)`, that is a shift by one
   * whose result is tested against zero; the loop below shifts, then tests.
   */
  method AlignCeiling(size: nat) returns (aligned: nat)
    ensures aligned == CeilPow2(size)
  {
    if size <= 1 {
      return 1;
    }
    aligned := 2;
    var rest: nat := (size - 1) / 2;
    while rest != 0
      invariant aligned * CeilPow2(rest + 1) == CeilPow2(size)
      decreases rest
    {
      AlignStep(aligned, rest);
      aligned := aligned * 2;
      rest := rest / 2;
    }
  }
}
