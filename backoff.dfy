/** Exponential backoff: both scrapers sleep a power of two seconds between attempts. */
module Backoff {

  /** 2^k, the integer the source computes with `Math.pow(2, k)` / `2 ** k`. */
  function Pow2(k: nat): (r: nat)
    ensures r >= 1
  {
    if k == 0 then 1 else 2 * Pow2(k - 1)
  }

  /** The exponent law: waiting `a + b` steps multiplies the two waits. */
  lemma {:induction false} Pow2Add(a: nat, b: nat)
    ensures Pow2(a + b) == Pow2(a) * Pow2(b)
    decreases a
  {
    if a > 0 {
      Pow2Add(a - 1, b);
      assert Pow2(a + b) == 2 * Pow2(a - 1 + b);
    }
  }

  /** Each further attempt doubles the wait. */
  lemma Pow2Doubles(k: nat)
    ensures Pow2(k + 1) == 2 * Pow2(k)
  {
    Pow2Add(k, 1);
  }
}
