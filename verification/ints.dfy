/** Integer helpers shared by the crop geometry and the name generator. */
module Ints {

  function Min(a: int, b: int): int { if a <= b then a else b }

  function Max(a: int, b: int): int { if a >= b then a else b }

  /** One more copy of `k`: `k + (n - 1) * k == n * k`. */
  lemma OneMoreCopy(n: int, k: int)
    ensures k + (n - 1) * k == n * k
  {
    assert n * k == (n - 1) * k + k;
  }
}
