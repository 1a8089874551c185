/** The smaller of two numbers, and products by adding. */
module Arithmetic {
  function Least(a: int, b: int): int {
    if a <= b then a else b
  }

  /** `n` times `k`, by adding. */
  function Multiple(k: nat, n: nat): nat {
    if n == 0 then 0 else Multiple(k, n - 1) + k
  }

  lemma {:induction false} MultipleIsProduct(k: nat, n: nat)
    ensures Multiple(k, n) == k * n
  {
    if n != 0 {
      MultipleIsProduct(k, n - 1);
    }
  }
}
