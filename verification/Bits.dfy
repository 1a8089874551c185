/** Powers of two, and the low and high bits of a natural number.

    `Low(x, k)` is `x & ((1 << k) - 1)` and `High(x, k)` is `x >> k`. Both are defined one bit
    at a time, so that proofs only meet division by the literal 2; `LowHighArithmetic` says
    what they are in terms of division and remainder. */
module Bits {
  function Pow2(k: nat): (p: nat)
    ensures 0 < p
  {
    if k == 0 then 1 else 2 * Pow2(k - 1)
  }

  function Low(x: nat, k: nat): nat {
    if k == 0 then 0 else x % 2 + 2 * Low(x / 2, k - 1)
  }

  function High(x: nat, k: nat): nat {
    if k == 0 then x else High(x / 2, k - 1)
  }

  function Bit(x: nat, k: nat): nat {
    High(x, k) % 2
  }

  /** `x ^ (1 << k)`. */
  function Flip(x: nat, k: nat): nat {
    if k == 0 then (if x % 2 == 0 then x + 1 else x - 1)
    else x % 2 + 2 * Flip(x / 2, k - 1)
  }

  lemma {:induction false} Pow2Monotone(k: nat, m: nat)
    requires k <= m
    ensures Pow2(k) <= Pow2(m)
    decreases m
  {
    if k < m {
      Pow2Monotone(k, m - 1);
    }
  }

  lemma {:induction false} LowBound(x: nat, k: nat)
    ensures Low(x, k) < Pow2(k)
  {
    if 0 < k {
      LowBound(x / 2, k - 1);
    }
  }

  lemma {:induction false} LowHighSplit(x: nat, k: nat)
    ensures x == Low(x, k) + Pow2(k) * High(x, k)
  {
    if 0 < k {
      LowHighSplit(x / 2, k - 1);
      TwiceProduct(Pow2(k - 1), High(x / 2, k - 1));
    }
  }

  lemma TwiceProduct(a: nat, b: nat)
    ensures (2 * a) * b == 2 * (a * b)
  {
  }

  lemma {:induction false} LowHighArithmetic(x: nat, k: nat)
    ensures Low(x, k) == x % Pow2(k)
    ensures High(x, k) == x / Pow2(k)
  {
    LowBound(x, k);
    LowHighSplit(x, k);
    DivModUnique(x, Pow2(k), High(x, k), Low(x, k));
  }

  lemma DivModUnique(x: nat, d: nat, q: nat, r: nat)
    requires r < d
    requires x == r + d * q
    ensures q == x / d && r == x % d
  {
    var delta: int := q - x / d;
    assert d * delta == x % d - r;
    assert 0 < delta ==> d <= d * delta;
    assert delta < 0 ==> d * delta + d <= 0;
  }

  lemma {:induction false} LowOfLow(x: nat, k: nat, m: nat)
    requires k <= m
    ensures Low(Low(x, m), k) == Low(x, k)
  {
    if 0 < k {
      LowOfLow(x / 2, k - 1, m - 1);
    }
  }

  lemma {:induction false} LowFixed(x: nat, k: nat)
    requires x < Pow2(k)
    ensures Low(x, k) == x
  {
    if 0 < k {
      LowFixed(x / 2, k - 1);
    }
  }

  lemma {:induction false} LowStep(x: nat, k: nat)
    ensures Low(x, k + 1) == Low(x, k) + (if Bit(x, k) == 1 then Pow2(k) else 0)
  {
    if 0 < k {
      LowStep(x / 2, k - 1);
    }
  }

  /** Adding `2^g` changes no bit below `g`, and sets bit `g` of a number below `2^g`. */
  lemma {:induction false} LowAddPow2(x: nat, k: nat, g: nat)
    requires k <= g
    ensures Low(x + Pow2(g), k) == Low(x, k)
  {
    if 0 < k {
      assert (x + Pow2(g)) / 2 == x / 2 + Pow2(g - 1);
      LowAddPow2(x / 2, k - 1, g - 1);
    }
  }

  lemma {:induction false} SameLowAndHigh(x: nat, y: nat, k: nat)
    requires Low(x, k) == Low(y, k) && High(x, k) == High(y, k)
    ensures x == y
  {
    if 0 < k {
      SameLowAndHigh(x / 2, y / 2, k - 1);
    }
  }

  /** Flipping bit `k` keeps the lower bits, changes the low `k + 1`, and stays below `2^g`. */
  lemma {:induction false} FlipBits(x: nat, k: nat)
    ensures Low(Flip(x, k), k) == Low(x, k)
    ensures Bit(Flip(x, k), k) == 1 - Bit(x, k)
    ensures Low(Flip(x, k), k + 1) != Low(x, k + 1)
  {
    if 0 < k {
      FlipBits(x / 2, k - 1);
      assert Flip(x, k) / 2 == Flip(x / 2, k - 1);
    }
  }

  lemma {:induction false} FlipBound(x: nat, k: nat, g: nat)
    requires x < Pow2(g) && k < g
    ensures Flip(x, k) < Pow2(g)
  {
    if 0 < k {
      FlipBound(x / 2, k - 1, g - 1);
    }
  }
}
