/**
  Products of integers, kept behind a function so that the proofs about them stay small.
 */
module Products {

  function Times(a: int, d: int): int { a * d }

  lemma TimesLinear(a: int, b: int, d: int)
    ensures Times(a + b, d) == Times(a, d) + Times(b, d)
  {
  }

  lemma TimesBound(a: int, d: int)
    requires d > 0 && -d < Times(a, d) < d
    ensures a == 0
  {
    hide Times;
    if a > 0 {
      NonNegative(a - 1, d);
      TimesLinear(a - 1, 1, d);
    } else if a < 0 {
      NonNegative(-1 - a, d);
      TimesLinear(-1 - a, 1 + a, d);
      TimesLinear(a, 1, d);
    }
  }

  lemma TimesIs(a: int, d: int)
    ensures Times(a, d) == a * d
  {
  }

  lemma NonNegative(a: nat, d: nat)
    ensures Times(a, d) >= 0 && Times(0, d) == 0 && Times(1, d) == d
  {
  }

  /** Quotient and remainder are the only such pair. */
  lemma PartsUnique(i: nat, d: nat, j: int, k: int)
    requires d > 0 && i == Times(j, d) + k && 0 <= k < d
    ensures i / d == j && i % d == k
  {
    var q, r := i / d, i % d;
    Parts(i, d);
    TimesLinear(j - q, q, d);
    TimesBound(j - q, d);
  }

  lemma Parts(i: nat, d: nat)
    requires d > 0
    ensures i == Times(i / d, d) + i % d && 0 <= i % d < d
  {
  }

  lemma TimesMonotone(a: int, b: int, d: nat)
    requires a <= b
    ensures Times(a, d) <= Times(b, d)
  {
    NonNegative(b - a, d);
    TimesLinear(b - a, a, d);
  }

  function Pow2(n: nat): nat { if n == 0 then 1 else 2 * Pow2(n - 1) }

  lemma {:induction false} Pow2Sum(a: nat, b: nat)
    ensures Pow2(a + b) == Pow2(a) * Pow2(b)
    ensures Pow2(a) <= Pow2(a + b)
  {
    if b > 0 {
      Pow2Sum(a, b - 1);
      assert Pow2(a + b) == 2 * Pow2(a + (b - 1));
    }
  }

  lemma Pow2Monotone(a: nat, b: nat)
    requires a <= b
    ensures Pow2(a) <= Pow2(b)
  {
    hide Pow2;
    Pow2Sum(a, b - a);
  }
}
