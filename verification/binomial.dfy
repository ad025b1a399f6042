/** Binomial coefficients, the values Pascal's triangle is meant to hold, defined by
    Pascal's rule and tied to the factorial formula n! / (k! (n-k)!). */
module Binomial {
  import opened Arith

  /** C(n, k), with C(n, k) == 0 when k > n. */
  function Choose(n: nat, k: nat): (r: nat)
  {
    if k == 0 then 1
    else if n == 0 then 0
    else Choose(n - 1, k - 1) + Choose(n - 1, k)
  }

  function Factorial(n: nat): (r: nat)
    ensures r >= 1
  {
    if n == 0 then 1 else n * Factorial(n - 1)
  }

  /** There is no way to choose more elements than there are. */
  lemma {:induction false} ChooseAboveIsZero(n: nat, k: nat)
    requires k > n
    ensures Choose(n, k) == 0
  {
    if n > 0 {
      ChooseAboveIsZero(n - 1, k - 1);
      ChooseAboveIsZero(n - 1, k);
    }
  }

  /** The right edge of the triangle: C(n, n) == 1. */
  lemma {:induction false} ChooseDiagonal(n: nat)
    ensures Choose(n, n) == 1
  {
    if n > 0 {
      ChooseDiagonal(n - 1);
      ChooseAboveIsZero(n - 1, n);
    }
  }

  /** The factorial characterisation: C(n, k) * k! * (n-k)! == n!, stated without
      division so that it needs no divisibility argument. */
  lemma {:induction false} ChooseTimesFactorials(n: nat, k: nat)
    requires k <= n
    ensures Choose(n, k) * Factorial(k) * Factorial(n - k) == Factorial(n)
  {
    if k == 0 {
    } else if k == n {
      ChooseDiagonal(n);
    } else {
      ChooseTimesFactorials(n - 1, k - 1);
      ChooseTimesFactorials(n - 1, k);
      PascalRuleScaled(Choose(n - 1, k - 1), Choose(n - 1, k), k, n - k,
        Factorial(k - 1), Factorial(n - k - 1), Factorial(n - 1));
    }
  }

  /** The algebra behind one step of the factorial characterisation: writing k! as
      k * (k-1)! and (n-k)! as (n-k) * (n-k-1)!, the two halves of Pascal's rule
      contribute k * (n-1)! and (n-k) * (n-1)!. */
  lemma PascalRuleScaled(a: int, b: int, k: int, m: int, fk: int, fm: int, f: int)
    requires a * fk * (m * fm) == f
    requires b * (k * fk) * fm == f
    ensures (a + b) * (k * fk) * (m * fm) == (k + m) * f
  {
    calc {
      (a + b) * (k * fk) * (m * fm);
      a * (k * fk) * (m * fm) + b * (k * fk) * (m * fm);
      k * (a * fk * (m * fm)) + m * (b * (k * fk) * fm);
      k * f + m * f;
    }
  }

  /** Rows of the triangle read the same in both directions. */
  lemma ChooseSymmetric(n: nat, k: nat)
    requires k <= n
    ensures Choose(n, k) == Choose(n, n - k)
  {
    ChooseTimesFactorials(n, k);
    ChooseTimesFactorials(n, n - k);
    assert n - (n - k) == k;
    SameCofactor(Choose(n, k), Choose(n, n - k), Factorial(k), Factorial(n - k), Factorial(n));
  }

  /** Two numbers that give the same product with the same positive factors are equal. */
  lemma SameCofactor(x: nat, y: nat, fa: nat, fb: nat, f: nat)
    requires fa > 0 && fb > 0
    requires x * fa * fb == f && y * fb * fa == f
    ensures x == y
  {
    var p := fa * fb;
    assert p > 0 by { PositiveProduct(fa, fb); }
    assert x * p == f;
    assert y * p == f;
    CancelFactor(x, y, p);
  }

  lemma PositiveProduct(a: nat, b: nat)
    requires a > 0 && b > 0
    ensures a * b > 0
  {
  }

  lemma CancelFactor(x: nat, y: nat, p: nat)
    requires p > 0 && x * p == y * p
    ensures x == y
  {
    if x < y {
      assert (x + 1) * p == x * p + p;
      MulMonotonic(x + 1, y, p);
    } else if y < x {
      assert (y + 1) * p == y * p + p;
      MulMonotonic(y + 1, x, p);
    }
  }
}
