/** Products, kept apart so that the solver sees few of them at a time. */
module Arith {

  /** k * x, by repeated addition. */
  function Times(k: nat, x: int): int { if k == 0 then 0 else x + Times(k - 1, x) }

  lemma {:induction false} TimesIsProduct(k: nat, x: int)
    ensures Times(k, x) == k * x
  {
    if k > 0 {
      TimesIsProduct(k - 1, x);
      assert k * x == (k - 1) * x + x;
    }
  }

  lemma MulMono(a: int, b: int, x: nat)
    requires a <= b
    ensures a * x <= b * x
  {
    assert (b - a) * x >= 0;
    assert b * x == a * x + (b - a) * x;
  }

  lemma Affine(x: int, y: int, a: int, b: int)
    ensures x * (a * y + b) == a * (x * y) + b * x
  {
    calc {
      x * (a * y + b);
      x * (a * y) + x * b;
      (x * y) * a + x * b;
    }
  }

  lemma Swap(x: int, y: int)
    ensures x * y == y * x
  {
  }

  lemma NextTimes(x: int, y: int)
    ensures (x + 1) * y == x * y + y
  {
  }
}
