/** Minimum and maximum, and facts about quotients and remainders that the solver does not find by
    itself. */
module Integers {

  function Min(a: int, b: int): int {
    if a < b then a else b
  }

  function Max(a: int, b: int): int {
    if a < b then b else a
  }

  lemma MulBig(k: int, d: int)
    requires 0 < d
    ensures k >= 1 ==> k * d >= d
    ensures k <= -1 ==> k * d <= -d
    ensures k >= 0 ==> k * d >= 0
  {
  }

  lemma DivBelow(i: int, a: int, b: int)
    requires 0 <= i < a * b && 0 < b
    ensures 0 <= i / b < a
  {
    var q := i / b;
    assert i == q * b + i % b;
    assert (q - a) * b == q * b - a * b;
    MulBig(q - a, b);
    if q == a {
      assert false;
    }
  }

  lemma DivIs(n: int, d: int, q: int, r: int)
    requires 0 < d && n == q * d + r && 0 <= r < d
    ensures n / d == q && n % d == r
  {
    var q', r' := n / d, n % d;
    assert n == q' * d + r';
    assert (q' - q) * d == q' * d - q * d;
    MulBig(q' - q, d);
  }

  lemma ModOfMultiple(q: int, d: int)
    requires 0 < d
    ensures (q * d) % d == 0
  {
    DivIs(q * d, d, q, 0);
  }
}
