/** The few facts about integer division that the solver does not find by itself. */
module Arith {
  lemma DivisionIsUnique(x: int, n: nat, q: int, r: int)
    requires 1 <= n && 0 <= r < n && x == n * q + r
    ensures x / n == q && x % n == r
  {
    var d := x / n - q;
    assert n * d == r - x % n;
    assert n * d < n && n * d + n > 0;
  }

  lemma CancelFactor(p: nat, a: int, b: int)
    requires p * a < p * b
    ensures a < b
  {
    assert p * (b - a) == p * b - p * a;
  }

  lemma FactorLess(p: nat, c: int, n: int)
    requires c < n
    ensures p * c + p <= p * n
  {
    var d := n - 1 - c;
    assert p * n == p * c + p * d + p;
  }
}
