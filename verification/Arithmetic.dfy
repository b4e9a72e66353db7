/** Division by a number that is not fixed. */
module Arithmetic {
  lemma Multiples(d: int, n: int)
    requires n >= 0
    ensures d >= 1 ==> d * n >= n
    ensures d <= 0 ==> d * n <= 0
    ensures d <= -1 ==> d * n <= -n
  {
    if d >= 1 {
      assert d * n == (d - 1) * n + n;
    } else if d <= -1 {
      assert d * n == (d + 1) * n - n;
    }
  }

  /** Quotient and remainder are the only ones. */
  lemma Division(x: nat, q: nat, r: nat, n: nat)
    requires r < n && x == q * n + r
    ensures x / n == q && x % n == r
  {
    var d := x / n - q;
    assert x == x / n * n + x % n;
    assert d * n == x / n * n - q * n;
    Multiples(d, n);
  }
}
