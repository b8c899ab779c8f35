/** The few facts about products and quotients that the solver does not find by itself. */
module Arithmetic {

  lemma NotNegative(a: nat, b: nat)
    ensures a * b >= 0
  {
  }

  lemma MulAtLeast(a: int, k: nat)
    requires a >= 1
    ensures a * k >= k
  {
  }

  lemma DivModUnique(n: nat, k: nat, q: int, r: int)
    requires 0 <= r < k && n == q * k + r
    ensures n / k == q && n % k == r
  {
    var d := n / k - q;
    assert d * k == r - n % k by {
      assert n == n / k * k + n % k;
    }
    if d >= 1 {
      MulAtLeast(d, k);
    } else if d <= -1 {
      MulAtLeast(-d, k);
    }
  }

  lemma DivModStep(n: nat, k: nat)
    requires 0 < k <= n
    ensures n / k == (n - k) / k + 1 && n % k == (n - k) % k
  {
    var q := (n - k) / k;
    assert n - k == q * k + (n - k) % k;
    DivModUnique(n, k, q + 1, (n - k) % k);
  }
}
