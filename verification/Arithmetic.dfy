/** Facts about products, division and finite sets that several modules need. */
module Arithmetic {
  lemma AtLeastOnce(x: nat, k: int)
    ensures k >= 1 ==> x * k >= x
  {
    if k >= 1 {
      assert x * k == x + x * (k - 1);
      assert x * (k - 1) >= 0;
    }
  }

  /** Quotient and remainder are the only way to write t as x * q + z with z below x. */
  lemma DivModUnique(t: int, x: nat, q: int, z: nat)
    requires z < x && t == x * q + z
    ensures t / x == q && t % x == z
  {
    var d, r := t / x, t % x;
    assert t == x * d + r;
    AtLeastOnce(x, q - d);
    AtLeastOnce(x, d - q);
    assert x * (q - d) == x * q - x * d;
    assert x * (d - q) == x * d - x * q;
  }

  lemma DivisionIsMonotone(a: nat, b: nat, d: nat)
    requires a <= b && d > 0
    ensures a / d <= b / d
  {
    var q, q' := a / d, b / d;
    assert a == d * q + a % d && b == d * q' + b % d;
    AtLeastOnce(d, q - q');
    assert d * (q - q') == d * q - d * q';
  }

  function Pow2(n: nat): (p: nat)
    ensures p > 0
  {
    if n == 0 then 1 else 2 * Pow2(n - 1)
  }

  lemma SubsetCard<T>(s: set<T>, u: set<T>)
    requires s <= u
    ensures |s| <= |u|
  {
    assert u == s + (u - s);
  }
}
