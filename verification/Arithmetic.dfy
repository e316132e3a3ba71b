/** Powers of two, and that quotient and remainder are the only ones. */
module Arithmetic {
  function Pow2(k: nat): (p: nat)
    ensures p >= 1
  {
    if k == 0 then 1 else 2 * Pow2(k - 1)
  }

  lemma AtLeast(d: int, n: int)
    requires d >= 1 && n > 0
    ensures d * n >= n
  {
    assert d * n == (d - 1) * n + n && (d - 1) * n >= 0;
  }

  lemma Unique(x: int, n: int, q: int, r: int)
    requires n > 0 && x == q * n + r && 0 <= r < n
    ensures x / n == q && x % n == r
  {
    var p, s := x / n, x % n;
    var d := p - q;
    assert x == p * n + s;
    assert p * n == (q + d) * n == q * n + d * n;
    var e := -d;
    assert d * n == -(e * n);
    if d >= 1 {
      AtLeast(d, n);
    } else if e >= 1 {
      AtLeast(e, n);
    }
  }
}
