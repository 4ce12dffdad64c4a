/** The two facts about products that the page and polling counts rest on. */
module Arithmetic {

  lemma MulLe(a: int, b: int, c: int)
    requires a <= b && c >= 0
    ensures a * c <= b * c
  {
    assert (b - a) * c >= 0;
  }

  lemma CeilingBounds(n: int, d: int)
    requires d > 0
    ensures var q := (n + d - 1) / d; (q - 1) * d < n <= q * d
  {
    var q, m := (n + d - 1) / d, (n + d - 1) % d;
    assert n + d - 1 == q * d + m;
    assert (q - 1) * d == q * d - d;
  }
}
