// Elementary arithmetic that several parts share.
module Arithmetic {
  function Min(a: int, b: int): int {
    if a <= b then a else b
  }

  function Max(a: int, b: int): int {
    if a >= b then a else b
  }

  lemma MulLe(a: int, b: int, n: int)
    requires a <= b && n >= 0
    ensures a * n <= b * n
  {
  }

  // Quotient and remainder of a division are unique.
  lemma DivisionIs(x: int, p: int, q: int)
    requires p > 0 && q * p <= x < q * p + p
    ensures x % p == x - q * p && x / p == q
  {
    var r := x - q * p;
    assert x == q * p + r;
    var d := x / p - q;
    assert d * p == r - x % p;
    assert d >= 1 ==> d * p >= p;
    assert d <= -1 ==> d * p <= -1 * p;
  }

  lemma ModSum(a: int, b: int, m: int)
    requires m > 0
    ensures (a + b) % m == (a % m + b) % m
  {
    var (r, q) := ((a % m + b) % m, (a % m + b) / m);
    assert a == a / m * m + a % m && a % m + b == q * m + r;
    assert (a / m + q) * m == a / m * m + q * m;
    DivisionIs(a + b, m, a / m + q);
  }
}
