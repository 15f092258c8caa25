// Averages of integers: a quotient and a remainder updated value by value without overflow, and
// the average of a column that starts as a sum and falls back on them.
module Average {
  import opened Arithmetic
  import opened CTypes

  // The largest value of the type in which C subtracts two values of the type.
  function ArithmeticMax(k: Kind): int {
    if k == Lng then MAX_LNG else 0x7FFF_FFFF
  }

  predicate Storable(k: Kind, x: int) {
    -MaxOf(k) - 1 <= x <= MaxOf(k)
  }

  predicate Value(k: Kind, x: int) {
    -MaxOf(k) <= x <= MaxOf(k)
  }

  predicate Computable(k: Kind, x: int) {
    -ArithmeticMax(k) - 1 <= x <= ArithmeticMax(k)
  }

  // ------------------------------------------------------------------------------------------
  // Products.

  lemma Increment(z: int, n: int)
    ensures (z + 1) * n == z * n + n
  {
  }

  lemma Factor(d: int, z: int, rest: int, n: int, m: int)
    requires d == z * n + rest && n >= 2
    ensures rest >= 0 && d <= 2 * m && m >= 0 ==> z <= m
    ensures rest <= 0 && d >= -2 * m && m >= 0 ==> z >= -m
  {
    if z > m >= 0 {
      MulLe(m + 1, z, n);
      MulLe(2, n, m + 1);
    } else if z < -m <= 0 {
      MulLe(z, -m - 1, n);
      MulLe(2, n, m + 1);
      Increment(m, n);
    }
  }

  lemma QuotientBelow(a: int, r: int, m: int, n: int)
    requires n > 0 && r >= 0 && a * n + r <= m * n
    ensures a <= m
  {
    Increment(m, n);
    if a > m {
      MulLe(m + 1, a, n);
    }
  }

  lemma QuotientAbove(a: int, r: int, m: int, n: int)
    requires n > 0 && r < n && a * n + r >= m * n
    ensures a >= m
  {
    Increment(a, n);
    if a < m {
      MulLe(a + 1, m, n);
    }
  }

  // ------------------------------------------------------------------------------------------
  // C's division and its remainder round towards zero.

  function Quot(x: int, n: int): int
    requires n > 0
  {
    if x >= 0 then x / n else -(-x / n)
  }

  function Rem(x: int, n: int): (r: int)
    requires n > 0
    ensures -n < r < n
  {
    if x >= 0 then x % n else -(-x % n)
  }

  lemma DivMod(x: int, n: int)
    requires n > 0
    ensures x == Quot(x, n) * n + Rem(x, n)
  {
    assert (-x / n) * n == -(-(-x / n) * n);
  }

  lemma DivBound(x: int, n: int, m: int)
    requires n > 0 && 0 <= x <= m
    ensures 0 <= x / n <= m && (n >= 2 ==> 2 * (x / n) <= m) && 0 <= x % n <= m
  {
    var q := x / n;
    assert q * n + x % n == x;
    MulLe(0, q, n);
    MulLe(1, n, q);
    if n >= 2 {
      MulLe(2, n, q);
    }
  }

  lemma QuotRem(x: int, n: int, m: int)
    requires n > 0 && -m <= x <= m
    ensures -m <= Rem(x, n) <= m && -m <= Quot(x, n) <= m
    ensures n >= 2 ==> -m <= 2 * Quot(x, n) <= m
  {
    DivBound(if x >= 0 then x else -x, n, m);
  }

  // ------------------------------------------------------------------------------------------
  // One step.

  // What C subtracts in one step: the remainders of x and a by n.
  predicate StepFits(k: Kind, x: int, a: int, n: int)
    requires n > 0
  {
    Computable(k, Rem(x, n) - Rem(a, n))
  }

  ghost predicate AllStepsFit(k: Kind, n: int, lo: int, hi: int)
    requires n > 0
  {
    forall x: int, a: int :: lo <= x <= hi && lo <= a <= hi ==> StepFits(k, x, a, n)
  }

  // The largest difference of the remainders by n of two numbers between lo and hi is computable.
  predicate DifferenceFits(k: Kind, n: int, lo: int, hi: int) {
    Min(n - 1, Max(hi, 0)) + Min(n - 1, Max(-lo, 0)) <= ArithmeticMax(k)
  }

  // Numbers of one sign, or no further apart than the type is wide, always fit.
  lemma DifferenceFitsIff(k: Kind, n: int, lo: int, hi: int)
    requires n > 0 && -MaxOf(k) <= lo <= hi <= MaxOf(k)
    ensures DifferenceFits(k, n, lo, hi) <==> AllStepsFit(k, n, lo, hi)
    ensures lo >= 0 || hi <= 0 || hi - lo <= ArithmeticMax(k) ==> DifferenceFits(k, n, lo, hi)
  {
    if DifferenceFits(k, n, lo, hi) {
      forall x: int, a: int | lo <= x <= hi && lo <= a <= hi ensures StepFits(k, x, a, n) {
        RemBetween(x, n, lo, hi);
        RemBetween(a, n, lo, hi);
      }
    } else {
      var (x, a) := (Min(n - 1, hi), -Min(n - 1, -lo));
      SmallRem(x, n);
      SmallRem(-a, n);
      assert lo <= x <= hi && lo <= a <= hi && !StepFits(k, x, a, n);
    }
  }

  // Over all values of the type: always for one and two bytes, for the others up to 2^30 and 2^62.
  lemma WholeRangeFits(k: Kind, n: int)
    requires n > 0
    ensures AllStepsFit(k, n, -MaxOf(k), MaxOf(k)) <==>
            (k == Int ==> n <= 0x4000_0000) && (k == Lng ==> n <= 0x4000_0000_0000_0000)
  {
    hide AllStepsFit;
    DifferenceFitsIff(k, n, -MaxOf(k), MaxOf(k));
  }

  lemma RemBetween(x: int, n: int, lo: int, hi: int)
    requires n > 0 && lo <= x <= hi
    ensures -Min(n - 1, Max(-lo, 0)) <= Rem(x, n) <= Min(n - 1, Max(hi, 0))
  {
    if x >= 0 {
      DivBound(x, n, x);
    } else {
      DivBound(-x, n, -x);
    }
  }

  lemma SmallRem(x: int, n: int)
    requires 0 <= x < n
    ensures Rem(x, n) == x && Rem(-x, n) == -x
  {
    assert x / n == 0 && x % n == x;
  }

  // The division of x - a by n: the quotient fits the type, and the remainder is never negative
  // but can be n itself.
  method Divide(k: Kind, x: int, a: int, n: int) returns (z1: int, z2: int)
    requires n > 0 && Value(k, x) && Value(k, a) && (n == 1 ==> a == 0) && StepFits(k, x, a, n)
    ensures x - a == z1 * n + z2 && 0 <= z2 <= n && Storable(k, z1)
    ensures z2 == n <==> Rem(x, n) + n == Rem(a, n)
  {
    var an, xn := Quot(a, n), Quot(x, n);
    QuotRem(a, n, MaxOf(k));
    QuotRem(x, n, MaxOf(k));
    DivMod(a, n);
    DivMod(x, n);
    z1 := xn - an;
    assert Storable(k, z1);
    Difference(xn, an, n);
    xn, an := x - xn * n, a - an * n;
    assert xn == Rem(x, n) && an == Rem(a, n) && Storable(k, xn) && Storable(k, an) && Computable(k, xn - an);
    if xn >= an {
      z1, z2 := Upwards(k, x, a, n, z1, xn - an);
    } else {
      z1, z2 := Downwards(k, x, a, n, z1, an - xn);
    }
  }

  lemma Difference(a: int, b: int, n: int)
    ensures (a - b) * n == a * n - b * n
  {
  }

  // The loop for a difference of remainders that is not negative.
  method Upwards(k: Kind, x: int, a: int, n: int, q: int, d: int) returns (z1: int, z2: int)
    requires n > 0 && Value(k, x) && Value(k, a) && x - a == q * n + d && Storable(k, q)
    requires 0 <= d < 2 * n && (n == 1 ==> d == 0)
    ensures x - a == z1 * n + z2 && 0 <= z2 < n && Storable(k, z1)
  {
    z1, z2 := q, d;
    while z2 >= n
      invariant 0 <= z2 <= d && x - a == z1 * n + z2 && Storable(k, z1)
      decreases z2
    {
      Increment(z1, n);
      z2, z1 := z2 - n, z1 + 1;
      Factor(x - a, z1, z2, n, MaxOf(k));
    }
  }

  // The loop for a negative one: it may leave the remainder n.
  method Downwards(k: Kind, x: int, a: int, n: int, q: int, d: int) returns (z1: int, z2: int)
    requires n >= 2 && Value(k, x) && Value(k, a) && x - a == q * n - d && 0 < d < 2 * n
    requires q <= MaxOf(k)
    ensures x - a == z1 * n + z2 && 0 <= z2 <= n && Storable(k, z1)
    ensures z2 == n <==> d == n
  {
    z1, z2 := q, d;
    while true
      invariant 0 <= z2 <= d && x - a == z1 * n - z2 && z1 <= q && (z2 == d || z2 == d - n)
      decreases z2
    {
      Factor(x - a, z1, -z2, n, MaxOf(k));
      Increment(z1 - 1, n);
      z1 := z1 - 1;
      if z2 < n {
        z2 := n - z2;
        break;
      }
      z2 := z2 - n;
    }
  }

  // What a, r and n stand for: n values whose sum is a * n + r.
  predicate Running(k: Kind, a: int, r: int, n: int) {
    if n == 0 then a == 0 && r == 0
    else 0 <= r < n && -MaxOf(k) * n <= a * n + r <= MaxOf(k) * n
  }

  lemma RunningValue(k: Kind, a: int, r: int, n: int)
    requires n >= 0 && Running(k, a, r, n)
    ensures Value(k, a)
  {
    if n > 0 {
      QuotientBelow(a, r, MaxOf(k), n);
      QuotientAbove(a, r, -MaxOf(k), n);
    }
  }

  // AVERAGE_ITER.
  method Iterate(k: Kind, x: int, a: int, r: int, n: int) returns (a': int, r': int, n': int)
    requires n >= 0 && Running(k, a, r, n) && Value(k, x) && StepFits(k, x, a, n + 1)
    ensures n' == n + 1 && Running(k, a', r', n') && a' * n' + r' == a * n + r + x
  {
    RunningValue(k, a, r, n);
    n' := n + 1;
    var z1, z2 := Divide(k, x, a, n');
    StepSum(k, x, a, r, n, z1, z2);
    a', r' := a + z1, r + z2;
    assert Storable(k, a');
    if r' >= n' {
      Increment(a', n');
      r', a' := r' - n', a' + 1;
    }
  }

  // Adding the quotient and the remainder of x - a to a and r adds x to the sum.
  lemma StepSum(k: Kind, x: int, a: int, r: int, n: int, z1: int, z2: int)
    requires n >= 0 && Running(k, a, r, n) && Value(k, x) && x - a == z1 * (n + 1) + z2 && 0 <= z2 <= n + 1
    ensures (a + z1) * (n + 1) + (r + z2) == a * n + r + x
    ensures -MaxOf(k) * (n + 1) <= a * n + r + x <= MaxOf(k) * (n + 1)
    ensures Storable(k, a + z1) && 0 <= r + z2 <= 2 * n + 1
  {
    var (m, n', b) := (MaxOf(k), n + 1, a + z1);
    assert b * n' == a * n' + z1 * n';
    assert a * n' == a * n + a;
    assert m * n' == m * n + m;
    assert -m * n' == -m * n - m;
    QuotientBelow(b, r + z2, m, n');
    Increment(b, n');
    QuotientAbove(b + 1, r + z2 - n', -m, n');
  }
}
