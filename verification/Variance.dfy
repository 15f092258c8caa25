// The one-pass variance of a column, over the reals.
module Variance {

  // A value of a column.
  datatype Item = Nil | Number(x: real)

  datatype Estimate = Undefined | Estimate(value: real)

  function Numbers(items: seq<Item>): seq<real> {
    if items == [] then []
    else
      var last := items[|items| - 1];
      Numbers(items[..|items| - 1]) + if last == Nil then [] else [last.x]
  }

  function Sum(vs: seq<real>): real {
    if vs == [] then 0.0 else Sum(vs[..|vs| - 1]) + vs[|vs| - 1]
  }

  function Square(x: real): (r: real)
    ensures r >= 0.0
  {
    x * x
  }

  function Divide(x: real, n: int): real
    requires n > 0
  {
    x / n as real
  }

  // The sum of the squared deviations from c.
  function Deviations(vs: seq<real>, c: real): (d: real)
    ensures d >= 0.0
  {
    if vs == [] then 0.0 else Deviations(vs[..|vs| - 1], c) + Square(vs[|vs| - 1] - c)
  }

  // The definition in two passes: the mean first, then the deviations from it.
  function Mean(vs: seq<real>): Estimate {
    if vs == [] then Undefined else Estimate(Divide(Sum(vs), |vs|))
  }

  function TwoPass(vs: seq<real>, issample: bool): Estimate {
    var less := if issample then 1 else 0;
    if |vs| <= less then Undefined else Estimate(Divide(Deviations(vs, Mean(vs).value), |vs| - less))
  }

  // m is the mean of n values whose sum is s.
  ghost predicate MeanOf(m: real, n: nat, s: real) {
    n as real * m == s
  }

  // What moving from d to c adds to the deviations of n values with sum s.
  function Shift(c: real, d: real, s: real, n: real): real {
    (d - c) * (2.0 * s - n * (c + d))
  }

  lemma {:induction false} DeviationsFrom(vs: seq<real>, c: real, d: real)
    ensures Deviations(vs, c) == Deviations(vs, d) + Shift(c, d, Sum(vs), |vs| as real)
  {
    if vs == [] {
      NoShift(c, d);
    } else {
      hide Square;
      hide Shift;
      var (front, x) := (vs[..|vs| - 1], vs[|vs| - 1]);
      DeviationsFrom(front, c, d);
      ShiftMore(x, c, d, Sum(front), |front| as real);
    }
  }

  lemma NoShift(c: real, d: real)
    ensures Shift(c, d, 0.0, 0.0) == 0.0
  {
  }

  lemma ShiftMore(x: real, c: real, d: real, s: real, n: real)
    ensures Shift(c, d, s, n) + Square(x - c) == Square(x - d) + Shift(c, d, s + x, n + 1.0)
  {
    var t := 2.0 * s - n * (c + d);
    assert 2.0 * (s + x) - (n + 1.0) * (c + d) == t + (2.0 * x - (c + d));
    assert (d - c) * (t + (2.0 * x - (c + d))) == (d - c) * t + (d - c) * (2.0 * x - (c + d));
    assert (d - c) * (2.0 * x - (c + d)) == Square(x - c) - Square(x - d);
  }

  // The mean is the point from which the deviations are least.
  lemma MeanIsBest(vs: seq<real>, m: real, c: real)
    requires MeanOf(m, |vs|, Sum(vs))
    ensures Deviations(vs, c) == Deviations(vs, m) + |vs| as real * Square(m - c)
  {
    hide Deviations;
    hide Square;
    hide Shift;
    DeviationsFrom(vs, c, m);
    ShiftFromMean(c, m, Sum(vs), |vs|);
  }

  lemma ShiftFromMean(c: real, m: real, s: real, k: nat)
    requires MeanOf(m, k, s)
    ensures Shift(c, m, s, k as real) == k as real * Square(m - c)
  {
    var n := k as real;
    assert 2.0 * (n * m) - n * (c + m) == n * (m - c);
    assert (m - c) * (n * (m - c)) == n * ((m - c) * (m - c));
  }

  // One more value: the mean moves by its n-th part, the deviations grow by the product of the
  // distances from the old and from the new mean.
  lemma WelfordStep(vs: seq<real>, x: real, mean: real, mean': real)
    requires MeanOf(mean, |vs|, Sum(vs))
    requires mean' == mean + Divide(x - mean, |vs| + 1)
    ensures MeanOf(mean', |vs| + 1, Sum(vs + [x]))
    ensures Deviations(vs + [x], mean') == Deviations(vs, mean) + (x - mean) * (x - mean')
  {
    hide Divide;
    hide MeanOf;
    hide Square;
    hide Sum;
    hide Deviations;
    OneMore(vs, x, mean');
    MeanMoves(|vs|, x, Sum(vs), mean, mean');
    MeanIsBest(vs, mean, mean');
    Grow(|vs|, mean, mean', x);
  }

  lemma OneMore(vs: seq<real>, x: real, c: real)
    ensures Sum(vs + [x]) == Sum(vs) + x && Deviations(vs + [x], c) == Deviations(vs, c) + Square(x - c)
  {
    assert (vs + [x])[..|vs|] == vs;
  }

  lemma MeanMoves(k: nat, x: real, s: real, mean: real, mean': real)
    requires MeanOf(mean, k, s) && mean' == mean + Divide(x - mean, k + 1)
    ensures MeanOf(mean', k + 1, s + x)
    ensures (k as real + 1.0) * (mean' - mean) == x - mean
  {
    var n := k as real;
    var step := mean' - mean;
    assert (k + 1) as real == n + 1.0;
    assert (n + 1.0) * step == x - mean;
    assert (n + 1.0) * mean' == n * mean + mean + (n + 1.0) * step;
  }

  lemma Grow(k: nat, mean: real, mean': real, x: real)
    requires (k as real + 1.0) * (mean' - mean) == x - mean
    ensures k as real * Square(mean - mean') + Square(x - mean') == (x - mean) * (x - mean')
  {
    var (n, step, rest) := (k as real, mean' - mean, x - mean');
    assert n * step == rest;
    assert n * (step * step) == rest * step;
    assert rest * step + rest * rest == (x - mean) * rest;
    assert Square(mean - mean') == step * step;
  }

  lemma MeanIs(n: nat, mean: real, s: real)
    requires n > 0 && MeanOf(mean, n, s)
    ensures mean == Divide(s, n)
  {
  }

  lemma DivideNotNegative(x: real, n: int)
    requires n > 0 && x >= 0.0
    ensures Divide(x, n) >= 0.0
  {
  }

  // calcvariance: one pass over the values; the result is that of the two passes.
  method CalcVariance(items: seq<Item>, issample: bool) returns (variance: Estimate, avg: Estimate)
    ensures variance == TwoPass(Numbers(items), issample)
    ensures avg == if variance == Undefined then Undefined else Mean(Numbers(items))
    ensures variance != Undefined ==> variance.value >= 0.0
  {
    hide Deviations;
    hide Sum;
    hide Divide;
    hide MeanOf;
    var n, mean, m2 := 0, 0.0, 0.0;
    var i := 0;
    ghost var vs: seq<real> := [];
    Nothing();
    while i < |items|
      invariant i <= |items| && vs == Numbers(items[..i]) && n == |vs|
      invariant MeanOf(mean, n, Sum(vs)) && m2 == Deviations(vs, mean)
    {
      assert items[..i + 1][..i] == items[..i];
      if items[i] != Nil {
        var x := items[i].x;
        n := n + 1;
        var delta := x - mean;
        ghost var before := mean;
        mean := mean + Divide(delta, n);
        m2 := m2 + delta * (x - mean);
        WelfordStep(vs, x, before, mean);
        vs := vs + [x];
      }
      i := i + 1;
    }
    assert items[..i] == items;
    var less := if issample then 1 else 0;
    if n <= less {
      return Undefined, Undefined;
    }
    MeanIs(n, mean, Sum(vs));
    DivideNotNegative(m2, n - less);
    variance, avg := Estimate(Divide(m2, n - less)), Estimate(mean);
  }

  lemma Nothing()
    ensures MeanOf(0.0, 0, Sum([])) && Deviations([], 0.0) == 0.0
  {
  }
}
