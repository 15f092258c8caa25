// BATcalcavg: the average of the candidate values of a column.  It adds them up while the sum
// fits, and goes on with a quotient and a remainder when it does not.
module ColumnAverage {
  import opened Arithmetic
  import opened Average
  import opened CTypes
  import opened Candidates

  // ------------------------------------------------------------------------------------------
  // What is wanted.

  // The values at the given positions that are not nil.
  function Values(src: seq<int>, k: Kind, at: seq<nat>): seq<int>
    requires forall i :: 0 <= i < |at| ==> at[i] < |src|
  {
    if at == [] then []
    else (if src[at[0]] == NilOf(k) then [] else [src[at[0]]]) + Values(src, k, at[1..])
  }

  function Sum(vs: seq<int>): int {
    if vs == [] then 0 else Sum(vs[..|vs| - 1]) + vs[|vs| - 1]
  }

  datatype Result = NilAverage | Averaged(value: real, count: nat)

  function Exact(vs: seq<int>): Result {
    if vs == [] then NilAverage else Averaged(Sum(vs) as real / |vs| as real, |vs|)
  }

  // ------------------------------------------------------------------------------------------
  // Overflow.

  predicate SumFits(s: int) {
    -(MAX_LNG as int) <= s <= MAX_LNG
  }

  // The first value that takes the sum out of its range; the number of values if there is none.
  function FirstOverflow(vs: seq<int>, sum: int): (j: nat)
    ensures j <= |vs|
  {
    if vs == [] || !SumFits(sum + vs[0]) then 0 else 1 + FirstOverflow(vs[1..], sum + vs[0])
  }

  // The values without the one at j.
  function Without(vs: seq<int>, j: nat): seq<int>
    requires j < |vs|
  {
    vs[..j] + vs[j + 1..]
  }

  predicate Overflows(vs: seq<int>) {
    FirstOverflow(vs, 0) < |vs|
  }

  // Behind an overflow a range goes on without the value that overflowed; a list does not.
  function Folded(vs: seq<int>, listed: bool): seq<int>
    requires Overflows(vs)
  {
    if listed then vs else Without(vs, FirstOverflow(vs, 0))
  }

  function Computed(vs: seq<int>, listed: bool): Result {
    Exact(if Overflows(vs) then Folded(vs, listed) else vs)
  }

  // Over a range the result is the exact one if and only if no partial sum overflows.
  lemma RangeExactIff(vs: seq<int>)
    ensures Computed(vs, false) == Exact(vs) <==> !Overflows(vs)
  {
    if Overflows(vs) {
      assert |Without(vs, FirstOverflow(vs, 0))| == |vs| - 1;
    }
  }

  // The average alone is exact also when the value left out is the mean of the others.
  lemma RangeAverageIff(vs: seq<int>)
    requires vs != [] && forall i :: 0 <= i < |vs| ==> SumFits(vs[i])
    ensures Computed(vs, false).Averaged?
    ensures Computed(vs, false).value == Exact(vs).value <==>
            Overflows(vs) ==> var j := FirstOverflow(vs, 0); vs[j] * (|vs| - 1) == Sum(Without(vs, j))
  {
    hide Sum;
    hide FirstOverflow;
    hide Without;
    FirstStays(vs);
    if Overflows(vs) {
      var j := FirstOverflow(vs, 0);
      SumWithout(vs, j);
      MeanOfOthers(Sum(Without(vs, j)), vs[j], |vs| - 1);
    }
  }

  lemma FirstStays(vs: seq<int>)
    requires vs != [] && SumFits(vs[0])
    ensures FirstOverflow(vs, 0) > 0
  {
  }

  lemma SumWithout(vs: seq<int>, j: nat)
    requires j < |vs|
    ensures |Without(vs, j)| == |vs| - 1 && Sum(vs) == Sum(Without(vs, j)) + vs[j]
  {
    hide Sum;
    var (a, b) := (vs[..j], vs[j + 1..]);
    SumMore(a, vs[j]);
    SumConcat(a + [vs[j]], b);
    SumConcat(a, b);
    assert vs == a + [vs[j]] + b;
  }

  lemma MeanOfOthers(s: int, x: int, n: nat)
    requires n > 0
    ensures s as real / n as real == (s + x) as real / (n + 1) as real <==> x * n == s
  {
    var (p, q) := (s as real / n as real, (s + x) as real / (n + 1) as real);
    assert p * n as real == s as real && q * (n as real + 1.0) == s as real + x as real;
    Cancel(p, x as real, n as real);
    Cancel(q, x as real, n as real + 1.0);
    assert (x * n) as real == x as real * n as real;
  }

  lemma Cancel(a: real, b: real, m: real)
    requires m > 0.0
    ensures a * m == b * m <==> a == b
    ensures a * (m + 1.0) == a * m + a && b * (m + 1.0) == b * m + b
  {
    assert (a - b) * m == a * m - b * m;
  }

  // Two values are enough, and the average is then off by half their difference.
  lemma RangeOverflowWitness()
    ensures var vs := [MAX_LNG, MAX_LNG - 2];
            && Exact(vs) == Averaged((MAX_LNG - 1) as real, 2)
            && Computed(vs, true) == Exact(vs)
            && Computed(vs, false) == Averaged(MAX_LNG as real, 1)
  {
    var vs: seq<int> := [MAX_LNG, MAX_LNG - 2];
    assert vs[..1] == [MAX_LNG] && vs[..1][..0] == [];
    assert Sum(vs[..1]) == MAX_LNG;
    assert Sum(vs) == 2 * (MAX_LNG - 1);
    assert vs[1..] == [MAX_LNG - 2];
    assert FirstOverflow(vs[1..], MAX_LNG) == 0;
    assert FirstOverflow(vs, 0) == 1;
    assert Without(vs, 1) == [MAX_LNG];
    assert Sum([MAX_LNG]) == MAX_LNG by { assert [MAX_LNG][..0] == []; }
  }

  // ------------------------------------------------------------------------------------------
  // Lemmas.

  lemma {:induction false} SumConcat(a: seq<int>, b: seq<int>)
    ensures Sum(a + b) == Sum(a) + Sum(b)
  {
    if b == [] {
      assert a + b == a;
    } else {
      SumConcat(a, b[..|b| - 1]);
      assert (a + b)[..|a + b| - 1] == a + b[..|b| - 1];
    }
  }

  lemma SumMore(a: seq<int>, x: int)
    ensures Sum(a + [x]) == Sum(a) + x
  {
    assert (a + [x])[..|a|] == a;
  }

  predicate Between(vs: seq<int>, lo: int, hi: int) {
    forall i :: 0 <= i < |vs| ==> lo <= vs[i] <= hi
  }

  lemma {:induction false} SumBetween(vs: seq<int>, lo: int, hi: int)
    requires Between(vs, lo, hi)
    ensures lo * |vs| <= Sum(vs) <= hi * |vs|
  {
    if vs != [] {
      var n := |vs| - 1;
      SumBetween(vs[..n], lo, hi);
      OneMore(lo, hi, n, Sum(vs[..n]), vs[n]);
    }
  }

  lemma OneMore(lo: int, hi: int, n: nat, s: int, x: int)
    requires lo * n <= s <= hi * n && lo <= x <= hi
    ensures lo * (n + 1) <= s + x <= hi * (n + 1)
  {
    assert lo * (n + 1) == lo * n + lo && hi * (n + 1) == hi * n + hi;
  }

  // The first overflow is where the values before it do not overflow and it does.
  lemma {:induction false} FirstOverflowAt(vs: seq<int>, j: nat, sum: int)
    requires j < |vs| && FirstOverflow(vs[..j], sum) == j && !SumFits(sum + Sum(vs[..j]) + vs[j])
    ensures FirstOverflow(vs, sum) == j
  {
    if j == 0 {
      assert Sum(vs[..0]) == 0;
    } else {
      var a := vs[..j];
      assert vs[1..][..j - 1] == a[1..];
      SumFirst(a);
      FirstOverflowAt(vs[1..], j - 1, sum + vs[0]);
    }
  }

  lemma SumFirst(a: seq<int>)
    requires a != []
    ensures Sum(a) == a[0] + Sum(a[1..])
  {
    assert a == [a[0]] + a[1..];
    SumConcat([a[0]], a[1..]);
    assert [a[0]][..0] == [];
  }

  lemma {:induction false} FirstOverflowMore(a: seq<int>, x: int, sum: int)
    requires FirstOverflow(a, sum) == |a| && SumFits(sum + Sum(a) + x)
    ensures FirstOverflow(a + [x], sum) == |a| + 1
  {
    var vs := a + [x];
    if a == [] {
      assert vs[0] == x && vs[1..] == [];
    } else {
      assert vs[0] == a[0] && vs[1..] == a[1..] + [x];
      SumFirst(a);
      FirstOverflowMore(a[1..], x, sum + a[0]);
    }
  }

  predicate Holds(src: seq<int>, k: Kind) {
    forall i :: 0 <= i < |src| ==> Storable(k, src[i])
  }

  predicate InColumn(at: seq<nat>, src: seq<int>) {
    forall i :: 0 <= i < |at| ==> at[i] < |src|
  }

  lemma {:induction false} ValuesAreValues(src: seq<int>, k: Kind, at: seq<nat>)
    requires Holds(src, k) && InColumn(at, src)
    ensures forall i :: 0 <= i < |Values(src, k, at)| ==> Value(k, Values(src, k, at)[i])
  {
    if at != [] {
      ValuesAreValues(src, k, at[1..]);
    }
  }

  // ------------------------------------------------------------------------------------------
  // When the second loop subtracts without overflow.

  // Every value from the j-th on, and the average of those before it, rounded down, make a step.
  predicate FoldFits(k: Kind, us: seq<int>, j: nat) {
    forall i :: 0 < i && j <= i < |us| ==> StepFits(k, us[i], Sum(us[..i]) / i, i + 1)
  }

  // The average stays between the least and the greatest value.
  lemma AverageBetween(us: seq<int>, lo: int, hi: int)
    requires us != [] && Between(us, lo, hi)
    ensures lo <= Sum(us) / |us| <= hi
  {
    hide Sum;
    SumBetween(us, lo, hi);
    QuotientBetween(Sum(us), |us|, lo, hi);
  }

  lemma QuotientBetween(s: int, n: int, lo: int, hi: int)
    requires n > 0 && lo * n <= s <= hi * n
    ensures lo <= s / n <= hi
  {
    var (a, r) := (s / n, s % n);
    assert a * n + r == s;
    QuotientBelow(a, r, hi, n);
    QuotientAbove(a, r, lo, n);
  }

  // So a fold of values between lo and hi fits if all differences do.
  lemma FoldWithin(k: Kind, us: seq<int>, j: nat, lo: int, hi: int)
    requires -MaxOf(k) <= lo <= hi <= MaxOf(k) && Between(us, lo, hi)
    requires lo >= 0 || hi <= 0 || hi - lo <= ArithmeticMax(k) || DifferenceFits(k, |us|, lo, hi)
    ensures FoldFits(k, us, j)
  {
    hide Rem;
    forall i | 0 < i && j <= i < |us| ensures StepFits(k, us[i], Sum(us[..i]) / i, i + 1) {
      AverageBetween(us[..i], lo, hi);
      DifferenceFitsIff(k, i + 1, lo, hi);
    }
  }

  // What a caller can check: the values have one sign, or no greater spread than the type is wide,
  // or there are few enough of them.
  lemma ColumnFits(k: Kind, vs: seq<int>, listed: bool, lo: int, hi: int)
    requires Overflows(vs) && Between(vs, lo, hi) && -MaxOf(k) <= lo <= hi <= MaxOf(k)
    requires lo >= 0 || hi <= 0 || hi - lo <= ArithmeticMax(k) || DifferenceFits(k, |vs|, lo, hi)
    ensures FoldFits(k, Folded(vs, listed), FirstOverflow(vs, 0))
  {
    hide FoldFits;
    hide FirstOverflow;
    FoldWithin(k, Folded(vs, listed), FirstOverflow(vs, 0), lo, hi);
  }

  ghost predicate AllFoldsFit(k: Kind, n: nat, lo: int, hi: int) {
    forall us: seq<int> :: |us| == n && Between(us, lo, hi) ==> FoldFits(k, us, 1)
  }

  // And only then do all folds of n such values fit.
  lemma FoldFitsIff(k: Kind, n: nat, lo: int, hi: int)
    requires n > 0 && -MaxOf(k) <= lo <= hi <= MaxOf(k)
    ensures DifferenceFits(k, n, lo, hi) <==> AllFoldsFit(k, n, lo, hi)
  {
    hide FoldFits;
    if DifferenceFits(k, n, lo, hi) {
      forall us: seq<int> | |us| == n && Between(us, lo, hi) ensures FoldFits(k, us, 1) {
        FoldWithin(k, us, 1, lo, hi);
      }
    } else {
      DifferenceFitsIff(k, n, lo, hi);
      var x: int, a: int :| lo <= x <= hi && lo <= a <= hi && !StepFits(k, x, a, n);
      var us := Copies(a, n - 1) + [x];
      LastStep(k, x, a, n - 1, 1);
      assert |us| == n && Between(us, lo, hi) && !FoldFits(k, us, 1);
    }
  }

  function Copies(x: int, n: nat): seq<int> {
    seq(n, _ => x)
  }

  lemma {:induction false} SumCopies(x: int, n: nat)
    ensures Sum(Copies(x, n)) == x * n
  {
    if n > 0 {
      SumCopies(x, n - 1);
      assert Copies(x, n)[..n - 1] == Copies(x, n - 1);
      Increment(n - 1, x);
    }
  }

  // The average of n copies of a is a.
  lemma LastStep(k: Kind, x: int, a: int, n: nat, j: nat)
    requires n > 0 && j <= n && !StepFits(k, x, a, n + 1)
    ensures !FoldFits(k, Copies(a, n) + [x], j)
  {
    hide StepFits;
    var us := Copies(a, n) + [x];
    SumCopies(a, n);
    DivisionIs(a * n, n, a);
    assert us[..n] == Copies(a, n) && us[n] == x;
  }

  // ---- columns of n values of the type ----

  ghost predicate AllColumnsFit(k: Kind, n: nat, listed: bool) {
    forall vs: seq<int> :: |vs| == n && Between(vs, -MaxOf(k), MaxOf(k)) && Overflows(vs) ==>
      FoldFits(k, Folded(vs, listed), FirstOverflow(vs, 0))
  }

  // The second loop subtracts without overflow for every column of n values whose sum overflows, if and
  // only if the bound on differences holds for the values folded or no sum overflows before the last value.
  lemma ColumnsFitIff(k: Kind, n: nat, listed: bool)
    requires n > 0
    ensures AllColumnsFit(k, n, listed) <==>
            DifferenceFits(k, if listed then n else n - 1, -MaxOf(k), MaxOf(k)) || (n - 1) * MaxOf(k) <= MAX_LNG
  {
    hide FoldFits;
    hide FirstOverflow;
    hide DifferenceFits;
    hide MaxOf;
    if DifferenceFits(k, if listed then n else n - 1, -MaxOf(k), MaxOf(k)) || (n - 1) * MaxOf(k) <= MAX_LNG {
      forall vs: seq<int> | |vs| == n && Between(vs, -MaxOf(k), MaxOf(k)) && Overflows(vs)
        ensures FoldFits(k, Folded(vs, listed), FirstOverflow(vs, 0))
      {
        if (n - 1) * MaxOf(k) <= MAX_LNG {
          LateFits(k, vs, listed);
        } else {
          FoldWithin(k, Folded(vs, listed), FirstOverflow(vs, 0), -MaxOf(k), MaxOf(k));
        }
      }
    } else {
      var vs := ColumnUnfit(k, n, listed);
      assert !AllColumnsFit(k, n, listed);
    }
  }

  // An overflow at the last value needs a sum and a value of the same sign.
  lemma LateFits(k: Kind, vs: seq<int>, listed: bool)
    requires vs != [] && Between(vs, -MaxOf(k), MaxOf(k)) && Overflows(vs) && (|vs| - 1) * MaxOf(k) <= MAX_LNG
    ensures FoldFits(k, Folded(vs, listed), FirstOverflow(vs, 0))
  {
    hide FirstOverflow;
    hide StepFits;
    hide MaxOf;
    hide Sum;
    var j := FirstOverflow(vs, 0);
    OverflowIsLast(k, vs);
    if j > 0 {
      assert vs[..j + 1] == vs[..j] + [vs[j]];
      OverflowAt(vs, 0);
      SumMore(vs[..j], vs[j]);
      LastFits(k, vs[j], vs[..j]);
    }
  }

  lemma OverflowIsLast(k: Kind, vs: seq<int>)
    requires vs != [] && Between(vs, -MaxOf(k), MaxOf(k)) && Overflows(vs) && (|vs| - 1) * MaxOf(k) <= MAX_LNG
    ensures FirstOverflow(vs, 0) == |vs| - 1
  {
    hide FirstOverflow;
    hide MaxOf;
    hide Sum;
    var j := FirstOverflow(vs, 0);
    OverflowAt(vs, 0);
    SumBetween(vs[..j + 1], -MaxOf(k), MaxOf(k));
    FewFit(j + 1, |vs| - 1, MaxOf(k), Sum(vs[..j + 1]));
  }

  lemma FewFit(i: nat, n: nat, m: int, s: int)
    requires m >= 0 && -m * i <= s <= m * i && n * m <= MAX_LNG
    ensures i <= n ==> SumFits(s)
  {
    assert -m * i == -(m * i);
    if i <= n {
      MulLe(i, n, m);
    }
  }

  lemma LastFits(k: Kind, x: int, us: seq<int>)
    requires us != [] && -MaxOf(k) <= x <= MaxOf(k) && Between(us, -MaxOf(k), MaxOf(k))
    requires SumFits(Sum(us)) && !SumFits(Sum(us) + x)
    ensures StepFits(k, x, Sum(us) / |us|, |us| + 1)
  {
    hide StepFits;
    hide Sum;
    AverageBetween(us, -MaxOf(k), MaxOf(k));
    AverageSign(Sum(us), |us|);
    SameSign(k, x, Sum(us), Sum(us) / |us|, |us| + 1);
  }

  lemma AverageSign(s: int, n: nat)
    requires n > 0
    ensures if s >= 0 then s / n >= 0 else s / n <= 0
  {
    assert s / n * n + s % n == s;
    if s >= 0 {
      QuotientAbove(s / n, s % n, 0, n);
    } else {
      QuotientBelow(s / n, s % n, 0, n);
    }
  }

  lemma SameSign(k: Kind, x: int, s: int, a: int, n: nat)
    requires n > 0 && -MaxOf(k) <= x <= MaxOf(k) && -MaxOf(k) <= a <= MaxOf(k) && (if s >= 0 then a >= 0 else a <= 0)
    requires SumFits(s) && !SumFits(s + x)
    ensures StepFits(k, x, a, n)
  {
    hide StepFits;
    if s >= 0 {
      DifferenceFitsIff(k, n, 0, MaxOf(k));
    } else {
      DifferenceFitsIff(k, n, -MaxOf(k), 0);
    }
  }

  // What the first overflow is.
  lemma {:induction false} OverflowAt(vs: seq<int>, sum: int)
    requires FirstOverflow(vs, sum) < |vs| && SumFits(sum)
    ensures var j := FirstOverflow(vs, sum); SumFits(sum + Sum(vs[..j])) && !SumFits(sum + Sum(vs[..j + 1]))
  {
    if SumFits(sum + vs[0]) {
      OverflowAt(vs[1..], sum + vs[0]);
      var j := FirstOverflow(vs, sum);
      PrefixSum(vs, j);
      PrefixSum(vs, j + 1);
    } else {
      PrefixSum(vs, 1);
      assert vs[..0] == [] && vs[1..][..0] == [];
    }
  }

  lemma PrefixSum(vs: seq<int>, i: nat)
    requires 0 < i <= |vs|
    ensures Sum(vs[..i]) == vs[0] + Sum(vs[1..][..i - 1])
  {
    assert vs[..i][1..] == vs[1..][..i - 1];
    SumFirst(vs[..i]);
  }

  // Otherwise the least remainders and a greatest one behind them do not fit.
  lemma ColumnUnfit(k: Kind, n: nat, listed: bool) returns (vs: seq<int>)
    requires n > 0 && (n - 1) * MaxOf(k) > MAX_LNG
    requires !DifferenceFits(k, if listed then n else n - 1, -MaxOf(k), MaxOf(k))
    ensures |vs| == n && Between(vs, -MaxOf(k), MaxOf(k)) && Overflows(vs)
    ensures !FoldFits(k, Folded(vs, listed), FirstOverflow(vs, 0))
  {
    hide FirstOverflow;
    hide FoldFits;
    hide StepFits;
    hide MaxOf;
    hide Sum;
    var m := if listed then n else n - 1;
    var b := Min(m - 1, MaxOf(k));
    ManyValues(k, n, m);
    vs := Copies(-b, n - 1) + [b];
    CopiesOverflow(b, n - 1);
    StepUnfit(k, b, m);
    var j := FirstOverflow(vs, 0);
    if !listed {
      assert Without(vs, j) == Copies(-b, n - 2) + [b];
    }
    LastStep(k, b, -b, m - 1, j);
  }

  lemma CopiesOverflow(b: int, n: nat)
    requires b >= 0 && b * n > MAX_LNG
    ensures FirstOverflow(Copies(-b, n) + [b], 0) < n
  {
    hide FirstOverflow;
    hide Sum;
    var vs := Copies(-b, n) + [b];
    SumCopies(-b, n);
    assert vs[..n] == Copies(-b, n);
    assert -b * n == -(b * n);
    OverflowBefore(vs, n, 0);
  }

  lemma StepUnfit(k: Kind, b: int, n: int)
    requires 0 <= b < n && 2 * b > ArithmeticMax(k)
    ensures !StepFits(k, b, -b, n)
  {
    SmallRem(b, n);
  }

  lemma ManyValues(k: Kind, n: nat, m: int)
    requires n > 0 && (n - 1) * MaxOf(k) > MAX_LNG && n - 1 <= m <= n && !DifferenceFits(k, m, -MaxOf(k), MaxOf(k))
    ensures m > 2 && 0 < Min(m - 1, MaxOf(k)) && Min(m - 1, MaxOf(k)) * (n - 1) > MAX_LNG
    ensures 2 * Min(m - 1, MaxOf(k)) > ArithmeticMax(k)
  {
    var b := Min(m - 1, MaxOf(k));
    if b < MaxOf(k) {
      MulLe(0x4000_0000, b, n - 1);
      MulLe(n - 1, m, 0x4000_0000);
    }
  }

  // 2^33 times the least 32-bit value and once the greatest: the sum overflows, and so does the
  // last subtraction behind it, for a list and for a range.
  lemma FoldOverflowWitness(listed: bool)
    ensures var vs := Copies(-MaxOf(Int), 0x2_0000_0000) + [MaxOf(Int)];
            Overflows(vs) && !FoldFits(Int, Folded(vs, listed), FirstOverflow(vs, 0))
  {
    hide FirstOverflow;
    hide FoldFits;
    var (m, n: nat) := (MaxOf(Int), 0x2_0000_0000);
    var vs := Copies(-m, n) + [m];
    SumCopies(-m, n - 1);
    assert vs[..n - 1] == Copies(-m, n - 1);
    OverflowBefore(vs, n - 1, 0);
    SmallRem(m, n);
    SmallRem(m, n + 1);
    var j := FirstOverflow(vs, 0);
    if listed {
      LastStep(Int, m, -m, n, j);
    } else {
      assert Without(vs, j) == Copies(-m, n - 1) + [m];
      LastStep(Int, m, -m, n - 1, j);
    }
  }

  // Where a partial sum is out of range, an addition has overflowed before.
  lemma {:induction false} OverflowBefore(vs: seq<int>, i: nat, sum: int)
    requires i <= |vs| && SumFits(sum) && !SumFits(sum + Sum(vs[..i]))
    ensures FirstOverflow(vs, sum) < i
  {
    SumFirst(vs[..i]);
    assert vs[..i][0] == vs[0] && vs[..i][1..] == vs[1..][..i - 1];
    if SumFits(sum + vs[0]) {
      OverflowBefore(vs[1..], i - 1, sum + vs[0]);
    }
  }

  // ------------------------------------------------------------------------------------------
  // The code.

  // The values to be averaged are those done and those of the positions ahead.
  ghost predicate Split(total: seq<int>, done: seq<int>, src: seq<int>, k: Kind, ahead: seq<nat>) {
    InColumn(ahead, src) && total == done + Values(src, k, ahead)
  }

  lemma SplitStart(src: seq<int>, k: Kind, ahead: seq<nat>)
    requires InColumn(ahead, src)
    ensures Split(Values(src, k, ahead), [], src, k, ahead)
  {
    hide Values;
    assert [] + Values(src, k, ahead) == Values(src, k, ahead);
  }

  lemma SplitStep(total: seq<int>, done: seq<int>, src: seq<int>, k: Kind, ahead: seq<nat>)
    requires Split(total, done, src, k, ahead) && ahead != []
    ensures ahead[0] < |src| && InColumn(ahead[1..], src)
    ensures var x := src[ahead[0]];
            Split(total, if x == NilOf(k) then done else done + [x], src, k, ahead[1..])
  {
  }

  lemma SplitBack(total: seq<int>, done: seq<int>, i: nat, src: seq<int>, k: Kind, ahead: seq<nat>)
    requires i < |src| && src[i] != NilOf(k) && Split(total, done + [src[i]], src, k, ahead)
    ensures Split(total, done, src, k, [i] + ahead)
  {
    assert ([i] + ahead)[1..] == ahead;
  }

  lemma SplitEnd(total: seq<int>, done: seq<int>, src: seq<int>, k: Kind)
    requires Split(total, done, src, k, [])
    ensures total == done
  {
  }

  // ADD_WITH_CHECK: refuses a sum outside [-MAX_LNG, MAX_LNG] before computing it.
  method AddWithCheck(x: lng, sum: lng) returns (ok: bool, s: lng)
    requires SumFits(sum as int) && SumFits(x as int)
    ensures ok <==> SumFits(sum as int + x as int)
    ensures s as int == if ok then sum as int + x as int else sum as int
  {
    s := sum;
    if sum < 1 {
      ok := !(-(MAX_LNG as lng) - sum > x);
    } else {
      ok := !(MAX_LNG as lng - sum < x);
    }
    if ok {
      s := x + sum;
    }
  }

  // Where the addition loop stopped: at the end, or behind the value at position i, which
  // overflowed.
  datatype Stop = AtEnd | AtOverflow(i: nat)

  // A sum of values whose partial sums all fit.
  ghost predicate Fits(done: seq<int>, sum: int) {
    sum == Sum(done) && SumFits(sum) && FirstOverflow(done, 0) == |done|
  }

  lemma FitsMore(done: seq<int>, x: int)
    requires Fits(done, Sum(done)) && SumFits(Sum(done) + x)
    ensures Fits(done + [x], Sum(done) + x)
  {
    FirstOverflowMore(done, x, 0);
    SumMore(done, x);
  }

  // The first loop.
  method AddUp(c: Cursor, src: seq<int>, k: Kind, ghost total: seq<int>)
    returns (stop: Stop, sum: lng, n: nat, ghost done: seq<int>)
    requires c.Valid() && Holds(src, k) && Split(total, [], src, k, c.Rest())
    modifies c`start, c`cand
    ensures n == |done| && Fits(done, sum as int)
    ensures stop == AtEnd ==> total == done
    ensures stop.AtOverflow? ==>
              && c.Valid() && stop.i < |src| && src[stop.i] != NilOf(k) && !SumFits(sum as int + src[stop.i])
              && Split(total, done + [src[stop.i]], src, k, c.Rest())
              && n + |c.Rest()| + 1 <= |old(c.Rest())|
              && (c.listed ==> c.cand > 0 && c.oids[c.cand - 1] == c.base + stop.i && stop.i < c.end)
  {
    hide Fits;
    hide Split;
    hide Cursor.Rest;
    sum, n, done := 0, 0, [];
    assert Fits([], 0) by { NothingFits(); }
    while true
      invariant c.Valid() && Split(total, done, src, k, c.Rest())
      invariant n == |done| && Fits(done, sum as int) && SumFits(sum as int) && n + |c.Rest()| <= |old(c.Rest())|
      decreases |c.Rest()|
    {
      ghost var rest := c.Rest();
      var more, i := c.Next();
      if !more {
        SplitEnd(total, done, src, k);
        return AtEnd, sum, n, done;
      }
      SplitStep(total, done, src, k, rest);
      var x := src[i];
      if x == NilOf(k) {
        continue;
      }
      var ok;
      FitsSum(done, sum as int);
      ok, sum := AddWithCheck(x as lng, sum);
      if !ok {
        return AtOverflow(i), sum, n, done;
      }
      FitsMore(done, x);
      n, done := n + 1, done + [x];
    }
  }

  lemma NothingFits()
    ensures Fits([], 0)
  {
  }

  lemma FitsSum(done: seq<int>, sum: int)
    requires Fits(done, sum)
    ensures sum == Sum(done)
  {
  }

  // The sum so far as a quotient and a remainder.
  method Convert(k: Kind, sum: lng, n: nat) returns (a: int, r: int)
    requires 0 < n <= MAX_LNG && SumFits(sum as int) && -MaxOf(k) * n <= sum as int <= MaxOf(k) * n
    ensures Running(k, a, r, n) && a * n + r == sum as int && Storable(k, a)
  {
    hide MaxOf;
    hide Quot;
    hide Rem;
    if sum >= 0 {
      a, r := Quot(sum as int, n), Rem(sum as int, n);
      DivMod(sum as int, n);
      RemNotNegative(sum as int, n);
    } else {
      var s := -sum;
      a, r := -Quot(s as int, n), Rem(s as int, n);
      DivMod(s as int, n);
      RemNotNegative(s as int, n);
      Opposite(Quot(s as int, n), n);
      if r != 0 {
        a, r := a - 1, n - r;
      }
    }
    RunningValue(k, a, r, n);
  }

  lemma RemNotNegative(s: int, n: int)
    requires n > 0 && s >= 0
    ensures Rem(s, n) >= 0
  {
  }

  lemma Opposite(q: int, n: int)
    ensures -q * n == -(q * n) && (-q - 1) * n == -(q * n) - n
  {
    Increment(-q - 1, n);
  }

  // The quotient kept is the average of the values folded in, rounded down.
  lemma NextFits(k: Kind, total: seq<int>, all: seq<int>, x: int, a: int, r: int, n0: nat, src: seq<int>, ahead: seq<nat>)
    requires 0 < n0 <= |all| && FoldFits(k, total, n0) && Split(total, all + [x], src, k, ahead)
    requires Running(k, a, r, |all|) && a * |all| + r == Sum(all)
    ensures StepFits(k, x, a, |all| + 1)
  {
    hide Split;
    hide StepFits;
    hide Sum;
    hide MaxOf;
    SplitPrefix(total, all, x, src, k, ahead);
    DivisionIs(Sum(all), |all|, a);
  }

  lemma SplitPrefix(total: seq<int>, all: seq<int>, x: int, src: seq<int>, k: Kind, ahead: seq<nat>)
    requires Split(total, all + [x], src, k, ahead)
    ensures |all| < |total| && total[..|all|] == all && total[|all|] == x
  {
    hide Values;
  }

  // The second loop.
  method Continue(c: Cursor, src: seq<int>, k: Kind, a0: int, r0: int, n0: nat, ghost done: seq<int>, ghost total: seq<int>)
    returns (a: int, r: int, n: nat)
    requires c.Valid() && Holds(src, k) && Split(total, done, src, k, c.Rest())
    requires 0 < n0 == |done| && Running(k, a0, r0, n0) && a0 * n0 + r0 == Sum(done)
    requires FoldFits(k, total, n0)
    modifies c`start, c`cand
    ensures n == |total| && n > 0 && a * n + r == Sum(total)
  {
    hide Split;
    hide Cursor.Rest;
    hide Running;
    hide FoldFits;
    a, r, n := a0, r0, n0;
    ghost var all := done;
    while true
      invariant c.Valid() && Split(total, all, src, k, c.Rest())
      invariant 0 < n == |all| && Running(k, a, r, n) && a * n + r == Sum(all)
      invariant n >= n0
      decreases |c.Rest()|
    {
      ghost var rest := c.Rest();
      var more, i := c.Next();
      if !more {
        SplitEnd(total, all, src, k);
        return;
      }
      SplitStep(total, all, src, k, rest);
      var x := src[i];
      if x == NilOf(k) {
        continue;
      }
      NextFits(k, total, all, x, a, r, n0, src, c.Rest());
      SumMore(all, x);
      a, r, n := Iterate(k, x, a, r, n);
      all := all + [x];
    }
  }

  lemma Fraction(a: int, r: int, n: int)
    requires n > 0
    ensures a as real + r as real / n as real == (a * n + r) as real / n as real
  {
    var (x, y) := (a as real, n as real);
    assert (a * n) as real == x * y;
    assert (x * y + r as real) / y == x + r as real / y;
  }

  lemma ValuesOf(k: Kind, total: seq<int>, done: seq<int>)
    requires |done| <= |total| && total[..|done|] == done && forall i :: 0 <= i < |total| ==> Value(k, total[i])
    ensures -MaxOf(k) * |done| <= Sum(done) <= MaxOf(k) * |done|
  {
    SumBetween(done, -MaxOf(k), MaxOf(k));
  }

  // From an overflow on: a list is visited again from the value that overflowed, a range is not.
  method Resume(c: Cursor, src: seq<int>, k: Kind, i: nat, sum: lng, n: nat, ghost done: seq<int>, ghost total: seq<int>)
    returns (avg: Result)
    requires c.Valid() && Holds(src, k) && i < |src| && src[i] != NilOf(k)
    requires Split(total, done + [src[i]], src, k, c.Rest()) && (forall i :: 0 <= i < |total| ==> Value(k, total[i]))
    requires Fits(done, sum as int) && n == |done| && !SumFits(sum as int + src[i])
    requires n + |c.Rest()| + 1 <= MAX_LNG && Overflows(total) && FoldFits(k, Folded(total, c.listed), n)
    requires c.listed ==> c.cand > 0 && c.oids[c.cand - 1] == c.base + i && i < c.end
    modifies c`start, c`cand
    ensures avg == Computed(total, c.listed)
  {
    hide Split;
    hide Values;
    hide FirstOverflow;
    hide Without;
    hide Cursor.Rest;
    hide Running;
    ghost var ahead := c.Rest();
    Dropped(total, done, i, src, k, ahead);
    ghost var aim := total;
    if c.listed {
      SplitBack(total, done, i, src, k, ahead);
      c.Back(i);
    } else {
      aim := Without(total, n);
    }
    ValuesOf(k, total, done);
    assert done != [] by { FirstFits(done, sum as int, src[i], k); }
    var a, r := Convert(k, sum, n);
    var m;
    a, r, m := Continue(c, src, k, a, r, n, done, aim);
    Fraction(a, r, m);
    avg := Averaged(a as real + r as real / m as real, m);
  }

  // The overflowing value is where the specification says; a range goes on without it.
  lemma Dropped(total: seq<int>, done: seq<int>, i: nat, src: seq<int>, k: Kind, ahead: seq<nat>)
    requires i < |src| && Split(total, done + [src[i]], src, k, ahead)
    requires Fits(done, Sum(done)) && !SumFits(Sum(done) + src[i])
    ensures |done| < |total| && total[..|done|] == done && FirstOverflow(total, 0) == |done|
    ensures Split(Without(total, |done|), done, src, k, ahead)
  {
    hide Split;
    hide FirstOverflow;
    hide Sum;
    hide Without;
    SplitShape(total, done, i, src, k, ahead);
    FirstOverflowAt(total, |done|, 0);
  }

  lemma SplitShape(total: seq<int>, done: seq<int>, i: nat, src: seq<int>, k: Kind, ahead: seq<nat>)
    requires i < |src| && Split(total, done + [src[i]], src, k, ahead)
    ensures |done| < |total| && total[..|done|] == done && total[|done|] == src[i]
    ensures Split(Without(total, |done|), done, src, k, ahead)
  {
    hide Values;
    SplitPrefix(total, done, src[i], src, k, ahead);
  }

  // A single value cannot overflow.
  lemma FirstFits(done: seq<int>, sum: int, x: int, k: Kind)
    requires Fits(done, sum) && Storable(k, x) && x != NilOf(k) && !SumFits(sum + x)
    ensures done != []
  {
  }

  // The whole computation for a cursor over the candidates.
  method CursorAverage(c: Cursor, src: seq<int>, k: Kind) returns (avg: Result)
    requires c.Valid() && Holds(src, k) && InColumn(c.Rest(), src) && |c.Rest()| <= MAX_LNG
    requires var vs := Values(src, k, c.Rest());
             Overflows(vs) ==> FoldFits(k, Folded(vs, c.listed), FirstOverflow(vs, 0))
    modifies c`start, c`cand
    ensures avg == Computed(Values(src, k, old(c.Rest())), c.listed)
  {
    hide Values;
    hide Sum;
    hide FirstOverflow;
    hide FoldFits;
    hide Without;
    hide Split;
    ghost var total := Values(src, k, c.Rest());
    ValuesAreValues(src, k, c.Rest());
    SplitStart(src, k, c.Rest());
    var stop, sum, n, done := AddUp(c, src, k, total);
    if stop == AtEnd {
      avg := if n > 0 then Averaged(sum as int as real / n as real, n) else NilAverage;
    } else {
      Dropped(total, done, stop.i, src, k, c.Rest());
      avg := Resume(c, src, k, stop.i, sum, n, done, total);
    }
  }

  // The candidate values that are not nil.
  function Candidate(src: seq<int>, k: Kind, h: nat, s: List): seq<int> {
    WantedBound(s, h, |src|);
    Values(src, k, Wanted(s, h, |src|))
  }

  predicate Listed(s: List) {
    s.Sparse? && s.oids != []
  }

  // BATcalcavg for a column whose identifiers start at h and a candidate list.
  method CalcAvg(src: seq<int>, k: Kind, h: nat, s: List) returns (avg: Result)
    requires Holds(src, k) && Proper(s) && |src| <= MAX_LNG
    requires var vs := Candidate(src, k, h, s);
             Overflows(vs) ==> FoldFits(k, Folded(vs, Listed(s)), FirstOverflow(vs, 0))
    ensures avg == Computed(Candidate(src, k, h, s), Listed(s))
  {
    hide Values;
    hide FirstOverflow;
    WantedBound(s, h, |src|);
    WantedCount(s, h, |src|);
    var c := new Cursor(s, h, |src|);
    avg := CursorAverage(c, src, k);
  }
}
