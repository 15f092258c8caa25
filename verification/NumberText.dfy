// Numbers as text: an overflow-checked decimal parser for integers of one, two, four and eight
// bytes, and the printer it inverts.
module NumberText {
  import opened Arithmetic
  import opened Bytes
  import opened CTypes
  import opened StringText

  // ------------------------------------------------------------------------------------------
  // The syntax and its meaning.

  predicate Digit(c: nat) {
    48 <= c <= 57
  }

  function DigitsEnd(mem: seq<byte>, i: nat): (k: nat)
    requires NulEnded(mem) && i < |mem|
    ensures i <= k < |mem| && !Digit(mem[k]) && Digits(mem, i, k)
    decreases |mem| - i
  {
    if Digit(mem[i]) then DigitsEnd(mem, i + 1) else i
  }

  predicate Digits(mem: seq<byte>, i: nat, k: nat)
    requires k <= |mem|
  {
    forall j :: i <= j < k ==> Digit(mem[j])
  }

  // The number written by the digits from i to k.
  function Number(mem: seq<byte>, i: nat, k: nat): nat
    requires k <= |mem| && Digits(mem, i, k)
  {
    if k <= i then 0 else 10 * Number(mem, i, k - 1) + (mem[k - 1] as int - 48)
  }

  function Pow10(n: nat): (p: nat)
    ensures p >= 1
  {
    if n == 0 then 1 else 10 * Pow10(n - 1)
  }

  // A number stored together with the bytes consumed.
  datatype Parsed = NilNumber(count: nat) | Num(value: int, count: nat) | NotNumber

  // An optional exponent at k: its value and its end.
  function Exponent(mem: seq<byte>, k: nat): (r: (nat, nat))
    requires NulEnded(mem) && k < |mem|
    ensures k <= r.1 < |mem|
  {
    if (mem[k] == 101 || mem[k] == 69) && Digit(mem[k + 1]) then
      var m := DigitsEnd(mem, k + 1);
      (Number(mem, k + 1, m), m)
    else (0, k)
  }

  // The letters LL may end an eight-byte number.
  function AfterLetters(mem: seq<byte>, i: nat, t: Kind): (k: nat)
    requires NulEnded(mem) && i < |mem|
    ensures k < |mem|
  {
    if t == Lng && mem[i] == 76 && mem[i + 1] == 76 then i + 2 else i
  }

  function Signed(x: int, negative: bool): int {
    if negative then -x else x
  }

  // The number that the digits at j and an exponent behind them denote.
  function Denoted(mem: seq<byte>, j: nat): nat
    requires NulEnded(mem) && j < |mem|
  {
    var k := DigitsEnd(mem, j);
    Number(mem, j, k) * Pow10(Exponent(mem, k).0)
  }

  // What the digits at j and whatever follows them mean.
  function ParseDigits(mem: seq<byte>, j: nat, negative: bool, t: Kind): Parsed
    requires NulEnded(mem) && j < |mem|
  {
    var k := DigitsEnd(mem, j);
    if k == j then NotNumber
    else
      var magnitude := Denoted(mem, j);
      if magnitude > MaxOf(t) then NotNumber
      else Num(Signed(magnitude, negative), SkipSpaces(mem, AfterLetters(mem, Exponent(mem, k).1, t)))
  }

  function ParseNumber(mem: seq<byte>, t: Kind): Parsed
    requires NulEnded(mem)
  {
    if mem[0] == NIL_BYTE then NilNumber(1)
    else
      var i := SkipSpaces(mem, 0);
      if mem[i] == 110 then (if [110, 105, 108] <= mem[i..] then NilNumber(i + 3) else NotNumber)
      else ParseDigits(mem, if mem[i] == 45 || mem[i] == 43 then i + 1 else i, mem[i] == 45, t)
  }

  // ------------------------------------------------------------------------------------------
  // The table of powers of ten, each with the largest number it may still multiply.

  datatype Limit = Limit(scale: lng, maxval: lng)

  const MAXDIV: seq<Limit> := [
    Limit(1, 9223372036854775807),
    Limit(10, 922337203685477580),
    Limit(100, 92233720368547758),
    Limit(1000, 9223372036854775),
    Limit(10000, 922337203685477),
    Limit(100000, 92233720368547),
    Limit(1000000, 9223372036854),
    Limit(10000000, 922337203685),
    Limit(100000000, 92233720368),
    Limit(1000000000, 9223372036),
    Limit(10000000000, 922337203),
    Limit(100000000000, 92233720),
    Limit(1000000000000, 9223372),
    Limit(10000000000000, 922337),
    Limit(100000000000000, 92233),
    Limit(1000000000000000, 9223),
    Limit(10000000000000000, 922),
    Limit(100000000000000000, 92),
    Limit(1000000000000000000, 9)
  ]

  const MAXMOD10: lng := 7

  lemma {:induction false} TableScale(e: nat)
    requires e < |MAXDIV|
    ensures MAXDIV[e].scale as int == Pow10(e)
  {
    if e > 0 {
      TableScale(e - 1);
      assert forall d :: 0 < d < |MAXDIV| ==> MAXDIV[d].scale as int == 10 * MAXDIV[d - 1].scale as int;
    }
  }

  lemma TableMax(e: nat)
    requires e < |MAXDIV|
    ensures MAXDIV[e].maxval as int == MAX_LNG / Pow10(e)
    ensures forall x: nat :: x <= MAXDIV[e].maxval as int <==> x * Pow10(e) <= MAX_LNG
  {
    TableScale(e);
    var (s, m) := (MAXDIV[e].scale as int, MAXDIV[e].maxval as int);
    assert m * s <= MAX_LNG < (m + 1) * s;
    forall x: nat ensures x <= m <==> x * s <= MAX_LNG {
      if x <= m {
        MulLe(x, m, s);
      } else {
        MulLe(m + 1, x, s);
      }
    }
    DivisionIs(MAX_LNG, s, m);
  }

  // More digits make no smaller number.
  lemma {:induction false} NumberGrows(mem: seq<byte>, i: nat, k: nat, m: nat)
    requires i <= k <= m <= |mem| && Digits(mem, i, m)
    ensures Number(mem, i, k) <= Number(mem, i, m)
    decreases m
  {
    if k < m {
      NumberGrows(mem, i, k, m - 1);
    }
  }

  lemma {:induction false} Pow10Grows(a: nat, b: nat)
    requires a <= b
    ensures Pow10(a) <= Pow10(b)
    decreases b
  {
    if a < b {
      Pow10Grows(a, b - 1);
    }
  }

  // The digits from j to k as a lng, or a refusal when they do not fit one.
  method ReadDigits(mem: seq<byte>, j: nat) returns (ok: bool, base: lng, p: nat)
    requires NulEnded(mem) && j < |mem| && Digit(mem[j])
    ensures ok <==> Number(mem, j, DigitsEnd(mem, j)) <= MAX_LNG
    ensures ok ==> p == DigitsEnd(mem, j) && base as int == Number(mem, j, p)
  {
    ok, base, p := true, 0, j;
    ghost var k := DigitsEnd(mem, j);
    while Digit(mem[p])
      invariant j <= p <= k && DigitsEnd(mem, p) == k
      invariant base as int == Number(mem, j, p)
      decreases |mem| - p
    {
      var dig: lng := mem[p] as lng - 48;
      if base > MAXDIV[1].maxval || (base == MAXDIV[1].maxval && dig > MAXMOD10) {
        assert Number(mem, j, p + 1) > MAX_LNG;
        NumberGrows(mem, j, p + 1, k);
        return false, base, p;
      }
      base, p := 10 * base + dig, p + 1;
    }
  }

  // Multiplies a positive base by the power of ten that follows it, or refuses.
  method Scale(mem: seq<byte>, base: lng, q: nat) returns (ok: bool, scaled: lng, p: nat)
    requires NulEnded(mem) && q < |mem| && Digit(mem[q]) && base > 0
    ensures var exp := Number(mem, q, DigitsEnd(mem, q));
            && (ok <==> base as int * Pow10(exp) <= MAX_LNG)
            && (ok ==> scaled as int == base as int * Pow10(exp) && p == DigitsEnd(mem, q))
  {
    p := q;
    var exp: lng := 0;
    ghost var k := DigitsEnd(mem, q);
    while Digit(mem[p])
      invariant q <= p <= k && DigitsEnd(mem, p) == k
      invariant exp as int == Number(mem, q, p) && exp < 19
      decreases |mem| - p
    {
      exp := exp * 10 + (mem[p] as lng - 48);
      if exp >= |MAXDIV| as lng {
        NumberGrows(mem, q, p + 1, k);
        TooLarge(base as int, Number(mem, q, k));
        return false, base, p;
      }
      p := p + 1;
    }
    var e := exp as int;
    TableScale(e);
    TableMax(e);
    if base > MAXDIV[e].maxval {
      assert base as int * Pow10(e) > MAX_LNG;
      return false, base, p;
    }
    assert base as int * Pow10(e) <= MAX_LNG;
    return true, base * MAXDIV[e].scale, p;
  }

  lemma TooLarge(base: nat, exp: nat)
    requires base > 0 && exp >= 19
    ensures base * Pow10(exp) > MAX_LNG
  {
    TableScale(18);
    Pow10Grows(19, exp);
    assert Pow10(19) == 10 * Pow10(18);
    MulLe(1, base, Pow10(exp));
  }

  // What the parser returns and stores.
  ghost predicate Stored(p: Parsed, t: Kind, r: int, v: int) {
    match p
    case NilNumber(n) => r == n && v == NilOf(t)
    case Num(x, n) => r == n && v == x && NilOf(t) < v <= MaxOf(t)
    case NotNumber => r == -1 && v == NilOf(t)
  }

  lemma NilWord(mem: seq<byte>, i: nat)
    requires i < |mem|
    ensures [110, 105, 108] <= mem[i..] <==> i + 2 < |mem| && mem[i] == 110 && mem[i + 1] == 105 && mem[i + 2] == 108
  {
    if i + 2 < |mem| {
      assert mem[i..][..3] == [mem[i], mem[i + 1], mem[i + 2]];
    }
  }

  lemma NoDigits(mem: seq<byte>, j: nat, negative: bool, t: Kind)
    requires NulEnded(mem) && j < |mem| && !Digit(mem[j])
    ensures ParseDigits(mem, j, negative, t) == NotNumber
  {
  }

  method NumFromStr(mem: seq<byte>, t: Kind) returns (r: int, v: int)
    requires NulEnded(mem)
    ensures Stored(ParseNumber(mem, t), t, r, v)
  {
    hide ParseDigits;
    if mem[0] == NIL_BYTE {
      return 1, NilOf(t);
    }
    var p := 0;
    while Space(mem[p])
      invariant p < |mem| && SkipSpaces(mem, p) == SkipSpaces(mem, 0)
      decreases |mem| - p
    {
      p := p + 1;
    }
    var sign: lng := 1;
    if !Digit(mem[p]) {
      if mem[p] == 110 {
        NilWord(mem, p);
        if mem[p + 1] == 105 && mem[p + 2] == 108 {
          return p + 3, NilOf(t);
        }
        return -1, NilOf(t);
      } else if mem[p] == 45 {
        sign, p := -1, p + 1;
      } else if mem[p] == 43 {
        p := p + 1;
      }
      if !Digit(mem[p]) {
        NoDigits(mem, p, sign < 0, t);
        return -1, NilOf(t);
      }
    }
    r, v := Magnitude(mem, t, p, sign);
  }

  // Applies the exponent at k, if there is one, to a number that is not negative.
  method Raise(mem: seq<byte>, base: lng, k: nat) returns (ok: bool, raised: lng, p: nat)
    requires NulEnded(mem) && k < |mem| && base >= 0
    ensures var (exp, end) := Exponent(mem, k);
            && (ok <==> base as int * Pow10(exp) <= MAX_LNG)
            && (ok ==> raised as int == base as int * Pow10(exp) && p == end)
  {
    ok, raised, p := true, base, k;
    if (mem[k] == 101 || mem[k] == 69) && Digit(mem[k + 1]) {
      p := k + 1;
      if base == 0 {
        while Digit(mem[p])
          invariant p < |mem| && DigitsEnd(mem, p) == DigitsEnd(mem, k + 1)
          decreases |mem| - p
        {
          p := p + 1;
        }
      } else {
        ok, raised, p := Scale(mem, base, p);
      }
    }
  }

  // The letters and spaces behind a number.
  method Trailing(mem: seq<byte>, end: nat, t: Kind) returns (p: nat)
    requires NulEnded(mem) && end < |mem|
    ensures p == SkipSpaces(mem, AfterLetters(mem, end, t))
  {
    p := end;
    if t == Lng && mem[p] == 76 && mem[p + 1] == 76 {
      p := p + 2;
    }
    while Space(mem[p])
      invariant p < |mem| && SkipSpaces(mem, p) == SkipSpaces(mem, AfterLetters(mem, end, t))
      decreases |mem| - p
    {
      p := p + 1;
    }
  }

  // Digits and exponent together, as far as 64 bits go.
  method Unsigned(mem: seq<byte>, j: nat) returns (ok: bool, base: lng, p: nat)
    requires NulEnded(mem) && j < |mem| && Digit(mem[j])
    ensures ok <==> Denoted(mem, j) <= MAX_LNG
    ensures ok ==> base as int == Denoted(mem, j) && p == Exponent(mem, DigitsEnd(mem, j)).1
  {
    hide Exponent;
    hide Number;
    hide Pow10;
    ok, base, p := ReadDigits(mem, j);
    if ok {
      ok, base, p := Raise(mem, base, p);
    } else {
      MulLe(1, Pow10(Exponent(mem, DigitsEnd(mem, j)).0), Number(mem, j, DigitsEnd(mem, j)));
    }
  }

  lemma TimesSign(b: int, s: int)
    requires s == 1 || s == -1
    ensures b * s == Signed(b, s < 0)
  {
  }

  // From the first digit on.
  method Magnitude(mem: seq<byte>, t: Kind, j: nat, sign: lng) returns (r: int, v: int)
    requires NulEnded(mem) && j < |mem| && Digit(mem[j]) && (sign == 1 || sign == -1)
    ensures Stored(ParseDigits(mem, j, sign < 0, t), t, r, v)
  {
    hide Exponent;
    hide Denoted;
    hide SkipSpaces;
    hide AfterLetters;
    hide MaxOf;
    var ok, base, p := Unsigned(mem, j);
    if !ok {
      return -1, NilOf(t);
    }
    TimesSign(base as int, sign as int);
    base := base * sign;
    if base as int < -MaxOf(t) || base as int > MaxOf(t) {
      return -1, NilOf(t);
    }
    v := base as int;
    r := Trailing(mem, p, t);
  }

  // ------------------------------------------------------------------------------------------
  // Printing.

  function Decimal(x: nat): (d: seq<byte>)
    ensures d != []
  {
    if x < 10 then [48 + x] else Decimal(x / 10) + [48 + x % 10]
  }

  // The text of an integer.
  function NumberText(v: int, t: Kind): seq<byte> {
    if v == NilOf(t) then [110, 105, 108] else if v < 0 then [45] + Decimal(-v) else Decimal(v)
  }

  lemma NoDigit(mem: seq<byte>, i: nat)
    requires i <= |mem|
    ensures Digits(mem, i, i) && Number(mem, i, i) == 0
  {
  }

  lemma OneMoreDigit(mem: seq<byte>, i: nat, k: nat)
    requires i <= k < |mem| && Digits(mem, i, k) && Digit(mem[k])
    ensures Digits(mem, i, k + 1) && Number(mem, i, k + 1) == 10 * Number(mem, i, k) + (mem[k] as int - 48)
  {
  }

  lemma {:induction false} DecimalReads(mem: seq<byte>, i: nat, x: nat)
    requires i + |Decimal(x)| <= |mem| && mem[i..i + |Decimal(x)|] == Decimal(x)
    ensures Digits(mem, i, i + |Decimal(x)|) && Number(mem, i, i + |Decimal(x)|) == x
    decreases x
  {
    hide Digits;
    hide Number;
    var front := if x < 10 then [] else Decimal(x / 10);
    var k := i + |front|;
    assert Decimal(x) == front + [48 + x % 10];
    assert mem[i..k] == mem[i..k + 1][..|front|];
    assert mem[k] == mem[i..k + 1][|front|];
    if x < 10 {
      NoDigit(mem, i);
    } else {
      DecimalReads(mem, i, x / 10);
    }
    OneMoreDigit(mem, i, k);
  }

  lemma {:induction false} DigitsEndIs(mem: seq<byte>, i: nat, k: nat)
    requires NulEnded(mem) && i <= k < |mem| && Digits(mem, i, k) && !Digit(mem[k])
    ensures DigitsEnd(mem, i) == k
    decreases k - i
  {
    if i < k {
      DigitsEndIs(mem, i + 1, k);
    }
  }

  lemma DigitsBack(mem: seq<byte>, j: nat, x: nat, negative: bool, t: Kind)
    requires x <= MaxOf(t) && |mem| == j + |Decimal(x)| + 1 && mem[|mem| - 1] == 0
    requires mem[j..|mem| - 1] == Decimal(x)
    ensures ParseDigits(mem, j, negative, t) == Num(Signed(x, negative), |mem| - 1) && Digit(mem[j])
  {
    var k := |mem| - 1;
    DecimalReads(mem, j, x);
    DigitsEndIs(mem, j, k);
    assert Exponent(mem, k) == (0, k);
    assert Number(mem, j, k) * Pow10(0) == x;
  }

  // Printing and parsing is the identity on every value, nil included.
  lemma NumberRoundTrip(v: int, t: Kind)
    requires NilOf(t) <= v <= MaxOf(t)
    ensures ParseNumber(NumberText(v, t) + [0], t) ==
            if v == NilOf(t) then NilNumber(3) else Num(v, |NumberText(v, t)|)
  {
    hide ParseDigits;
    hide Decimal;
    var mem := NumberText(v, t) + [0];
    if v == NilOf(t) {
      assert SkipSpaces(mem, 0) == 0;
      NilWord(mem, 0);
    } else {
      var (x, j) := if v < 0 then (-v, 1) else (v, 0);
      assert mem[j..|mem| - 1] == Decimal(x);
      DigitsBack(mem, j, x, v < 0, t);
    }
  }
}
