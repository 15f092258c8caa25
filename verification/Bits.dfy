// Bit streams as natural numbers.  Bit i of the number is the i-th bit read, which is
// how the decompressor sees its bit buffer: least significant bit first.
module Bits {
  import opened Arithmetic

  function Pow2(n: nat): (p: nat)
    ensures p >= 1
  {
    if n == 0 then 1 else 2 * Pow2(n - 1)
  }

  // The C expression x >> n.
  function Shr(x: nat, n: nat): nat {
    if n == 0 then x else Shr(x, n - 1) / 2
  }

  function Bit(x: nat, i: nat): nat {
    Shr(x, i) % 2
  }

  // The first n bits of the stream x, the first one read being the most significant.
  // This is the order in which section 3.1.1 of RFC 1951 packs Huffman codes.
  function First(x: nat, n: nat): nat {
    if n == 0 then 0 else 2 * First(x, n - 1) + Bit(x, n - 1)
  }

  lemma {:induction false} ShrShr(x: nat, a: nat, b: nat)
    ensures Shr(Shr(x, a), b) == Shr(x, a + b)
  {
    if b == 0 {
    } else {
      ShrShr(x, a, b - 1);
    }
  }

  lemma {:induction false} ShrHalf(x: nat, n: nat)
    requires n > 0
    ensures Shr(x, n) == Shr(x / 2, n - 1)
  {
    ShrShr(x, 1, n - 1);
    assert Shr(x, 1) == x / 2 by { assert Shr(x, 0) == x; }
  }

  // Shifting is dividing by a power of two, stated without division.
  lemma {:induction false} ShrAtLeast(x: nat, n: nat, c: nat)
    ensures Shr(x, n) >= c <==> x >= c * Pow2(n)
  {
    if n == 0 {
    } else {
      ShrAtLeast(x, n - 1, 2 * c);
      assert 2 * c * Pow2(n - 1) == c * Pow2(n);
    }
  }

  lemma {:induction false} Pow2Add(a: nat, b: nat)
    ensures Pow2(a + b) == Pow2(a) * Pow2(b)
  {
    if b == 0 {
    } else {
      Pow2Add(a, b - 1);
    }
  }

  lemma {:induction false} ShrBound(x: nat, n: nat, m: nat)
    requires x < Pow2(n + m)
    ensures Shr(x, n) < Pow2(m)
  {
    ShrAtLeast(x, n, Pow2(m));
    Pow2Add(n, m);
  }

  lemma {:induction false} ShrAddHigh(lo: nat, hi: nat, n: nat, k: nat)
    requires k <= n
    ensures Shr(lo + Pow2(n) * hi, k) == Shr(lo, k) + Pow2(n - k) * hi
  {
    if k == 0 {
    } else {
      ShrAddHigh(lo, hi, n, k - 1);
      assert Pow2(n - k + 1) * hi == 2 * (Pow2(n - k) * hi);
    }
  }

  lemma {:induction false} FirstBound(x: nat, n: nat)
    ensures First(x, n) < Pow2(n)
  {
    if n == 0 {
    } else {
      FirstBound(x, n - 1);
    }
  }

  lemma {:induction false} ShrFirst(x: nat, n: nat, d: nat)
    requires d <= n
    ensures Shr(First(x, n), n - d) == First(x, d)
    decreases n
  {
    if d == n {
    } else {
      ShrHalf(First(x, n), n - d);
      ShrFirst(x, n - 1, d);
    }
  }

  // Reversing the bits twice gives the number back: the packed form of a code, read
  // first bit first, is the code.
  lemma {:induction false} FirstOfReversed(c: nat, n: nat, d: nat)
    requires d <= n && c < Pow2(n)
    ensures First(First(c, n), d) == Shr(c, n - d)
  {
    if d == 0 {
      ShrBound(c, n, 0);
    } else {
      FirstOfReversed(c, n, d - 1);
      ShrFirst(c, n, n - (d - 1));
      assert Bit(First(c, n), d - 1) == First(c, n - d + 1) % 2 == Bit(c, n - d);
    }
  }

  // First(x, n) and x % Pow2(n) carry the same information.
  lemma {:induction false} FirstEqualsMod(x: nat, y: nat, n: nat)
    ensures First(x, n) == First(y, n) <==> x % Pow2(n) == y % Pow2(n)
  {
    if n == 0 {
    } else {
      FirstEqualsMod(x, y, n - 1);
      ModStep(x, n);
      ModStep(y, n);
      var p := Pow2(n - 1);
      var (a, b) := (x % p, y % p);
      assert x % Pow2(n) == a + p * Bit(x, n - 1) && y % Pow2(n) == b + p * Bit(y, n - 1);
      assert First(x, n) == First(y, n) ==> Bit(x, n - 1) == Bit(y, n - 1);
    }
  }

  lemma {:induction false} DivMod(x: nat, n: nat)
    ensures x == Shr(x, n) * Pow2(n) + x % Pow2(n)
  {
    ShrAtLeast(x, n, Shr(x, n));
    ShrAtLeast(x, n, Shr(x, n) + 1);
    var (p, q) := (Pow2(n), Shr(x, n));
    assert q * p <= x < q * p + p;
    DivisionIs(x, p, q);
  }

  lemma {:induction false} ModStep(x: nat, n: nat)
    requires n > 0
    ensures x % Pow2(n) == x % Pow2(n - 1) + Pow2(n - 1) * Bit(x, n - 1)
  {
    DivMod(x, n - 1);
    var p := Pow2(n - 1);
    SplitLowBit(x, p, Shr(x, n - 1), x % p);
  }

  lemma SplitLowBit(x: nat, p: nat, h: nat, r: nat)
    requires p > 0 && x == h * p + r && r < p
    ensures x % (2 * p) == r + p * (h % 2)
  {
    var q := h / 2;
    if h % 2 == 0 {
      assert x == q * (2 * p) + r by { assert h * p == (2 * q) * p; }
      DivisionIs(x, 2 * p, q);
    } else {
      assert x == q * (2 * p) + (p + r) by { assert h * p == (2 * q + 1) * p; }
      DivisionIs(x, 2 * p, q);
    }
  }

  lemma AddEven(a: nat, p: nat, h: nat)
    ensures (a + 2 * p * h) % 2 == a % 2
  {
    var k := p * h;
    assert 2 * p * h == 2 * k;
  }

  lemma BitAddHigh(lo: nat, hi: nat, m: nat, i: nat)
    requires i < m
    ensures Bit(lo + Pow2(m) * hi, i) == Bit(lo, i)
  {
    ShrAddHigh(lo, hi, m, i);
    AddEven(Shr(lo, i), Pow2(m - i - 1), hi);
  }

  // A stream's first n bits do not depend on what follows them.
  lemma {:induction false} FirstAddHigh(lo: nat, hi: nat, m: nat, n: nat)
    requires n <= m
    ensures First(lo + Pow2(m) * hi, n) == First(lo, n)
  {
    if n == 0 {
    } else {
      FirstAddHigh(lo, hi, m, n - 1);
      BitAddHigh(lo, hi, m, n - 1);
      var x := lo + Pow2(m) * hi;
      assert First(x, n) == 2 * First(x, n - 1) + Bit(x, n - 1);
    }
  }

  lemma {:induction false} FirstMod(x: nat, m: nat, n: nat)
    requires n <= m
    ensures First(x % Pow2(m), n) == First(x, n)
  {
    hide First;
    hide Shr;
    hide Pow2;
    DivMod(x, m);
    assert x == x % Pow2(m) + Pow2(m) * Shr(x, m);
    FirstAddHigh(x % Pow2(m), Shr(x, m), m, n);
  }
}
