// Canonical Huffman codes as section 3.2.2 of RFC 1951 defines them, and the facts about
// them that any table-driven decoder depends on: codes fit their length, no code is a
// prefix of another, and a complete set of codes leaves no bit string undecodable.
module HuffmanCode {
  import opened Bits

  const MAX_BITS: nat := 15
  const MAX_SYMBOLS: nat := 288

  // Code lengths by symbol; length 0 means the symbol is not used.
  type Sizes = seq<nat>

  ghost predicate ValidSizes(sizes: Sizes) {
    |sizes| <= MAX_SYMBOLS && forall s :: 0 <= s < |sizes| ==> sizes[s] <= MAX_BITS
  }

  // How many of the first n symbols have code length len.
  function CountBelow(sizes: Sizes, n: nat, len: nat): (c: nat)
    requires n <= |sizes|
  {
    if n == 0 then 0 else CountBelow(sizes, n - 1, len) + (if sizes[n - 1] == len then 1 else 0)
  }

  function Count(sizes: Sizes, len: nat): nat {
    CountBelow(sizes, |sizes|, len)
  }

  // Step 2 of the algorithm: the smallest code of each length.
  function NextCode(sizes: Sizes, len: nat): nat {
    if len <= 1 then 0 else 2 * (NextCode(sizes, len - 1) + Count(sizes, len - 1))
  }

  // Step 3: consecutive codes within a length, in symbol order.
  function Code(sizes: Sizes, s: nat): nat
    requires s < |sizes|
  {
    NextCode(sizes, sizes[s]) + CountBelow(sizes, s, sizes[s])
  }

  // The number of len-bit strings that start with some code of at most len bits.
  function Covered(sizes: Sizes, len: nat): nat
    requires len > 0
  {
    NextCode(sizes, len) + Count(sizes, len)
  }

  function UsedUpTo(sizes: Sizes, len: nat): nat {
    if len == 0 then 0 else UsedUpTo(sizes, len - 1) + Count(sizes, len)
  }

  function Used(sizes: Sizes): nat {
    UsedUpTo(sizes, MAX_BITS)
  }

  // The Kraft sum, scaled by 2^16.
  function Total(sizes: Sizes): nat {
    2 * Covered(sizes, MAX_BITS)
  }

  predicate Complete(sizes: Sizes) {
    Total(sizes) == 65536
  }

  // The acceptance test of the decompressor.
  predicate Accepted(sizes: Sizes) {
    Complete(sizes) || Used(sizes) <= 1
  }

  // The bit stream x starts with the code of symbol s.
  ghost predicate StartsWith(sizes: Sizes, x: nat, s: nat) {
    s < |sizes| && sizes[s] > 0 && First(x, sizes[s]) == Code(sizes, s)
  }

  // ---- counting ----

  lemma {:induction false} CountMonotone(sizes: Sizes, m: nat, n: nat, len: nat)
    requires m <= n <= |sizes|
    ensures CountBelow(sizes, m, len) <= CountBelow(sizes, n, len) <= CountBelow(sizes, m, len) + (n - m)
  {
    if m == n {
    } else {
      CountMonotone(sizes, m, n - 1, len);
    }
  }

  lemma CountStrict(sizes: Sizes, s: nat, n: nat)
    requires s < n <= |sizes|
    ensures CountBelow(sizes, s, sizes[s]) < CountBelow(sizes, n, sizes[s])
  {
    CountMonotone(sizes, s + 1, n, sizes[s]);
  }

  lemma {:induction false} NthOfSize(sizes: Sizes, n: nat, len: nat, k: nat) returns (s: nat)
    requires n <= |sizes| && k < CountBelow(sizes, n, len)
    ensures s < n && sizes[s] == len && CountBelow(sizes, s, len) == k
  {
    if k == CountBelow(sizes, n - 1, len) {
      s := n - 1;
    } else {
      s := NthOfSize(sizes, n - 1, len, k);
    }
  }

  // ---- lengths and prefixes ----

  lemma {:induction false} CoveredGrows(sizes: Sizes, a: nat, b: nat)
    requires 0 < a <= b
    ensures Covered(sizes, a) * Pow2(b - a) <= Covered(sizes, b)
    ensures a < b ==> Covered(sizes, a) * Pow2(b - a) <= NextCode(sizes, b)
  {
    if a == b {
    } else {
      CoveredGrows(sizes, a, b - 1);
      assert Covered(sizes, a) * Pow2(b - a) == 2 * (Covered(sizes, a) * Pow2(b - 1 - a));
    }
  }

  lemma {:induction false} CoveredFits(sizes: Sizes, len: nat)
    requires 0 < len <= MAX_BITS && Total(sizes) <= 65536
    ensures Covered(sizes, len) <= Pow2(len)
    decreases MAX_BITS - len
  {
    if len == MAX_BITS {
      assert Pow2(MAX_BITS) == 32768;
    } else {
      CoveredFits(sizes, len + 1);
      assert NextCode(sizes, len + 1) == 2 * Covered(sizes, len);
    }
  }

  // With at most one used symbol the Kraft sum cannot exceed one either.
  lemma AcceptedNotOversubscribed(sizes: Sizes)
    requires Accepted(sizes)
    ensures Total(sizes) <= 65536
  {
    if !Complete(sizes) {
      FewSymbolsFit(sizes, MAX_BITS);
      assert Pow2(MAX_BITS) == 32768;
    }
  }

  lemma {:induction false} FewSymbolsFit(sizes: Sizes, len: nat)
    requires 0 < len && UsedUpTo(sizes, len) <= 1
    ensures Covered(sizes, len) <= Pow2(len)
    ensures UsedUpTo(sizes, len) == 0 ==> Covered(sizes, len) == 0
    ensures 2 * Covered(sizes, len) <= Pow2(len)
  {
    if len == 1 {
      assert UsedUpTo(sizes, 1) == UsedUpTo(sizes, 0) + Count(sizes, 1);
      assert Pow2(1) == 2;
    } else {
      FewSymbolsFit(sizes, len - 1);
      assert NextCode(sizes, len) == 2 * Covered(sizes, len - 1);
      Pow2AtLeastTwo(len - 1);
    }
  }

  lemma Pow2AtLeastTwo(n: nat)
    requires n > 0
    ensures Pow2(n) >= 2
  {
  }

  lemma CodeFits(sizes: Sizes, s: nat)
    requires ValidSizes(sizes) && Total(sizes) <= 65536
    requires s < |sizes| && sizes[s] > 0
    ensures NextCode(sizes, sizes[s]) <= Code(sizes, s) < Covered(sizes, sizes[s]) <= Pow2(sizes[s])
  {
    CountStrict(sizes, s, |sizes|);
    CoveredFits(sizes, sizes[s]);
  }

  // No code is a prefix of another.
  lemma PrefixFree(sizes: Sizes, s: nat, t: nat)
    requires ValidSizes(sizes) && Total(sizes) <= 65536
    requires s < |sizes| && t < |sizes| && s != t
    requires 0 < sizes[s] <= sizes[t]
    ensures Shr(Code(sizes, t), sizes[t] - sizes[s]) != Code(sizes, s)
  {
    CodeFits(sizes, s);
    CodeFits(sizes, t);
    if sizes[s] == sizes[t] {
      if s < t {
        CountStrict(sizes, s, t);
      } else {
        CountStrict(sizes, t, s);
      }
    } else {
      CoveredGrows(sizes, sizes[s], sizes[t]);
      ShrAtLeast(Code(sizes, t), sizes[t] - sizes[s], Covered(sizes, sizes[s]));
    }
  }

  // A stream starts with at most one code.
  lemma SymbolUnique(sizes: Sizes, x: nat, s: nat, t: nat)
    requires ValidSizes(sizes) && Total(sizes) <= 65536
    requires StartsWith(sizes, x, s) && StartsWith(sizes, x, t)
    ensures s == t
  {
    if s != t {
      var (a, b) := if sizes[s] <= sizes[t] then (s, t) else (t, s);
      ShrFirst(x, sizes[b], sizes[a]);
      PrefixFree(sizes, a, b);
      assert false;
    }
  }

  // A complete set of codes decodes every stream.
  lemma SymbolExists(sizes: Sizes, x: nat)
    requires ValidSizes(sizes) && Complete(sizes)
    ensures exists s: nat :: StartsWith(sizes, x, s)
  {
    FirstBound(x, MAX_BITS);
    assert Pow2(MAX_BITS) == 32768;
    var s := SymbolUpTo(sizes, x, MAX_BITS);
  }

  lemma {:induction false} SymbolUpTo(sizes: Sizes, x: nat, len: nat) returns (s: nat)
    requires 0 < len && First(x, len) < Covered(sizes, len)
    ensures StartsWith(sizes, x, s)
  {
    var v := First(x, len);
    if v >= NextCode(sizes, len) {
      s := NthOfSize(sizes, |sizes|, len, v - NextCode(sizes, len));
    } else {
      assert v == 2 * First(x, len - 1) + Bit(x, len - 1);
      s := SymbolUpTo(sizes, x, len - 1);
    }
  }

  // Some code is a prefix of the stream.  False only for the sets of at most one symbol that are
  // accepted although incomplete.
  ghost predicate Decodable(sizes: Sizes, x: nat) {
    exists s: nat :: StartsWith(sizes, x, s)
  }

  // The symbol a stream starts with.
  ghost function SymbolOf(sizes: Sizes, x: nat): (s: nat)
    ensures Decodable(sizes, x) ==> StartsWith(sizes, x, s)
    ensures ValidSizes(sizes) && Complete(sizes) ==> StartsWith(sizes, x, s)
    ensures !Decodable(sizes, x) ==> s == 0
  {
    assert ValidSizes(sizes) && Complete(sizes) ==> Decodable(sizes, x) by {
      if ValidSizes(sizes) && Complete(sizes) {
        SymbolExists(sizes, x);
      }
    }
    if Decodable(sizes, x) then
      var s: nat :| StartsWith(sizes, x, s);
      s
    else 0
  }
}
