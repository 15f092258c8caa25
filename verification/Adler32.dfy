// The Adler-32 checksum of section 8.2 of RFC 1950, and the code that computes it with the
// modulo deferred over blocks of 5552 bytes.
module Adler32 {
  import opened Arithmetic
  import opened Bytes

  const MODULUS: nat := 65521
  const BLOCK: nat := 5552

  datatype Sums = Sums(s1: nat, s2: nat)

  // The definition: both sums reduced after every byte.
  function Adler(s: Sums, bytes: seq<byte>): Sums {
    if bytes == [] then s
    else AddReduced(Adler(s, bytes[..|bytes| - 1]), bytes[|bytes| - 1])
  }

  function AddReduced(t: Sums, b: byte): Sums {
    var a := (t.s1 + b) % MODULUS;
    Sums(a, (t.s2 + a) % MODULUS)
  }

  // The same sums never reduced.
  function Raw(s: Sums, bytes: seq<byte>): Sums {
    if bytes == [] then s
    else
      var t := Raw(s, bytes[..|bytes| - 1]);
      var a := t.s1 + bytes[|bytes| - 1];
      Sums(a, t.s2 + a)
  }

  function Reduce(s: Sums): Sums {
    Sums(s.s1 % MODULUS, s.s2 % MODULUS)
  }

  function Pack(s: Sums): nat {
    s.s2 * 65536 + s.s1
  }

  ghost predicate Reduced(s: Sums) {
    s.s1 < MODULUS && s.s2 < MODULUS
  }

  // The checksum of a concatenation continues from the checksum of its first part.
  lemma {:induction false} AdlerConcat(s: Sums, a: seq<byte>, b: seq<byte>)
    ensures Adler(s, a + b) == Adler(Adler(s, a), b)
  {
    hide AddReduced;
    if b == [] {
      assert a + b == a;
    } else {
      var b' := b[..|b| - 1];
      AdlerConcat(s, a, b');
      assert (a + b)[..|a + b| - 1] == a + b';
    }
  }

  lemma ModAdd(a: nat, b: nat)
    ensures (a + b) % MODULUS == (a % MODULUS + b) % MODULUS
    ensures (a + b) % MODULUS == (a + b % MODULUS) % MODULUS
  {
    ModSum(a, b, MODULUS);
    ModSum(b, a, MODULUS);
  }

  // Reducing once at the end is reducing after every byte.
  lemma {:induction false} ReduceLate(s: Sums, bytes: seq<byte>)
    requires bytes != []
    ensures Reduce(Raw(s, bytes)) == Adler(s, bytes)
  {
    hide Adler;
    hide AddReduced;
    hide Reduce;
    var front := bytes[..|bytes| - 1];
    AdlerLast(s, bytes);
    var (t, b) := (Raw(s, front), bytes[|bytes| - 1]);
    ReduceByte(t, b);
    if front != [] {
      ReduceLate(s, front);
      ReducedByte(t, b);
    }
  }

  lemma ReduceByte(t: Sums, b: byte)
    ensures Reduce(Sums(t.s1 + b, t.s2 + (t.s1 + b))) == AddReduced(t, b)
  {
    ModAdd(t.s2, t.s1 + b);
  }

  lemma ReducedByte(t: Sums, b: byte)
    ensures AddReduced(Reduce(t), b) == AddReduced(t, b)
  {
    ModAdd(t.s1, b);
    ModAdd(t.s2, (t.s1 + b) % MODULUS);
  }

  // It does not matter whether the starting sums were reduced.
  lemma {:induction false} ReduceStart(s: Sums, bytes: seq<byte>)
    requires bytes != []
    ensures Adler(Reduce(s), bytes) == Adler(s, bytes)
    decreases |bytes|
  {
    hide Adler;
    hide AddReduced;
    hide Reduce;
    var front := bytes[..|bytes| - 1];
    AdlerLast(s, bytes);
    AdlerLast(Reduce(s), bytes);
    if front != [] {
      ReduceStart(s, front);
    } else {
      ReducedByte(s, bytes[|bytes| - 1]);
    }
  }

  lemma {:induction false} AdlerLast(s: Sums, bytes: seq<byte>)
    requires bytes != []
    ensures Adler(s, bytes) == AddReduced(Adler(s, bytes[..|bytes| - 1]), bytes[|bytes| - 1]) && Adler(s, []) == s
  {
    hide AddReduced;
  }

  lemma {:induction false} RawBound(s: Sums, bytes: seq<byte>)
    ensures Raw(s, bytes).s1 <= s.s1 + 255 * |bytes|
    ensures 2 * Raw(s, bytes).s2 <= 2 * s.s2 + 2 * |bytes| * s.s1 + 255 * (|bytes| * (|bytes| + 1))
  {
    if bytes == [] {
    } else {
      RawBound(s, bytes[..|bytes| - 1]);
      var n := |bytes|;
      assert 2 * (n - 1) * s.s1 == 2 * n * s.s1 - 2 * s.s1;
      assert (n - 1) * n + 2 * n == n * (n + 1);
    }
  }

  // Sums that start below 2^16 do not overflow 32 bits anywhere within a block.
  lemma BlockFitsUint32(s: Sums, bytes: seq<byte>, k: nat)
    requires s.s1 < 65536 && s.s2 < 65536 && k <= |bytes| <= BLOCK
    ensures Raw(s, bytes[..k]).s1 < 0x1_0000_0000 && Raw(s, bytes[..k]).s2 < 0x1_0000_0000
  {
    hide Raw;
    RawBound(s, bytes[..k]);
    MulBound(k, s.s1, BLOCK, 65535);
    MulBound(k, k + 1, BLOCK, BLOCK + 1);
    assert 2 * k * s.s1 == 2 * (k * s.s1);
  }

  lemma MulBound(a: nat, b: nat, c: nat, d: nat)
    requires a <= c && b <= d
    ensures a * b <= c * d
  {
    assert a * b <= c * b;
    assert c * b <= c * d;
  }

  lemma RawNext(s: Sums, bytes: seq<byte>, k: nat)
    requires k < |bytes|
    ensures var t := Raw(s, bytes[..k]);
            Raw(s, bytes[..k + 1]) == Sums(t.s1 + bytes[k], t.s2 + t.s1 + bytes[k])
  {
    assert bytes[..k + 1][..k] == bytes[..k];
  }

  method AddByte(s: Sums, bytes: seq<byte>, i: nat, t: Sums) returns (r: Sums)
    requires i < |bytes| && t == Raw(s, bytes[..i])
    ensures r == Raw(s, bytes[..i + 1])
  {
    RawNext(s, bytes, i);
    var s1 := t.s1 + bytes[i];
    r := Sums(s1, t.s2 + s1);
  }

  // One block: eight bytes per round, then the rest one by one; no modulo, no overflow.
  method SumBlock(s: Sums, bytes: seq<byte>) returns (t: Sums)
    requires s.s1 < 65536 && s.s2 < 65536 && |bytes| <= BLOCK
    ensures t == Raw(s, bytes)
    ensures t.s1 < 0x1_0000_0000 && t.s2 < 0x1_0000_0000
  {
    hide Raw;
    t := s;
    RawEmpty(s, bytes);
    var i := 0;
    while i + 7 < |bytes|
      invariant 0 <= i <= |bytes| && t == Raw(s, bytes[..i])
      decreases |bytes| - i
    {
      t := AddByte(s, bytes, i, t);
      t := AddByte(s, bytes, i + 1, t);
      t := AddByte(s, bytes, i + 2, t);
      t := AddByte(s, bytes, i + 3, t);
      t := AddByte(s, bytes, i + 4, t);
      t := AddByte(s, bytes, i + 5, t);
      t := AddByte(s, bytes, i + 6, t);
      t := AddByte(s, bytes, i + 7, t);
      i := i + 8;
    }
    while i < |bytes|
      invariant 0 <= i <= |bytes| && t == Raw(s, bytes[..i])
    {
      t := AddByte(s, bytes, i, t);
      i := i + 1;
    }
    assert bytes[..i] == bytes;
    BlockFitsUint32(s, bytes, i);
  }

  lemma RawEmpty(s: Sums, bytes: seq<byte>)
    ensures Raw(s, bytes[..0]) == s
  {
  }

  // The sums after the buffer.  Only an empty buffer leaves unreduced sums unreduced.
  function After(s: Sums, bytes: seq<byte>): Sums {
    if bytes == [] then s else Adler(s, bytes)
  }

  // The sums after the first pos bytes, possibly with the starting sums already reduced.
  ghost predicate At(start: Sums, bytes: seq<byte>, pos: nat, s: Sums)
    requires pos <= |bytes|
  {
    s == After(start, bytes[..pos]) || (pos == 0 && s == Reduce(start))
  }

  lemma BlockStep(start: Sums, bytes: seq<byte>, pos: nat, len: nat, s: Sums)
    requires pos + len <= |bytes| && At(start, bytes, pos, s)
    ensures At(start, bytes, pos + len, Reduce(Raw(s, bytes[pos..pos + len])))
  {
    var block := bytes[pos..pos + len];
    if len == 0 {
      if pos > 0 {
        AdlerReduces(start, bytes[..pos]);
      }
    } else {
      ReduceLate(s, block);
      if pos == 0 {
        assert bytes[..len] == block;
        ReduceStart(start, block);
      } else {
        assert bytes[..pos + len] == bytes[..pos] + block;
        AdlerConcat(start, bytes[..pos], block);
      }
    }
  }

  lemma AdlerReduces(s: Sums, bytes: seq<byte>)
    requires bytes != []
    ensures Reduced(Adler(s, bytes)) && Reduce(Adler(s, bytes)) == Adler(s, bytes)
  {
  }

  // Blocks of 5552 after a first, shorter and possibly empty one.
  method Checksum(adler: nat, bytes: seq<byte>) returns (r: nat)
    requires adler < 0x1_0000_0000
    ensures r == Pack(After(Sums(adler % 65536, adler / 65536), bytes))
    ensures r < 0x1_0000_0000
  {
    hide Raw;
    hide Adler;
    ghost var start := Sums(adler % 65536, adler / 65536);
    var s := Sums(adler % 65536, adler / 65536);
    var bufLen, blockLen := |bytes|, |bytes| % BLOCK;
    var pos := 0;
    ghost var q: int := |bytes| / BLOCK;
    assert bytes[..0] == [];
    while bufLen != 0
      invariant pos + bufLen == |bytes| && bufLen == blockLen + 5552 * q && 0 <= blockLen <= BLOCK
      invariant q >= 0 || (q == -1 && blockLen == BLOCK)
      invariant blockLen == BLOCK || pos == 0
      invariant At(start, bytes, pos, s) && s.s1 < 65536 && s.s2 < 65536
      invariant pos > 0 || bufLen > 0 || s == start
      decreases bufLen, if blockLen == 0 then 1 else 0
    {
      var t := SumBlock(s, bytes[pos..pos + blockLen]);
      BlockStep(start, bytes, pos, blockLen, s);
      s := Reduce(t);
      pos, bufLen, blockLen, q := pos + blockLen, bufLen - blockLen, BLOCK, q - 1;
    }
    assert bytes[..pos] == bytes;
    r := s.s2 * 65536 + s.s1;
  }

  lemma Unpack(s: Sums)
    requires s.s1 < 65536
    ensures Sums(Pack(s) % 65536, Pack(s) / 65536) == s
  {
  }

  // Checksumming a buffer in two calls is checksumming it in one.
  lemma ChecksumContinues(s: Sums, a: seq<byte>, b: seq<byte>)
    requires s.s1 < 65536 && s.s2 < 65536
    ensures var p := Pack(After(s, a));
            Pack(After(s, a + b)) == Pack(After(Sums(p % 65536, p / 65536), b))
  {
    hide Adler;
    AdlerConcat(s, a, b);
    if a == [] {
      assert a + b == b;
    } else {
      AdlerReduces(s, a);
      if b == [] {
        assert a + b == a;
      }
    }
    Unpack(After(s, a));
  }
}
