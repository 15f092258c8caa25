// Bytes, and numbers stored in them least significant byte first.
module Bytes {
  import opened Bits

  type byte = b: nat | b < 256

  // The nil string consists of this byte.
  const NIL_BYTE: byte := 0x80

  function LittleEndian(bytes: seq<byte>): nat {
    if bytes == [] then 0 else bytes[0] + 256 * LittleEndian(bytes[1..])
  }

  // The n low bytes of x.
  function LeBytes(x: nat, n: nat): (b: seq<byte>)
    ensures |b| == n
  {
    if n == 0 then [] else [x % 256] + LeBytes(x / 256, n - 1)
  }

  lemma LittleEndianCons(c: byte, rest: seq<byte>)
    ensures LittleEndian([c] + rest) == c + 256 * LittleEndian(rest)
  {
    assert ([c] + rest)[1..] == rest;
  }

  lemma Pow2Byte(n: nat)
    ensures Pow2(n + 8) == Pow2(n) * 256
  {
    Pow2Add(n, 8);
    assert Pow2(8) == 256;
  }

  // Reading back what was stored.
  lemma {:induction false} StoreLoad(x: nat, n: nat)
    requires x < Pow2(8 * n)
    ensures LittleEndian(LeBytes(x, n)) == x
  {
    if n > 0 {
      Pow2Byte(8 * (n - 1));
      StoreLoad(x / 256, n - 1);
      LittleEndianCons(x % 256, LeBytes(x / 256, n - 1));
    }
  }

  lemma {:induction false} LittleEndianBound(b: seq<byte>)
    ensures LittleEndian(b) < Pow2(8 * |b|)
  {
    if b != [] {
      LittleEndianBound(b[1..]);
      Pow2Byte(8 * (|b| - 1));
    }
  }
}
