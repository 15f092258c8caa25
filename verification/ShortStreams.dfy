// Two short inputs of fixed blocks on which the decompressor is done although they are no streams: the
// bytes 73 1C 03 00, which take it outside the definition, and the byte 03, which ends too early.
module ShortStreams {
  import opened Bits
  import opened HuffmanCode
  import opened HuffmanTrie
  import opened Bytes
  import opened Inflate
  import opened DeflateSpec
  import opened Straying

  // ---- symbols of the fixed literal code ----

  lemma FixedNext()
    ensures NextCode(FixedLit(), 7) == 0 && NextCode(FixedLit(), 8) == 48
  {
    var lit := FixedLit();
    forall l: nat | l < 7 ensures Count(lit, l) == 0 {
      FixedLitCounts(l);
    }
    FixedLitCounts(7);
    NothingShorter(lit, 7);
  }

  lemma FixedCodes()
    ensures Code(FixedLit(), 65) == 113 && Code(FixedLit(), 256) == 0 && Code(FixedLit(), 286) == 198
  {
    hide NextCode;
    hide CountBelow;
    hide FixedLit;
    FixedRanges();
    FixedNext();
    FixedCounts();
  }

  lemma FixedCounts()
    ensures var lit := FixedLit();
            CountBelow(lit, 65, 8) == 65 && CountBelow(lit, 256, 7) == 0 && CountBelow(lit, 286, 8) == 150
  {
    var lit := FixedLit();
    hide FixedLit;
    hide CountBelow;
    FixedRanges();
    NoneBelow(lit, 7);
    NoneBelow(lit, 8);
    CountRange(lit, 0, 65, 8, 8);
    CountRange(lit, 0, 144, 8, 8);
    CountRange(lit, 144, 256, 9, 8);
    CountRange(lit, 256, 280, 7, 8);
    CountRange(lit, 280, 286, 8, 8);
    CountRange(lit, 0, 144, 8, 7);
    CountRange(lit, 144, 256, 9, 7);
  }

  lemma FixedSymbol(w: nat, at: nat, s: nat)
    requires StartsWith(FixedLit(), Shr(w, at), s)
    ensures SymbolAt(FixedLit(), w, at) == s && Behind(FixedLit(), w, at) == at + FixedLit()[s] && !StraysAt(FixedLit(), w, at)
  {
    hide Total;
    FixedCodesComplete();
    SymbolUnique(FixedLit(), Shr(w, at), s, SymbolOf(FixedLit(), Shr(w, at)));
  }

  // ---- a reserved length symbol ----

  // The bytes 73 1C 03 00: literal 65, length symbol 286, distance symbol 0, end.
  const RESERVED: nat := 0x0003_1C73

  lemma NextBit(x: nat, n: nat, rest: nat, first: nat)
    requires Shr(x, n) == rest && First(x, n) == first
    ensures Shr(x, n + 1) == rest / 2 && First(x, n + 1) == 2 * first + rest % 2
  {
  }

  lemma NoBit(x: nat)
    ensures Shr(x, 0) == x && First(x, 0) == 0
  {
  }

  lemma ReservedHeader()
    ensures Shr(RESERVED, 0) % 2 == 1 && Field(RESERVED, 1, 2) == 1 && Shr(RESERVED, 3) == 25486
  {
    hide Shr;
    hide First;
    NoBit(RESERVED);
    NextBit(RESERVED, 0, 203891, 0);
    NextBit(RESERVED, 1, 101945, 1);
    NextBit(RESERVED, 2, 50972, 3);
    assert Pow2(2) == 4;
  }

  lemma LiteralBits()
    ensures First(25486, 8) == 113 && Shr(25486, 8) == 99
  {
    hide Shr;
    hide First;
    NoBit(25486);
    NextBit(25486, 0, 25486, 0);
    NextBit(25486, 1, 12743, 0);
    NextBit(25486, 2, 6371, 1);
    NextBit(25486, 3, 3185, 3);
    NextBit(25486, 4, 1592, 7);
    NextBit(25486, 5, 796, 14);
    NextBit(25486, 6, 398, 28);
    NextBit(25486, 7, 199, 56);
  }

  lemma LengthBits()
    ensures First(99, 8) == 198
  {
    hide Shr;
    hide First;
    NoBit(99);
    NextBit(99, 0, 99, 0);
    NextBit(99, 1, 49, 1);
    NextBit(99, 2, 24, 3);
    NextBit(99, 3, 12, 6);
    NextBit(99, 4, 6, 12);
    NextBit(99, 5, 3, 24);
    NextBit(99, 6, 1, 49);
    NextBit(99, 7, 0, 99);
  }

  lemma ReservedRun()
    ensures Codes(FixedLit(), FixedDist()) && Run(FixedLit(), FixedDist(), RESERVED, 3, [], 2) == Reserved([65])
  {
    hide Shr;
    hide First;
    hide SymbolAt;
    hide Behind;
    hide StraysAt;
    hide Complete;
    hide Used;
    hide Code;
    var (lit, dist) := (FixedLit(), FixedDist());
    FixedCodesComplete();
    FixedCodes();
    ReservedHeader();
    LiteralBits();
    LengthBits();
    FixedRanges();
    ShrShr(RESERVED, 3, 8);
    FixedSymbol(RESERVED, 3, 65);
    FixedSymbol(RESERVED, 11, 286);
    NoStep(lit, dist, RESERVED, 3, []);
    assert Run(lit, dist, RESERVED, 3, [], 1) == Running(11, [65], false);
  }

  lemma ReservedBlock(wrapping: bool)
    ensures BlockOutside(RESERVED, 0, [], wrapping)
  {
    hide Run;
    hide Field;
    ReservedHeader();
    ReservedRun();
    assert OutsideAt(Run(FixedLit(), FixedDist(), RESERVED, 3, [], 2), wrapping);
  }

  // Nothing is read of it.
  lemma NothingRead(at: nat, out: seq<byte>, done: bool, stray: bool)
    ensures !Blocks(RESERVED, 0, [], 1, at, out, done, stray)
  {
    hide BlockRead;
    hide BlockOutside;
    if Blocks(RESERVED, 0, [], 1, at, out, done, stray) {
      ReservedBlock(false);
      var a, o, s, here := LastBlock(RESERVED, 0, [], 1, at, out, done, stray);
      OutsideBlock(RESERVED, 0, [], false, done, at, out, here);
    }
  }

  lemma NoBlocks(w: nat, at: nat, out: seq<byte>, stray: bool)
    requires Blocks(w, 0, [], 0, at, out, false, stray)
    ensures at == 0 && out == []
  {
  }

  lemma ReservedFirst(k: nat, at: nat, out: seq<byte>, stray: bool)
    requires Blocks(RESERVED, 0, [], k, at, out, false, stray)
    ensures k == 0 && at == 0 && out == []
  {
    hide Blocks;
    if k == 0 {
      NoBlocks(RESERVED, at, out, stray);
    } else if k == 1 {
      NothingRead(at, out, false, stray);
    } else if k > 1 {
      var a, o, s := BlocksBefore(RESERVED, 0, [], 1, k, at, out, false, stray);
      NothingRead(a, o, false, s);
    }
  }

  // The stream neither means anything nor strays: it is outside the definition.
  lemma ReservedStream(wrapping: bool)
    ensures RESERVED == LittleEndian([0x73, 0x1C, 0x03, 0x00])
    ensures Outside(RESERVED, 0, wrapping) && !Strays(RESERVED, 0)
    ensures forall out: seq<byte> :: !Meant(RESERVED, 0, out)
  {
    hide BlockOutside;
    hide BlockComplete;
    hide Field;
    FourBytes();
    ReservedBlock(wrapping);
    assert Blocks(RESERVED, 0, [], 0, 0, [], false, false);
    forall k: nat, at: nat, out: seq<byte>, stray: bool | Blocks(RESERVED, 0, [], k, at, out, false, stray)
      ensures BlockComplete(RESERVED, at)
    {
      ReservedFirst(k, at, out, stray);
      FixedIsComplete();
    }
    CompleteStreamStays(RESERVED, 0);
    forall out: seq<byte> ensures !Meant(RESERVED, 0, out) {
      forall at: nat ensures !Means(RESERVED, 0, at, out) {
        OutsideStream(RESERVED, 0, wrapping, at, out, false);
      }
    }
  }

  lemma FixedIsComplete()
    ensures BlockComplete(RESERVED, 0)
  {
    hide Shr;
    ReservedHeader();
  }

  lemma FourBytes()
    ensures LittleEndian([0x73, 0x1C, 0x03, 0x00]) == RESERVED
  {
    LittleEndianCons(0x73, [0x1C, 0x03, 0x00]);
    LittleEndianCons(0x1C, [0x03, 0x00]);
    LittleEndianCons(0x03, [0x00]);
    LittleEndianCons(0x00, []);
    assert [0x73] + [0x1C, 0x03, 0x00] == [0x73, 0x1C, 0x03, 0x00];
    assert [0x1C] + [0x03, 0x00] == [0x1C, 0x03, 0x00];
    assert [0x03] + [0x00] == [0x03, 0x00];
    assert [0x00] + [] == [0x00];
  }

  // ---- an input that ends too early ----

  lemma EarlyBits()
    ensures Shr(3, 0) % 2 == 1 && Field(3, 1, 2) == 1 && Shr(3, 3) == 0
  {
    hide Shr;
    hide First;
    NoBit(3);
    NextBit(3, 0, 3, 0);
    NextBit(3, 1, 1, 1);
    NextBit(3, 2, 0, 3);
    assert Pow2(2) == 4;
  }

  lemma EarlySymbol()
    ensures StartsWith(FixedLit(), 0, 256)
  {
    hide Shr;
    hide First;
    hide Code;
    FixedCodes();
    FixedRanges();
    NoBit(0);
    NextBit(0, 0, 0, 0);
    NextBit(0, 1, 0, 0);
    NextBit(0, 2, 0, 0);
    NextBit(0, 3, 0, 0);
    NextBit(0, 4, 0, 0);
    NextBit(0, 5, 0, 0);
    NextBit(0, 6, 0, 0);
  }

  // The end symbol of the single byte 03 runs two bits past the input, where zeros are read: the
  // stream means nothing but an empty output, and ends behind the input.
  lemma EarlyEnd()
    ensures LittleEndian([3]) == 3
    ensures Means(3, 0, 10, [])
  {
    hide Field;
    hide Shr;
    hide SymbolAt;
    hide Behind;
    hide StraysAt;
    hide Complete;
    hide Used;
    hide StartsWith;
    LittleEndianCons(3, []);
    assert [3] + [] == [3];
    var (lit, dist) := (FixedLit(), FixedDist());
    FixedCodesComplete();
    EarlyBits();
    EarlySymbol();
    FixedRanges();
    FixedSymbol(3, 3, 256);
    NoStep(lit, dist, 3, 3, []);
    assert Run(lit, dist, 3, 3, [], 1) == Ended(10, [], false);
    assert BlockRead(3, 0, [], true, 10, [], false);
    assert Blocks(3, 0, [], 0, 0, [], false, false) && Either(false, false, false);
    assert Blocks(3, 0, [], 1, 10, [], true, false);
  }
}
