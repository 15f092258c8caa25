// One stream that strays: a stored block with the byte 65, then a dynamic block whose distance code
// is a single code of one bit, in which a length is followed by the other bit.  It is read to its end.
module StrayStream {
  import opened Arithmetic
  import opened Bits
  import opened HuffmanCode
  import opened Bytes
  import opened Inflate
  import opened DeflateSpec
  import opened Straying
  import opened HuffmanTrie
  import opened Window

  // A stream as a list of bit fields: how many bits, and their value.
  function Pack(fields: seq<(nat, nat)>): nat {
    if fields == [] then 0 else fields[0].1 + Pow2(fields[0].0) * Pack(fields[1..])
  }

  const STREAM: seq<(nat, nat)> := [
    (1, 0), (2, 0), (5, 0), (16, 1), (16, 65534), (8, 65), // a stored block of one byte
    (1, 1), (2, 2), (5, 1), (5, 0), (4, 14), // the last block, dynamic: 258 and 1 lengths, 18 code lengths
    (3, 0), (3, 0), (3, 1), (3, 0), (3, 0), (3, 0), (3, 0), (3, 0), (3, 0), // 18 has length 1
    (3, 0), (3, 0), (3, 0), (3, 0), (3, 0), (3, 0), (3, 0), (3, 0), (3, 1), // and so has 1
    (1, 1), (7, 127), (1, 1), (7, 107), // 138 and 118 zeros
    (1, 0), (1, 0), (1, 0), // three lengths 1: of 256, of 257 and of distance 0
    (1, 1), (1, 1)] // length symbol 257, and a bit that is no distance code; zeros follow

  function Stream(): nat {
    Pack(STREAM)
  }

  // Field i starts at this position.
  ghost predicate At(at: nat, i: nat)
    requires i <= |STREAM|
  {
    Shr(Stream(), at) == Pack(STREAM[i..])
  }

  lemma Next(at: nat, i: nat)
    requires i < |STREAM| && At(at, i)
    ensures Field(Stream(), at, STREAM[i].0) == STREAM[i].1 && At(at + STREAM[i].0, i + 1)
  {
    hide Pack;
    hide Stream;
    hide Pow2;
    FieldFits(i);
    TakeField(Stream(), at, STREAM[i..]);
    assert STREAM[i..][1..] == STREAM[i + 1..];
  }

  lemma TakeField(w: nat, at: nat, fields: seq<(nat, nat)>)
    requires fields != [] && Shr(w, at) == Pack(fields) && fields[0].1 < Pow2(fields[0].0)
    ensures Field(w, at, fields[0].0) == fields[0].1 && Shr(w, at + fields[0].0) == Pack(fields[1..])
  {
    hide Shr;
    hide Pow2;
    TakeLow(fields[0].1, Pack(fields[1..]), fields[0].0);
    ShrShr(w, at, fields[0].0);
  }

  lemma FieldFits(i: nat)
    requires i < |STREAM|
    ensures STREAM[i].1 < Pow2(STREAM[i].0)
  {
    Pow2Table();
    assert Pow2(16) == 65536 by { Pow2Add(8, 8); }
  }

  lemma TakeLow(v: nat, high: nat, n: nat)
    requires v < Pow2(n)
    ensures Shr(v + Pow2(n) * high, n) == high && (v + Pow2(n) * high) % Pow2(n) == v
  {
    ShrBound(v, n, 0);
    ShrAddHigh(v, high, n, n);
    assert high * Pow2(n) == Pow2(n) * high;
    DivisionIs(v + Pow2(n) * high, Pow2(n), high);
  }

  // ---- two symbols of length 1 ----

  // Only a and b have a length, which is 1.
  ghost predicate TwoSymbols(sizes: Sizes, a: nat, b: nat) {
    a < b < |sizes| <= MAX_SYMBOLS && forall i :: 0 <= i < |sizes| ==> sizes[i] == if i == a || i == b then 1 else 0
  }

  lemma {:induction false} TwoCounts(sizes: Sizes, a: nat, b: nat, n: nat, len: nat)
    requires TwoSymbols(sizes, a, b) && n <= |sizes| && len > 0
    ensures CountBelow(sizes, n, len) == if len == 1 then (if a < n then 1 else 0) + (if b < n then 1 else 0) else 0
  {
    if n > 0 {
      TwoCounts(sizes, a, b, n - 1, len);
    }
  }

  lemma TwoComplete(sizes: Sizes, a: nat, b: nat)
    requires TwoSymbols(sizes, a, b)
    ensures ValidSizes(sizes) && Complete(sizes)
  {
    forall l: nat | l > 0 ensures Count(sizes, l) == if l == 1 then 2 else 0 {
      TwoCounts(sizes, a, b, |sizes|, l);
    }
    assert Covered(sizes, 1) == 2;
    CoveredDoubles(sizes, 1, 14);
    Pow2Add(7, 7);
    assert Pow2(7) == 128;
  }

  // The smaller symbol has the code 0, the other one the code 1.
  lemma SymbolOfTwo(sizes: Sizes, a: nat, b: nat, x: nat)
    requires TwoSymbols(sizes, a, b)
    ensures Decodable(sizes, x) && SymbolOf(sizes, x) == if x % 2 == 0 then a else b
  {
    TwoComplete(sizes, a, b);
    var s := if x % 2 == 0 then a else b;
    TwoCounts(sizes, a, b, s, 1);
    FirstBit(x);
    assert StartsWith(sizes, x, s);
    SymbolUnique(sizes, x, s, SymbolOf(sizes, x));
  }

  lemma FirstBit(x: nat)
    ensures First(x, 1) == x % 2
  {
    assert First(x, 0) == 0 && Shr(x, 0) == x;
  }

  // ---- the stored block ----

  lemma Start()
    ensures At(0, 0)
  {
    hide Pack;
    assert STREAM[0..] == STREAM;
  }

  lemma StoredFields()
    ensures At(48, 6) && Field(Stream(), 0, 1) == 0 && Field(Stream(), 1, 2) == 0
    ensures Field(Stream(), 8, 16) == 1 && Field(Stream(), 24, 16) == 65534 && Field(Stream(), 40, 8) == 65
  {
    hide Stream;
    hide At;
    hide Field;
    Start();
    Next(0, 0);
    Next(1, 1);
    Next(3, 2);
    Next(8, 3);
    Next(24, 4);
    Next(40, 5);
  }

  lemma Stored()
    ensures BlockRead(Stream(), 0, [], false, 48, [65], false)
  {
    StoredFields();
    OneByteStored(Stream());
  }

  lemma OneByteStored(w: nat)
    requires Field(w, 0, 1) == 0 && Field(w, 1, 2) == 0
    requires Field(w, 8, 16) == 1 && Field(w, 24, 16) == 65534 && Field(w, 40, 8) == 65
    ensures BlockRead(w, 0, [], false, 48, [65], false)
  {
    hide Shr;
    OneBit(w, 0);
    assert Pow2(8) == 256;
    assert BytesAt(w, 40, 1) == BytesAt(w, 40, 0) + [65];
  }

  // ---- the header of the dynamic block ----

  lemma Counts()
    ensures At(65, 11) && Shr(Stream(), 48) % 2 == 1 && Field(Stream(), 49, 2) == 2
    ensures Field(Stream(), 51, 5) == 1 && Field(Stream(), 56, 5) == 0 && Field(Stream(), 61, 4) == 14
  {
    hide Stream;
    hide At;
    hide Field;
    hide Shr;
    StoredFields();
    Next(48, 6);
    Next(49, 7);
    Next(51, 8);
    Next(56, 9);
    Next(61, 10);
    OneBit(Stream(), 48);
  }

  lemma OneBit(w: nat, at: nat)
    ensures Field(w, at, 1) == Shr(w, at) % 2
  {
    Pow2Table();
  }

  lemma LengthField(j: nat)
    requires j < 18
    ensures STREAM[11 + j] == (3, if j == 2 || j == 17 then 1 else 0)
  {
  }

  lemma {:induction false} LengthFields(n: nat)
    requires n <= 18
    ensures At(65 + 3 * n, 11 + n)
    ensures n < 18 ==> Shr(Stream(), 65 + 3 * n) % 8 == if n == 2 || n == 17 then 1 else 0
  {
    hide Stream;
    hide At;
    hide Shr;
    if n == 0 {
      Counts();
    } else {
      LengthFields(n - 1);
      LengthField(n - 1);
      Next(65 + 3 * (n - 1), 11 + n - 1);
    }
    if n < 18 {
      LengthField(n);
      Next(65 + 3 * n, 11 + n);
      Pow2Table();
    }
  }

  // Where the length of each code length symbol is.
  const ZIGZAG: seq<nat> := [3, 17, 15, 13, 11, 9, 7, 5, 4, 6, 8, 10, 12, 14, 16, 18, 0, 1, 2]

  lemma ZigzagInverse(j: nat)
    requires j < CODE_LENGTH_SYMBOLS
    ensures ZIGZAG[DEZIGZAG[j]] == j && DEZIGZAG[ZIGZAG[j]] == j
  {
    var d := DEZIGZAG[j];
    assert ZIGZAG[d] == j;
    var z := ZIGZAG[j];
    assert DEZIGZAG[z] == j;
  }

  lemma Distinct(j: nat, k: nat)
    requires j < CODE_LENGTH_SYMBOLS && k < CODE_LENGTH_SYMBOLS
    ensures DEZIGZAG[j] < CODE_LENGTH_SYMBOLS && (j != k ==> DEZIGZAG[j] != DEZIGZAG[k])
  {
    ZigzagInverse(j);
    ZigzagInverse(k);
  }

  lemma {:induction false} LengthAt(w: nat, at: nat, n: nat, j: nat)
    requires n <= CODE_LENGTH_SYMBOLS && j < CODE_LENGTH_SYMBOLS
    ensures ClSizes(w, at, n)[DEZIGZAG[j]] == if j < n then Shr(w, at + 3 * j) % 8 else 0
  {
    if n > 0 {
      LengthAt(w, at, n - 1, j);
      LengthNext(w, at, n, j);
    }
  }

  lemma LengthNext(w: nat, at: nat, n: nat, j: nat)
    requires 0 < n <= CODE_LENGTH_SYMBOLS && j < CODE_LENGTH_SYMBOLS
    ensures ClSizes(w, at, n)[DEZIGZAG[j]] ==
            if j == n - 1 then Shr(w, at + 3 * j) % 8 else ClSizes(w, at, n - 1)[DEZIGZAG[j]]
  {
    hide Shr;
    Distinct(j, n - 1);
  }

  lemma LengthCode()
    ensures TwoSymbols(ClSizes(Stream(), 65, 18), 1, 18)
  {
    hide Stream;
    hide At;
    hide Shr;
    hide ClSizes;
    var cl := ClSizes(Stream(), 65, 18);
    forall i | 0 <= i < |cl| ensures cl[i] == if i == 1 || i == 18 then 1 else 0 {
      var j := ZIGZAG[i];
      ZigzagInverse(i);
      ZigzagInverse(j);
      LengthAt(Stream(), 65, 18, j);
      if j < 18 {
        LengthFields(j);
      }
    }
  }

  // A symbol of one bit is decoded.
  lemma OneBitSymbol(sizes: Sizes, a: nat, b: nat, w: nat, at: nat)
    requires TwoSymbols(sizes, a, b)
    ensures SymbolAt(sizes, w, at) == (if Field(w, at, 1) == 0 then a else b)
    ensures Behind(sizes, w, at) == at + 1 && !StraysAt(sizes, w, at)
  {
    hide Shr;
    OneBit(w, at);
    SymbolOfTwo(sizes, a, b, Shr(w, at));
  }

  lemma ZerosStep(cl: Sizes, w: nat, at: nat, lens: Sizes)
    requires |cl| == CODE_LENGTH_SYMBOLS && TwoSymbols(cl, 1, 18) && Field(w, at, 1) == 1
    ensures LenStep(cl, w, at, lens, false) == Lens(at + 8, lens + Repeat(0, 11 + Field(w, at + 1, 7)), false)
  {
    hide SymbolAt;
    hide Behind;
    hide StraysAt;
    OneBitSymbol(cl, 1, 18, w, at);
  }

  lemma OneStep(cl: Sizes, w: nat, at: nat, lens: Sizes)
    requires |cl| == CODE_LENGTH_SYMBOLS && TwoSymbols(cl, 1, 18) && Field(w, at, 1) == 0
    ensures LenStep(cl, w, at, lens, false) == Lens(at + 1, lens + [1], false)
  {
    hide SymbolAt;
    hide Behind;
    hide StraysAt;
    OneBitSymbol(cl, 1, 18, w, at);
  }

  function LitSizes(): Sizes {
    Repeat(0, 256) + [1, 1]
  }

  lemma Data()
    ensures Field(Stream(), 119, 1) == 1 && Field(Stream(), 120, 7) == 127
    ensures Field(Stream(), 127, 1) == 1 && Field(Stream(), 128, 7) == 107
    ensures forall at :: 135 <= at < 138 ==> Field(Stream(), at, 1) == 0
    ensures Field(Stream(), 138, 1) == 1 && Field(Stream(), 139, 1) == 1
    ensures At(140, 38)
  {
    hide Stream;
    hide At;
    hide Field;
    LengthFields(18);
    Next(119, 29);
    Next(120, 30);
    Next(127, 31);
    Next(128, 32);
    Next(135, 33);
    Next(136, 34);
    Next(137, 35);
    Next(138, 36);
    Next(139, 37);
  }

  lemma Lengths(cl: Sizes)
    requires |cl| == CODE_LENGTH_SYMBOLS && TwoSymbols(cl, 1, 18)
    ensures LenRun(cl, Stream(), 119, 5) == Lens(138, LitSizes() + [1], false)
  {
    hide Stream;
    hide Field;
    hide LenStep;
    hide TwoSymbols;
    var w := Stream();
    Data();
    ZerosStep(cl, w, 119, []);
    ZerosStep(cl, w, 127, [] + Repeat(0, 138));
    assert [] + Repeat(0, 138) + Repeat(0, 118) == Repeat(0, 256);
    var zeros := Repeat(0, 256);
    OneStep(cl, w, 135, zeros);
    OneStep(cl, w, 136, zeros + [1]);
    OneStep(cl, w, 137, zeros + [1] + [1]);
    assert LenRun(cl, w, 119, 0) == Lens(119, [], false);
    assert LenRun(cl, w, 119, 2) == Lens(135, zeros, false) by {
      assert LenRun(cl, w, 119, 1) == Lens(127, [] + Repeat(0, 138), false);
    }
    assert LenRun(cl, w, 119, 4) == Lens(137, zeros + [1] + [1], false) by {
      assert LenRun(cl, w, 119, 3) == Lens(136, zeros + [1], false);
    }
    assert zeros + [1] + [1] + [1] == LitSizes() + [1];
  }

  lemma Header()
    ensures HeaderRead(Stream(), 51, LitSizes(), [1], 138, false)
  {
    hide Stream;
    hide At;
    hide Shr;
    hide ClSizes;
    hide LenRun;
    hide Complete;
    Counts();
    LengthCode();
    var cl := ClSizes(Stream(), 65, 18);
    TwoComplete(cl, 1, 18);
    Lengths(cl);
  }

  // ---- the data of the dynamic block ----

  lemma OneBitCode()
    ensures DistCodes([1]) && Code([1], 0) == 0 && Used([1]) == 1
  {
    forall l: nat ensures Count([1], l) == if l == 1 then 1 else 0 {
      assert CountBelow([1], 1, l) == CountBelow([1], 0, l) + if l == 1 then 1 else 0;
    }
    assert UsedUpTo([1], 1) == 1;
    NoMore([1], 1, MAX_BITS);
  }

  lemma {:induction false} NoMore(sizes: Sizes, m: nat, n: nat)
    requires m <= n && forall l :: m < l ==> Count(sizes, l) == 0
    ensures UsedUpTo(sizes, n) == UsedUpTo(sizes, m)
  {
    if m < n {
      NoMore(sizes, m, n - 1);
    }
  }

  // Distance 1: a zero is its code; from a one the stream strays, and no bit is taken.
  lemma DistanceOne(w: nat, at: nat)
    ensures DistCodes([1])
    ensures DistanceAt([1], 3, w, at) == if Field(w, at, 1) == 0 then Pair(3, 1, at + 1, false) else Pair(3, 1, at, true)
  {
    hide Shr;
    hide Code;
    var x := Shr(w, at);
    OneBitCode();
    OneBit(w, at);
    FirstBit(x);
    LoneDecodable([1], x);
    assert StartsWith([1], x, 0) <==> x % 2 == 0;
    assert !Ahead([1], x, FAST_BITS);
    assert Pow2(0) == 1;
  }

  function Bytes65(n: nat): seq<byte> {
    seq(n, i => 65)
  }

  // Length symbol 257 and what follows it.
  lemma MatchThree(w: nat, at: nat, n: nat, stray: bool)
    requires n > 0
    ensures DistCodes([1])
    ensures Match([1], 257, w, at, Bytes65(n), stray) ==
            if Field(w, at, 1) == 0 then Running(at + 1, Bytes65(n + 3), stray) else Running(at, Bytes65(n + 3), true)
  {
    hide Field;
    hide DistanceAt;
    hide PairAt;
    hide CopyMatch;
    DistanceOne(w, at);
    ShortestPair(w, at);
    CopyThree(n);
  }

  lemma ShortestPair(w: nat, at: nat)
    requires DistCodes([1])
    ensures PairAt([1], 257, w, at) == DistanceAt([1], 3, w, at)
  {
    hide DistanceAt;
    assert Pow2(0) == 1;
  }

  lemma CopyThree(n: nat)
    requires n > 0
    ensures CopyMatch(Bytes65(n), 1, 3) == Bytes65(n + 3)
  {
    assert Bytes65(n) + [65] == Bytes65(n + 1) && Bytes65(n + 1) + [65] == Bytes65(n + 2) && Bytes65(n + 2) + [65] == Bytes65(n + 3);
    assert CopyMatch(Bytes65(n), 1, 3) == CopyMatch(Bytes65(n + 1), 1, 2) == CopyMatch(Bytes65(n + 2), 1, 1);
  }

  lemma End()
    ensures Field(Stream(), 140, 1) == 0 && Field(Stream(), 141, 1) == 0
  {
    hide Stream;
    Data();
    assert STREAM[38..] == [];
    OneBit(Stream(), 140);
    OneBit(Stream(), 141);
  }

  // Two matches, the first one strayed into, and the end.
  lemma Compressed()
    ensures CompressedRead(LitSizes(), [1], Stream(), 138, [65], 142, Bytes65(7), true)
  {
    hide Stream;
    hide Field;
    hide At;
    hide SymbolAt;
    hide Behind;
    hide StraysAt;
    hide Match;
    var (w, lit) := (Stream(), LitSizes());
    Data();
    End();
    TwoComplete(lit, 256, 257);
    OneBitSymbol(lit, 256, 257, w, 138);
    OneBitSymbol(lit, 256, 257, w, 139);
    OneBitSymbol(lit, 256, 257, w, 141);
    MatchThree(w, 139, 1, false);
    MatchThree(w, 140, 4, true);
    NoStep(lit, [1], w, 138, [65]);
    assert Bytes65(1) == [65];
    assert Run(lit, [1], w, 138, [65], 1) == Running(139, Bytes65(4), true);
    assert Run(lit, [1], w, 138, [65], 2) == Running(141, Bytes65(7), true);
    assert Run(lit, [1], w, 138, [65], 3) == Ended(142, Bytes65(7), true);
  }

  // The stream is read to its end, so the decompressor is done with seven bytes; it has no meaning.
  lemma StrayWitness()
    ensures Reads(Stream(), 0, 142, Bytes65(7), true)
    ensures forall out: seq<byte> :: !Meant(Stream(), 0, out)
  {
    hide Stream;
    hide BlockRead;
    hide Field;
    Stored();
    Dynamic();
    assert Blocks(Stream(), 0, [], 0, 0, [], false, false);
    assert Either(false, false, false) && Either(false, true, true);
    assert Blocks(Stream(), 0, [], 1, 48, [65], false, false);
    assert Blocks(Stream(), 0, [], 2, 142, Bytes65(7), true, true);
    forall out: seq<byte> ensures !Meant(Stream(), 0, out) {
      if Meant(Stream(), 0, out) {
        var at: nat :| Means(Stream(), 0, at, out);
        ReadOnce(Stream(), 0, 142, Bytes65(7), true, at, out, false);
        assert false;
      }
    }
  }

  lemma Dynamic()
    ensures BlockRead(Stream(), 48, [65], true, 142, Bytes65(7), true)
  {
    hide Stream;
    hide Field;
    hide Shr;
    hide HeaderRead;
    hide CompressedRead;
    Counts();
    Header();
    Compressed();
    assert Either(false, true, true);
  }
}
