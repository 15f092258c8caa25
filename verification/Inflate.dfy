// Decoding of a compressed block: the literal loop in its two forms and the length/distance
// pairs, against the definition in section 3.2.3 of RFC 1951.
module Inflate {
  import opened Bits
  import opened HuffmanCode
  import opened HuffmanTable
  import HuffmanTrie
  import opened Bytes
  import opened BitReader
  import opened Window

  const END_OF_BLOCK: nat := 256
  const LENGTH_SYMBOLS: nat := 29
  const DIST_SYMBOLS: nat := 30

  const LENGTH_BASE: seq<nat> := [3, 4, 5, 6, 7, 8, 9, 10, 11, 13, 15, 17, 19, 23, 27, 31, 35, 43, 51, 59,
                                  67, 83, 99, 115, 131, 163, 195, 227, 258, 0, 0]
  const LENGTH_EXTRA: seq<nat> := [0, 0, 0, 0, 0, 0, 0, 0, 1, 1, 1, 1, 2, 2, 2, 2, 3, 3, 3, 3,
                                   4, 4, 4, 4, 5, 5, 5, 5, 0, 0, 0]
  const DIST_BASE: seq<nat> := [1, 2, 3, 4, 5, 7, 9, 13, 17, 25, 33, 49, 65, 97, 129, 193, 257, 385, 513, 769,
                                1025, 1537, 2049, 3073, 4097, 6145, 8193, 12289, 16385, 24577, 0, 0]
  const DIST_EXTRA: seq<nat> := [0, 0, 0, 0, 1, 1, 2, 2, 3, 3, 4, 4, 5, 5, 6, 6, 7, 7, 8, 8,
                                 9, 9, 10, 10, 11, 11, 12, 12, 13, 13, 0, 0]

  // ---- what a compressed block means ----

  // How many bits of the stream are consumed and the output so far; or why decoding stopped there.  A
  // stream strays where it goes on with no code of an incomplete set: decoding then takes symbol 0,
  // but a run that has strayed gives a block no meaning.
  datatype Outcome =
    | Running(at: nat, out: seq<byte>, stray: bool)
    | Ended(at: nat, out: seq<byte>, stray: bool)
    | TooFar(out: seq<byte>)
    | Reserved(out: seq<byte>)

  // Both codes need only be accepted, so that blocks with one distance code or none, or with nothing
  // but an end, are included.
  ghost predicate Codes(lit: Sizes, dist: Sizes) {
    LitCodes(lit) && DistCodes(dist)
  }

  ghost predicate LitCodes(lit: Sizes) {
    ValidSizes(lit) && Accepted(lit) && |lit| > END_OF_BLOCK
  }

  ghost predicate DistCodes(dist: Sizes) {
    ValidSizes(dist) && Accepted(dist) && |dist| <= 32
  }

  // The symbol at bit position at of the stream w, 0 where there is none.
  ghost function SymbolAt(sizes: Sizes, w: nat, at: nat): (s: nat)
    ensures sizes != [] ==> s < |sizes|
  {
    SymbolOf(sizes, Shr(w, at))
  }

  // Where decoding goes on behind it.
  ghost function Behind(sizes: Sizes, w: nat, at: nat): (next: nat)
    ensures next >= at
  {
    at + HuffmanTrie.Taken(sizes, Shr(w, at))
  }

  ghost predicate StraysAt(sizes: Sizes, w: nat, at: nat) {
    !Decodable(sizes, Shr(w, at))
  }

  // Base value plus the extra bits at position at.
  function Extended(base: nat, extra: nat, w: nat, at: nat): nat {
    base + Shr(w, at) % Pow2(extra)
  }

  function LengthBase(sym: nat): nat
    requires sym < LENGTH_SYMBOLS
  {
    LENGTH_BASE[sym]
  }

  function LengthExtra(sym: nat): nat
    requires sym < LENGTH_SYMBOLS
  {
    LENGTH_EXTRA[sym]
  }

  function DistBase(d: nat): nat
    requires d < DIST_SYMBOLS
  {
    DIST_BASE[d]
  }

  function DistExtra(d: nat): nat
    requires d < DIST_SYMBOLS
  {
    DIST_EXTRA[d]
  }

  lemma LengthBounds(sym: nat)
    requires sym < LENGTH_SYMBOLS
    ensures LengthBase(sym) >= 3 && LengthExtra(sym) <= 5
  {
  }

  lemma DistanceBounds(d: nat)
    requires d < DIST_SYMBOLS
    ensures DistBase(d) >= 1 && DistExtra(d) <= 13 && DistBase(d) + Pow2(DistExtra(d)) - 1 <= 32768
  {
    Pow2Table();
  }

  lemma Pow2Table()
    ensures Pow2(0) == 1 && Pow2(1) == 2 && Pow2(2) == 4 && Pow2(3) == 8 && Pow2(4) == 16 && Pow2(5) == 32
    ensures Pow2(6) == 64 && Pow2(7) == 128 && Pow2(8) == 256 && Pow2(9) == 512 && Pow2(10) == 1024
    ensures Pow2(11) == 2048 && Pow2(12) == 4096 && Pow2(13) == 8192
  {
    assert Pow2(7) == 128;
  }

  datatype Pair = Pair(len: nat, distance: nat, at: nat, stray: bool) | ReservedSymbol

  // Distance code and extra bits after a match length.
  ghost function DistanceAt(dist: Sizes, len: nat, w: nat, at: nat): (p: Pair)
    requires DistCodes(dist) && len >= 3
    ensures p.Pair? ==> p.len == len && 1 <= p.distance <= 32768
  {
    var d := SymbolAt(dist, w, at);
    if d >= DIST_SYMBOLS then ReservedSymbol
    else
      DistanceBounds(d);
      var next := Behind(dist, w, at);
      Pair(len, Extended(DistBase(d), DistExtra(d), w, next), next + DistExtra(d), StraysAt(dist, w, at))
  }

  // The length and distance a length symbol introduces.
  ghost function PairAt(dist: Sizes, sym: nat, w: nat, at: nat): (p: Pair)
    requires DistCodes(dist) && 257 <= sym < MAX_SYMBOLS
    ensures p.Pair? ==> p.len >= 3 && 1 <= p.distance <= 32768
  {
    if sym - 257 >= LENGTH_SYMBOLS then ReservedSymbol
    else
      LengthBounds(sym - 257);
      var len := Extended(LengthBase(sym - 257), LengthExtra(sym - 257), w, at);
      DistanceAt(dist, len, w, at + LengthExtra(sym - 257))
  }

  ghost function Match(dist: Sizes, sym: nat, w: nat, at: nat, out: seq<byte>, stray: bool): Outcome
    requires DistCodes(dist) && 257 <= sym < MAX_SYMBOLS
  {
    match PairAt(dist, sym, w, at)
    case ReservedSymbol => Reserved(out)
    case Pair(len, distance, next, here) =>
      if distance > |out| then TooFar(out)
      else Running(next, CopyMatch(out, distance, len), stray || here)
  }

  // One literal, one match, or the end of the block.
  ghost function Step(lit: Sizes, dist: Sizes, w: nat, at: nat, out: seq<byte>, stray: bool): Outcome
    requires Codes(lit, dist)
  {
    Act(dist, SymbolAt(lit, w, at), w, Behind(lit, w, at), out, stray || StraysAt(lit, w, at))
  }

  // What a symbol asks for, its code being consumed.
  ghost function Act(dist: Sizes, sym: nat, w: nat, at: nat, out: seq<byte>, stray: bool): Outcome
    requires DistCodes(dist) && sym < MAX_SYMBOLS
  {
    if sym < END_OF_BLOCK then Running(at, out + [sym], stray)
    else if sym == END_OF_BLOCK then Ended(at, out, stray)
    else Match(dist, sym, w, at, out, stray)
  }

  // The first n steps.
  ghost function Run(lit: Sizes, dist: Sizes, w: nat, at: nat, out: seq<byte>, n: nat): Outcome
    requires Codes(lit, dist)
  {
    if n == 0 then Running(at, out, false)
    else
      var o := Run(lit, dist, w, at, out, n - 1);
      if o.Running? then Step(lit, dist, w, o.at, o.out, o.stray) else o
  }

  lemma {:induction false} OutputGrows(lit: Sizes, dist: Sizes, w: nat, at: nat, out: seq<byte>, m: nat, n: nat)
    requires Codes(lit, dist) && m <= n
    ensures Run(lit, dist, w, at, out, m).out <= Run(lit, dist, w, at, out, n).out
  {
    hide Run;
    if m == n {
    } else {
      OutputGrows(lit, dist, w, at, out, m, n - 1);
      RunGrows(lit, dist, w, at, out, n - 1);
      PrefixTransitive(Run(lit, dist, w, at, out, m).out, Run(lit, dist, w, at, out, n - 1).out, Run(lit, dist, w, at, out, n).out);
    }
  }

  lemma RunGrows(lit: Sizes, dist: Sizes, w: nat, at: nat, out: seq<byte>, n: nat)
    requires Codes(lit, dist)
    ensures Run(lit, dist, w, at, out, n).out <= Run(lit, dist, w, at, out, n + 1).out
  {
    hide Step;
    var o := Run(lit, dist, w, at, out, n);
    if o.Running? {
      StepGrows(lit, dist, w, o.at, o.out, o.stray);
    }
  }

  lemma PrefixTransitive(a: seq<byte>, b: seq<byte>, c: seq<byte>)
    requires a <= b <= c
    ensures a <= c
  {
  }

  lemma StepGrows(lit: Sizes, dist: Sizes, w: nat, at: nat, out: seq<byte>, stray: bool)
    requires Codes(lit, dist)
    ensures out <= Step(lit, dist, w, at, out, stray).out
  {
  }

  // A block that ends, ends in one way: the stream determines output and rest.
  lemma EndUnique(lit: Sizes, dist: Sizes, w: nat, at: nat, out: seq<byte>, m: nat, n: nat)
    requires Codes(lit, dist)
    requires !Run(lit, dist, w, at, out, m).Running? && !Run(lit, dist, w, at, out, n).Running?
    ensures Run(lit, dist, w, at, out, m) == Run(lit, dist, w, at, out, n)
  {
    if m <= n {
      Stopped(lit, dist, w, at, out, m, n);
    } else {
      Stopped(lit, dist, w, at, out, n, m);
    }
  }

  lemma {:induction false} Stopped(lit: Sizes, dist: Sizes, w: nat, at: nat, out: seq<byte>, m: nat, n: nat)
    requires Codes(lit, dist) && m <= n && !Run(lit, dist, w, at, out, m).Running?
    ensures Run(lit, dist, w, at, out, n) == Run(lit, dist, w, at, out, m)
  {
    if m == n {
    } else {
      Stopped(lit, dist, w, at, out, m, n - 1);
    }
  }

  // ---- the code ----

  // A raw table entry shows whether its symbol is a literal, and which, without unpacking it.
  lemma RawEntryBits(sizes: Sizes, s: nat)
    requires ValidSizes(sizes) && s < |sizes|
    ensures (RawEntry(sizes, s) / 256) % 2 == 0 <==> s < 256
    ensures s < 256 ==> RawEntry(sizes, s) % 256 == s
    ensures RawEntry(sizes, s) % 512 == s
  {
  }

  // Both tables are ready to decode.
  ghost predicate TablesReady(lit: Table, dist: Table)
    reads lit, lit.lookUp, lit.tree, dist, dist.lookUp, dist.tree
  {
    lit.Ready() && dist.Ready() && Codes(lit.sizes, dist.sizes)
  }

  // The raw entry of the symbol at a position of the stream, 0 where there is none.
  ghost function EntryAt(sizes: Sizes, w: nat, at: nat): nat
  {
    if StraysAt(sizes, w, at) then 0 else RawEntry(sizes, SymbolAt(sizes, w, at))
  }

  lemma EntryBits(sizes: Sizes, w: nat, at: nat)
    requires LitCodes(sizes)
    ensures var (s, e) := (SymbolAt(sizes, w, at), EntryAt(sizes, w, at));
            && ((e / 256) % 2 == 0 <==> s < 256) && (s < 256 ==> e % 256 == s) && e % 512 == s
  {
    hide Accepted;
    RawEntryBits(sizes, SymbolAt(sizes, w, at));
  }

  // The buffered bits hold two codes, so no byte is needed between them.
  method DecodeBuffered(r: Reader, t: Table) returns (entry: nat)
    requires r.Valid() && t.Ready() && MAX_BITS <= r.numBits <= 61
    modifies r`bitBuf, r`numBits, r`taken
    ensures r.Valid() && r.numBits <= 61 && r.numBits + MAX_BITS >= old(r.numBits)
    ensures entry == EntryAt(t.sizes, r.whole, old(r.taken)) && r.taken == Behind(t.sizes, r.whole, old(r.taken))
  {
    entry := r.TakeEntry(t);
  }

  // The output buffer is not one of the table arrays.
  ghost predicate Apart(o: Out, t: Table)
    reads o
  {
    o.buf as object != t.lookUp && o.buf as object != t.tree
  }

  lemma LiteralStep(lit: Sizes, dist: Sizes, w: nat, at: nat, out: seq<byte>, n: nat)
    requires Codes(lit, dist)
    requires var o := Run(lit, dist, w, at, out, n); o.Running? && SymbolAt(lit, w, o.at) < END_OF_BLOCK
    ensures var (o, o') := (Run(lit, dist, w, at, out, n), Run(lit, dist, w, at, out, n + 1));
            Reaches(o', Behind(lit, w, o.at), o.out + [SymbolAt(lit, w, o.at)])
  {
  }

  // The run has come to this place.
  predicate Reaches(o: Outcome, at: nat, out: seq<byte>) {
    o.Running? && o.at == at && o.out == out
  }

  lemma NoStep(lit: Sizes, dist: Sizes, w: nat, at: nat, out: seq<byte>)
    requires Codes(lit, dist)
    ensures Run(lit, dist, w, at, out, 0) == Running(at, out, false)
  {
  }

  // Where the literal loop stands: n whole steps done, and the code of sym consumed on top of them.
  ghost predicate AfterSymbol(lit: Sizes, dist: Sizes, w: nat, at0: nat, out0: seq<byte>, n: nat,
                              sym: nat, at: nat, out: seq<byte>)
    requires Codes(lit, dist)
  {
    var o := Run(lit, dist, w, at0, out0, n);
    o.Running? && o.out == out && sym == SymbolAt(lit, w, o.at) && at == Behind(lit, w, o.at)
  }

  // The 64-bit buffer holds at least two codes.
  method FillFour(r: Reader)
    requires r.Valid() && r.numBits <= 61 && |r.chunk| - r.pos >= 4
    modifies r`chunk, r`pos, r`later, r`bitBuf, r`numBits
    ensures r.Valid() && 30 <= r.numBits <= 61
  {
    if r.numBits < 30 {
      r.AppendByte();
      r.AppendByte();
      r.AppendByte();
      r.AppendByte();
    }
  }

  // Two codes from one buffer fill, the second only behind a literal.
  method DecodeTwo(r: Reader, lit: Table) returns (counter: nat, sym2: nat)
    requires r.Valid() && r.numBits <= 61 && |r.chunk| - r.pos >= 4 && lit.Ready() && LitCodes(lit.sizes)
    modifies r
    ensures r.Valid() && r.numBits <= 61 && r.taken >= old(r.taken)
    ensures var at1 := Behind(lit.sizes, r.whole, old(r.taken));
            && counter == EntryAt(lit.sizes, r.whole, old(r.taken))
            && if SymbolAt(lit.sizes, r.whole, old(r.taken)) >= END_OF_BLOCK then r.taken == at1
               else sym2 == EntryAt(lit.sizes, r.whole, at1) && r.taken == Behind(lit.sizes, r.whole, at1)
  {
    hide HuffmanTrie.TrieOk;
    hide RawEntry;
    hide Pending;
    hide Shr;
    hide Total;
    hide SymbolOf;
    hide EntryAt;
    FillFour(r);
    EntryBits(lit.sizes, r.whole, r.taken);
    counter := DecodeBuffered(r, lit);
    sym2 := 0;
    if (counter / 256) % 2 == 0 {
      sym2 := DecodeBuffered(r, lit);
    }
  }

  // Two symbols per round from one buffer fill.  Stops early at a symbol that is not a literal.
  method FastPair(r: Reader, o: Out, lit: Table, ghost dist: Sizes, ghost at0: nat, ghost out0: seq<byte>, ghost n0: nat)
    returns (stopped: bool, counter: nat, ghost n: nat)
    requires r.Valid() && r.numBits <= 61 && |r.chunk| - r.pos >= 4
    requires o.Valid() && o.buf.Length - o.cur >= 2
    requires lit.Ready() && Codes(lit.sizes, dist) && Apart(o, lit)
    requires Run(lit.sizes, dist, r.whole, at0, out0, n0) .Running?
    requires Reaches(Run(lit.sizes, dist, r.whole, at0, out0, n0), r.taken, o.flat)
    modifies r, o.buf, o`flat, o`cur
    ensures r.Valid() && r.numBits <= 61 && r.taken >= old(r.taken) && o.Valid() && old(o.cur) <= o.cur
    ensures !stopped ==> o.cur == old(o.cur) + 2 && Reaches(Run(lit.sizes, dist, r.whole, at0, out0, n), r.taken, o.flat)
    ensures stopped ==> counter % 512 >= END_OF_BLOCK
                        && AfterSymbol(lit.sizes, dist, r.whole, at0, out0, n, counter % 512, r.taken, o.flat)
  {
    hide Run;
    hide HuffmanTrie.TrieOk;
    hide RawEntry;
    hide Pending;
    hide Shr;
    hide Out.ValidAt;
    hide Total;
    hide SymbolOf;
    hide ValidSizes;
    hide SymbolAt;
    hide EntryAt;
    hide Behind;
    hide LitCodes;
    hide Reader.Rest;
    hide Pow2;
    n := n0;
    ghost var at := r.taken;
    EntryBits(lit.sizes, r.whole, at);
    var sym2;
    counter, sym2 := DecodeTwo(r, lit);
    if (counter / 256) % 2 == 1 {
      return true, counter, n;
    }
    LiteralStep(lit.sizes, dist, r.whole, at0, out0, n);
    n := n + 1;
    EntryBits(lit.sizes, r.whole, Behind(lit.sizes, r.whole, at));
    o.PutByte(counter % 256);
    if (sym2 / 256) % 2 == 1 {
      return true, sym2, n;
    }
    LiteralStep(lit.sizes, dist, r.whole, at0, out0, n);
    n := n + 1;
    o.PutByte(sym2 % 256);
    stopped := false;
  }

  // One symbol at a time: its literal goes out, when there is room for it.
  method SlowLiteral(r: Reader, o: Out, lit: Table, ghost dist: Sizes, ghost at0: nat, ghost out0: seq<byte>, ghost n0: nat)
    returns (stopped: bool, sym: nat, ghost n: nat)
    requires r.Valid() && r.numBits <= 61 && o.Valid()
    requires lit.Ready() && Codes(lit.sizes, dist) && Apart(o, lit)
    requires Reaches(Run(lit.sizes, dist, r.whole, at0, out0, n0), r.taken, o.flat)
    modifies r, o, o.buf
    ensures r.Valid() && r.numBits <= 61 && r.taken >= old(r.taken) && o.Valid() && (o.buf == old(o.buf) || fresh(o.buf)) && Apart(o, lit)
    ensures o.buf.Length >= old(o.buf.Length)
    ensures if stopped then AfterSymbol(lit.sizes, dist, r.whole, at0, out0, n, sym, r.taken, o.flat)
            else Reaches(Run(lit.sizes, dist, r.whole, at0, out0, n), r.taken, o.flat)
    ensures stopped && sym < END_OF_BLOCK ==> o.cur == o.buf.Length && o.resumes == 0
    ensures o.resumes < old(o.resumes) || (o.resumes == old(o.resumes) && o.buf == old(o.buf) && o.cur >= old(o.cur))
    ensures !stopped ==> o.resumes < old(o.resumes) || old(o.cur) < o.cur <= o.buf.Length
  {
    hide Run;
    hide HuffmanTrie.TrieOk;
    hide Pending;
    hide Shr;
    hide Pow2;
    hide Total;
    hide SymbolOf;
    hide ValidSizes;
    hide Out.ValidAt;
    hide Reader.Rest;
    n := n0;
    sym := r.HuffDecode(lit);
    if sym >= END_OF_BLOCK {
      return true, sym, n;
    }
    LiteralStep(lit.sizes, dist, r.whole, at0, out0, n);
    o.Produced();
    if o.cur >= o.buf.Length {
      var resumed := o.MakeRoom();
      if !resumed {
        return true, sym, n;
      }
    }
    o.PutByte(sym);
    o.Produced();
    n := n + 1;
    stopped := false;
  }

  // The literal loop: byte-at-a-time decoding near the end of the input chunk or of the output
  // room, two symbols at a time otherwise.  Both produce the literals the definition asks for.
  method LiteralLoop(r: Reader, o: Out, lit: Table, ghost dist: Sizes, ghost at0: nat, ghost out0: seq<byte>, ghost n0: nat)
    returns (full: bool, sym: nat, ghost n: nat)
    requires r.Valid() && r.numBits <= 61 && o.Valid()
    requires lit.Ready() && Codes(lit.sizes, dist) && Apart(o, lit)
    requires Reaches(Run(lit.sizes, dist, r.whole, at0, out0, n0), r.taken, o.flat)
    modifies r, o, o.buf
    ensures r.Valid() && r.numBits <= 61 && r.taken >= old(r.taken) && o.Valid() && (o.buf == old(o.buf) || fresh(o.buf)) && Apart(o, lit)
    ensures o.buf.Length >= old(o.buf.Length)
    ensures AfterSymbol(lit.sizes, dist, r.whole, at0, out0, n, sym, r.taken, o.flat)
    ensures !full ==> sym >= END_OF_BLOCK
    ensures full ==> sym < END_OF_BLOCK && o.cur == o.buf.Length && o.resumes == 0
    ensures o.resumes < old(o.resumes) || (o.resumes == old(o.resumes) && o.buf == old(o.buf) && o.cur >= old(o.cur))
  {
    hide Run;
    hide HuffmanTrie.TrieOk;
    hide Pending;
    hide Shr;
    hide Pow2;
    hide Total;
    hide SymbolOf;
    hide ValidSizes;
    hide Out.ValidAt;
    hide Reader.Rest;
    n := n0;
    while true
      invariant r.Valid() && r.numBits <= 61 && r.taken >= old(r.taken) && o.Valid() && Apart(o, lit)
      invariant lit.Ready() && Codes(lit.sizes, dist)
      invariant o.buf == old(o.buf) || fresh(o.buf)
      invariant o.buf.Length >= old(o.buf.Length)
      invariant Reaches(Run(lit.sizes, dist, r.whole, at0, out0, n), r.taken, o.flat)
      invariant o.resumes < old(o.resumes) || (o.resumes == old(o.resumes) && o.buf == old(o.buf) && o.cur >= old(o.cur))
      decreases o.resumes, o.buf.Length - o.cur
    {
      if |r.chunk| - r.pos < 4 || o.buf.Length - o.cur < 2 {
        var stopped;
        stopped, sym, n := SlowLiteral(r, o, lit, dist, at0, out0, n);
        if stopped {
          return sym < END_OF_BLOCK, sym, n;
        }
      } else {
        var stopped, counter;
        stopped, counter, n := FastPair(r, o, lit, dist, at0, out0, n);
        if stopped {
          return false, counter % 512, n;
        }
      }
    }
  }

  // ---- matches and whole blocks ----

  datatype Status =
    | Continue
    | Done
    | HasMoreOutput
    | Failed
    | Unspecified // a reserved symbol, or (in circular mode) a distance before the start of the output

  // A buffer the caller may offer: a circular one holds at least the largest distance.
  ghost predicate WindowOk(o: Out)
    reads o, o.buf
  {
    o.Valid() && (o.wrapping ==> o.buf.Length >= 32768)
  }

  // A base value and its extra bits.
  method ReadExtended(r: Reader, base: nat, extra: nat) returns (v: nat)
    requires r.Valid() && r.numBits <= 61 && extra <= 13
    modifies r
    ensures r.Valid() && r.numBits <= 61
    ensures v == Extended(base, extra, r.whole, old(r.taken)) && r.taken == old(r.taken) + extra
    ensures base <= v < base + Pow2(extra)
  {
    v := base;
    if extra > 0 {
      var extraBits := r.GetBits(extra);
      v := v + extraBits;
    }
  }

  // Where no distance code matches, the code reads symbol 0.
  method ReadDistance(r: Reader, dist: Table, ghost len: nat) returns (reserved: bool, distance: nat)
    requires r.Valid() && r.numBits <= 61 && dist.Ready() && DistCodes(dist.sizes) && len >= 3
    modifies r
    ensures r.Valid() && r.numBits <= 61 && r.taken >= old(r.taken)
    ensures !reserved ==> 1 <= distance <= 32768
    ensures ReadsPair(DistanceAt(dist.sizes, len, r.whole, old(r.taken)), reserved, len, distance, r.taken)
  {
    hide Shr;
    hide Pending;
    hide ValidSizes;
    hide Table.Ready;
    hide SymbolOf;
    hide Pow2;
    hide Extended;
    hide DistBase;
    hide DistExtra;
    hide Reader.Rest;
    distance := 0;
    var d := r.HuffDecode(dist);
    if d >= DIST_SYMBOLS {
      return true, distance;
    }
    DistanceBounds(d);
    distance := ReadExtended(r, DistBase(d), DistExtra(d));
    reserved := false;
  }

  predicate ReadsPair(p: Pair, reserved: bool, len: nat, distance: nat, at: nat) {
    if reserved then p.ReservedSymbol? else p.Pair? && p.len == len && p.distance == distance && p.at == at
  }

  method ReadPair(r: Reader, dist: Table, sym: nat) returns (reserved: bool, len: nat, distance: nat)
    requires r.Valid() && r.numBits <= 61 && dist.Ready() && DistCodes(dist.sizes) && 257 <= sym < MAX_SYMBOLS
    modifies r
    ensures r.Valid() && r.numBits <= 61 && r.taken >= old(r.taken)
    ensures !reserved ==> len >= 3 && 1 <= distance <= 32768
    ensures ReadsPair(PairAt(dist.sizes, sym, r.whole, old(r.taken)), reserved, len, distance, r.taken)
  {
    hide Shr;
    hide Pending;
    hide ValidSizes;
    hide Table.Ready;
    hide SymbolOf;
    hide Pow2;
    hide Extended;
    hide DistanceAt;
    hide LengthBase;
    hide LengthExtra;
    hide Reader.Rest;
    hide SymbolAt;
    if sym - 257 >= LENGTH_SYMBOLS {
      return true, 0, 0;
    }
    LengthBounds(sym - 257);
    len := ReadExtended(r, LengthBase(sym - 257), LengthExtra(sym - 257));
    reserved, distance := ReadDistance(r, dist, len);
  }

  method MatchStep(r: Reader, o: Out, dist: Table, sym: nat, ghost stray: bool) returns (status: Status)
    requires r.Valid() && r.numBits <= 61 && WindowOk(o) && Apart(o, dist)
    requires dist.Ready() && DistCodes(dist.sizes) && 257 <= sym < MAX_SYMBOLS
    modifies r, o, o.buf
    ensures r.Valid() && r.numBits <= 61 && r.taken >= old(r.taken) && WindowOk(o) && (o.buf == old(o.buf) || fresh(o.buf))
    ensures var m := Match(dist.sizes, sym, r.whole, old(r.taken), old(o.flat), stray);
            match status
            case Continue => Reaches(m, r.taken, o.flat)
            case HasMoreOutput => m.Running? && o.flat <= m.out && o.resumes == 0 && o.cur == o.buf.Length
            case Failed => m.TooFar? && !o.wrapping && o.flat == m.out
            case Unspecified => (m.Reserved? || (m.TooFar? && o.wrapping)) && o.flat == m.out
            case Done => false
    ensures status != Done && (status == HasMoreOutput ==> o.resumes == 0 && o.cur == o.buf.Length)
    ensures status == Continue ==>
              o.resumes < old(o.resumes) || (o.resumes == old(o.resumes) && o.buf == old(o.buf) && o.cur > old(o.cur))
  {
    hide HuffmanTrie.TrieOk;
    hide PairAt;
    hide Shr;
    hide Pending;
    hide Total;
    hide ValidSizes;
    hide Table.Ready;
    hide Out.ValidAt;
    hide CopyMatch;
    var reserved, len, distance := ReadPair(r, dist, sym);
    if reserved {
      return Unspecified;
    }
    o.Produced();
    if !o.wrapping && distance > o.cur {
      return Failed;
    }
    if distance > |o.delivered| + (o.cur - o.from) {
      return Unspecified;
    }
    var copied := o.CopyOut(distance, len);
    if copied < len {
      CopyMatchSplit(old(o.flat), distance, copied, len - copied);
      return HasMoreOutput;
    }
    return Continue;
  }

  // How a block left off, in terms of the definition: after n steps.
  ghost predicate BlockResult(lit: Sizes, dist: Sizes, w: nat, at0: nat, out0: seq<byte>, n: nat,
                              status: Status, at: nat, out: seq<byte>, wrapping: bool)
    requires Codes(lit, dist)
  {
    var o := Run(lit, dist, w, at0, out0, n);
    match status
    case Continue => false
    case Done => o.Ended? && o.at == at && o.out == out
    case HasMoreOutput => o.Running? && out <= o.out
    case Failed => o.TooFar? && !wrapping && o.out == out
    case Unspecified => (o.Reserved? || (o.TooFar? && wrapping)) && o.out == out
  }

  lemma SymbolStep(lit: Sizes, dist: Sizes, w: nat, at0: nat, out0: seq<byte>, n: nat, sym: nat, at: nat, out: seq<byte>)
    returns (stray: bool)
    requires Codes(lit, dist) && AfterSymbol(lit, dist, w, at0, out0, n, sym, at, out)
    ensures sym < MAX_SYMBOLS && Run(lit, dist, w, at0, out0, n + 1) == Act(dist, sym, w, at, out, stray)
  {
    hide Act;
    var o := Run(lit, dist, w, at0, out0, n);
    stray := o.stray || StraysAt(lit, w, o.at);
  }

  // Literals up to the next length or end symbol, and what that symbol asks for.
  method Round(r: Reader, o: Out, lit: Table, dist: Table, ghost at0: nat, ghost out0: seq<byte>, ghost n0: nat)
    returns (status: Status, ghost n: nat)
    requires r.Valid() && r.numBits <= 61 && WindowOk(o)
    requires TablesReady(lit, dist) && Apart(o, lit) && Apart(o, dist)
    requires Reaches(Run(lit.sizes, dist.sizes, r.whole, at0, out0, n0), r.taken, o.flat)
    modifies r, o, o.buf
    ensures r.Valid() && r.numBits <= 61 && r.taken >= old(r.taken) && WindowOk(o) && (o.buf == old(o.buf) || fresh(o.buf))
    ensures Apart(o, lit) && Apart(o, dist)
    ensures if status == Continue then Reaches(Run(lit.sizes, dist.sizes, r.whole, at0, out0, n), r.taken, o.flat)
            else BlockResult(lit.sizes, dist.sizes, r.whole, at0, out0, n, status, r.taken, o.flat, o.wrapping)
    ensures status == HasMoreOutput ==> o.resumes == 0 && o.cur == o.buf.Length
    ensures status == Continue ==> (o.resumes < old(o.resumes) || (o.resumes == old(o.resumes) && 0 <= o.buf.Length - o.cur < old(o.buf.Length - o.cur)))
  {
    hide HuffmanTrie.TrieOk;
    hide Run;
    hide Match;
    hide Shr;
    hide Pending;
    hide SymbolOf;
    hide Total;
    var full, sym;
    full, sym, n := LiteralLoop(r, o, lit, dist.sizes, at0, out0, n0);
    ghost var stray := SymbolStep(lit.sizes, dist.sizes, r.whole, at0, out0, n, sym, r.taken, o.flat);
    if full {
      return HasMoreOutput, n;
    }
    n := n + 1;
    if sym == END_OF_BLOCK {
      return Done, n;
    }
    status := MatchStep(r, o, dist, sym, stray);
  }

  // A whole compressed block: exactly the output the definition gives, for every chunking of the
  // input and every number of times the caller comes back for output.
  method CompressedBlock(r: Reader, o: Out, lit: Table, dist: Table) returns (status: Status, ghost n: nat)
    requires r.Valid() && r.numBits <= 61 && WindowOk(o)
    requires TablesReady(lit, dist) && Apart(o, lit) && Apart(o, dist)
    modifies r, o, o.buf
    ensures r.Valid() && r.numBits <= 61 && r.taken >= old(r.taken) && WindowOk(o) && (o.buf == old(o.buf) || fresh(o.buf))
    ensures BlockResult(lit.sizes, dist.sizes, r.whole, old(r.taken), old(o.flat), n, status, r.taken, o.flat, o.wrapping)
    ensures status != Continue && (status == HasMoreOutput ==> o.resumes == 0 && o.cur == o.buf.Length)
  {
    hide HuffmanTrie.TrieOk;
    hide Run;
    hide Shr;
    hide Pending;
    hide Total;
    hide BlockResult;
    ghost var at0, out0 := r.taken, o.flat;
    n, status := 0, Continue;
    NoStep(lit.sizes, dist.sizes, r.whole, at0, out0);
    while status == Continue
      invariant r.Valid() && r.numBits <= 61 && r.taken >= old(r.taken) && WindowOk(o) && (o.buf == old(o.buf) || fresh(o.buf))
      invariant TablesReady(lit, dist) && Apart(o, lit) && Apart(o, dist)
      invariant if status == Continue then Reaches(Run(lit.sizes, dist.sizes, r.whole, at0, out0, n), r.taken, o.flat)
                else BlockResult(lit.sizes, dist.sizes, r.whole, at0, out0, n, status, r.taken, o.flat, o.wrapping)
      invariant status == HasMoreOutput ==> o.resumes == 0 && o.cur == o.buf.Length
      decreases status == Continue, o.resumes, o.buf.Length - o.cur
    {
      status, n := Round(r, o, lit, dist, at0, out0, n);
    }
  }
}
