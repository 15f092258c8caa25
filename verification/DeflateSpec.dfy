// What a DEFLATE stream means: section 3.2 of RFC 1951, block by block.  Positions count bits
// from the start of the input w; the output is the flat sequence of bytes.  A stream is read symbol by
// symbol, with symbol 0 where it strays from an incomplete code; it means what is read if it never does.
module DeflateSpec {
  import opened Bits
  import opened HuffmanCode
  import opened Bytes
  import opened BitReader
  import opened Inflate

  function Field(w: nat, at: nat, n: nat): nat {
    Shr(w, at) % Pow2(n)
  }

  // ---- stored blocks, section 3.2.4 ----

  function Aligned(at: nat): nat {
    (at + 7) / 8 * 8
  }

  function BytesAt(w: nat, at: nat, n: nat): (b: seq<byte>)
    ensures |b| == n
  {
    if n == 0 then [] else BytesAt(w, at, n - 1) + [Shr(w, at + 8 * (n - 1)) % 256]
  }

  ghost predicate StoredRead(w: nat, at: nat, out: seq<byte>, at': nat, out': seq<byte>) {
    var a := Aligned(at);
    var len := Field(w, a, 16);
    len + Field(w, a + 16, 16) == 65535 && at' == a + 32 + 8 * len && out' == out + BytesAt(w, a + 32, len)
  }

  // ---- compressed blocks, sections 3.2.5 to 3.2.7 ----

  function FixedLit(): Sizes {
    seq(288, i => if i <= 143 then 8 else if i <= 255 then 9 else if i <= 279 then 7 else 8)
  }

  function FixedDist(): Sizes {
    seq(32, i => 5)
  }

  ghost predicate CompressedRead(lit: Sizes, dist: Sizes, w: nat, at: nat, out: seq<byte>,
                                 at': nat, out': seq<byte>, stray: bool) {
    Codes(lit, dist) && exists n: nat :: Run(lit, dist, w, at, out, n) == Ended(at', out', stray)
  }

  const CODE_LENGTH_SYMBOLS: nat := 19
  const DEZIGZAG: seq<nat> := [16, 17, 18, 0, 8, 7, 9, 6, 10, 5, 11, 4, 12, 3, 13, 2, 14, 1, 15]

  // The lengths of the code length codes: three bits each, in their own order, the rest zero.
  function ClSizes(w: nat, at: nat, n: nat): (s: Sizes)
    requires n <= CODE_LENGTH_SYMBOLS
    ensures |s| == CODE_LENGTH_SYMBOLS && forall i :: 0 <= i < |s| ==> s[i] < 8
  {
    if n == 0 then seq(CODE_LENGTH_SYMBOLS, i => 0)
    else ClSizes(w, at, n - 1)[DEZIGZAG[n - 1] := Shr(w, at + 3 * (n - 1)) % 8]
  }

  datatype LenState = Lens(at: nat, lens: Sizes, stray: bool) | BadRepeat

  function Repeat(v: nat, n: nat): (s: Sizes)
    ensures |s| == n && forall i :: 0 <= i < n ==> s[i] == v
  {
    seq(n, i => v)
  }

  // One code length symbol: a length, a repetition of the last one, or a run of zeros.
  ghost function LenStep(cl: Sizes, w: nat, at: nat, lens: Sizes, stray: bool): LenState
    requires |cl| == CODE_LENGTH_SYMBOLS
  {
    var (s, next, here) := (SymbolAt(cl, w, at), Behind(cl, w, at), stray || StraysAt(cl, w, at));
    if s < 16 then Lens(next, lens + [s], here)
    else if s == 16 then
      if lens == [] then BadRepeat else Lens(next + 2, lens + Repeat(lens[|lens| - 1], 3 + Field(w, next, 2)), here)
    else if s == 17 then Lens(next + 3, lens + Repeat(0, 3 + Field(w, next, 3)), here)
    else Lens(next + 7, lens + Repeat(0, 11 + Field(w, next, 7)), here)
  }

  ghost function LenRun(cl: Sizes, w: nat, at: nat, n: nat): LenState
    requires |cl| == CODE_LENGTH_SYMBOLS
  {
    if n == 0 then Lens(at, [], false)
    else
      var s := LenRun(cl, w, at, n - 1);
      if s.Lens? then LenStep(cl, w, s.at, s.lens, s.stray) else s
  }

  ghost predicate LengthsRead(cl: Sizes, w: nat, at: nat, lens: Sizes, at': nat, stray: bool)
    requires |cl| == CODE_LENGTH_SYMBOLS
  {
    exists n: nat :: LenRun(cl, w, at, n) == Lens(at', lens, stray)
  }

  // The literal and distance code lengths that a dynamic block starts with.
  ghost predicate HeaderRead(w: nat, at: nat, lit: Sizes, dist: Sizes, at': nat, stray: bool) {
    var nLit := 257 + Field(w, at, 5);
    var nDist := 1 + Field(w, at + 5, 5);
    var nCl := 4 + Field(w, at + 10, 4);
    && nCl <= CODE_LENGTH_SYMBOLS
    && |lit| == nLit && |dist| == nDist
    && Accepted(ClSizes(w, at + 14, nCl))
    && LengthsRead(ClSizes(w, at + 14, nCl), w, at + 14 + 3 * nCl, lit + dist, at', stray)
  }

  // ---- a block and a stream ----

  predicate Either(a: bool, b: bool, any: bool) {
    any == (a || b)
  }

  ghost predicate DynamicRead(w: nat, at: nat, out: seq<byte>, at': nat, out': seq<byte>, stray: bool) {
    exists lit: Sizes, dist: Sizes, at1: nat, here: bool, there: bool ::
      && HeaderRead(w, at, lit, dist, at1, here) && CompressedRead(lit, dist, w, at1, out, at', out', there)
      && Either(here, there, stray)
  }

  ghost predicate BlockRead(w: nat, at: nat, out: seq<byte>, final: bool, at': nat, out': seq<byte>, stray: bool) {
    && (final <==> Shr(w, at) % 2 == 1)
    && match Field(w, at + 1, 2)
       case 0 => StoredRead(w, at + 3, out, at', out') && !stray
       case 1 => CompressedRead(FixedLit(), FixedDist(), w, at + 3, out, at', out', stray)
       case 2 => DynamicRead(w, at + 3, out, at', out', stray)
       case _ => false
  }

  // k blocks, of which only the last may be final (done).
  ghost predicate Blocks(w: nat, at0: nat, out0: seq<byte>, k: nat, at: nat, out: seq<byte>, done: bool, stray: bool) {
    if k == 0 then at == at0 && out == out0 && !done && !stray
    else exists a: nat, o: seq<byte>, s: bool, here: bool ::
      Blocks(w, at0, out0, k - 1, a, o, false, s) && BlockRead(w, a, o, done, at, out, here) && Either(s, here, stray)
  }

  // From bit position start on a whole stream is read, up to position at.
  ghost predicate Reads(w: nat, start: nat, at: nat, out: seq<byte>, stray: bool) {
    exists k: nat :: Blocks(w, start, [], k, at, out, true, stray)
  }

  // It means out and ends at position at.
  ghost predicate Means(w: nat, start: nat, at: nat, out: seq<byte>) {
    Reads(w, start, at, out, false)
  }

  // It means out, wherever it ends.
  ghost predicate Meant(w: nat, start: nat, out: seq<byte>) {
    exists at: nat :: Means(w, start, at, out)
  }

  // Some block of the stream strays.
  ghost predicate Strays(w: nat, start: nat) {
    exists k: nat, at: nat, out: seq<byte>, done: bool :: Blocks(w, start, [], k, at, out, done, true)
  }

  // ---- streams the definition stops at and the code does not ----

  // A reserved symbol, or in a circular buffer a distance that reaches before the output: the code goes on,
  // with a base of zero or with what the buffer holds.
  predicate OutsideAt(o: Outcome, wrapping: bool) {
    o.Reserved? || (wrapping && o.TooFar?)
  }

  ghost predicate CodesOutside(lit: Sizes, dist: Sizes, w: nat, at: nat, out: seq<byte>, wrapping: bool) {
    Codes(lit, dist) && exists n: nat :: OutsideAt(Run(lit, dist, w, at, out, n), wrapping)
  }

  ghost predicate DynamicOutside(w: nat, at: nat, out: seq<byte>, wrapping: bool) {
    exists lit: Sizes, dist: Sizes, at1: nat, stray: bool ::
      HeaderRead(w, at, lit, dist, at1, stray) && CodesOutside(lit, dist, w, at1, out, wrapping)
  }

  ghost predicate BlockOutside(w: nat, at: nat, out: seq<byte>, wrapping: bool) {
    match Field(w, at + 1, 2)
    case 1 => CodesOutside(FixedLit(), FixedDist(), w, at + 3, out, wrapping)
    case 2 => DynamicOutside(w, at + 3, out, wrapping)
    case _ => false
  }

  // Some block of the stream does.
  ghost predicate Outside(w: nat, start: nat, wrapping: bool) {
    exists k: nat, at: nat, out: seq<byte>, stray: bool ::
      Blocks(w, start, [], k, at, out, false, stray) && BlockOutside(w, at, out, wrapping)
  }

  // ---- a stream is read in one way ----

  lemma {:induction false} LensGrow(cl: Sizes, w: nat, at: nat, m: nat, n: nat)
    requires |cl| == CODE_LENGTH_SYMBOLS && m <= n && LenRun(cl, w, at, n).Lens?
    ensures LenRun(cl, w, at, m).Lens? && |LenRun(cl, w, at, m).lens| + (n - m) <= |LenRun(cl, w, at, n).lens|
  {
    if m < n {
      LensGrow(cl, w, at, m, n - 1);
    }
  }

  lemma LengthsUnique(cl: Sizes, w: nat, at: nat, lens: Sizes, at1: nat, s1: bool, lens': Sizes, at2: nat, s2: bool)
    requires |cl| == CODE_LENGTH_SYMBOLS && |lens| == |lens'|
    requires LengthsRead(cl, w, at, lens, at1, s1) && LengthsRead(cl, w, at, lens', at2, s2)
    ensures lens == lens' && at1 == at2 && s1 == s2
  {
    hide LenRun;
    var m: nat :| LenRun(cl, w, at, m) == Lens(at1, lens, s1);
    var n: nat :| LenRun(cl, w, at, n) == Lens(at2, lens', s2);
    if m < n {
      LensGrow(cl, w, at, m, n);
    } else if n < m {
      LensGrow(cl, w, at, n, m);
    }
  }

  lemma HeaderUnique(w: nat, at: nat, lit: Sizes, dist: Sizes, at1: nat, s1: bool,
                     lit': Sizes, dist': Sizes, at2: nat, s2: bool)
    requires HeaderRead(w, at, lit, dist, at1, s1) && HeaderRead(w, at, lit', dist', at2, s2)
    ensures lit == lit' && dist == dist' && at1 == at2 && s1 == s2
  {
    hide LengthsRead;
    hide ClSizes;
    var nCl := 4 + Field(w, at + 10, 4);
    LengthsUnique(ClSizes(w, at + 14, nCl), w, at + 14 + 3 * nCl, lit + dist, at1, s1, lit' + dist', at2, s2);
    SplitUnique(lit, dist, lit', dist');
  }

  lemma SplitUnique(a: Sizes, b: Sizes, c: Sizes, d: Sizes)
    requires a + b == c + d && |a| == |c|
    ensures a == c && b == d
  {
    assert a == (a + b)[..|a|] && c == (c + d)[..|a|];
    assert b == (a + b)[|a|..] && d == (c + d)[|a|..];
  }

  lemma CompressedUnique(lit: Sizes, dist: Sizes, w: nat, at: nat, out: seq<byte>,
                         at1: nat, out1: seq<byte>, s1: bool, at2: nat, out2: seq<byte>, s2: bool)
    requires CompressedRead(lit, dist, w, at, out, at1, out1, s1) && CompressedRead(lit, dist, w, at, out, at2, out2, s2)
    ensures at1 == at2 && out1 == out2 && s1 == s2
  {
    var m: nat :| Run(lit, dist, w, at, out, m) == Ended(at1, out1, s1);
    var n: nat :| Run(lit, dist, w, at, out, n) == Ended(at2, out2, s2);
    EndUnique(lit, dist, w, at, out, m, n);
  }

  lemma DynamicUnique(w: nat, at: nat, out: seq<byte>, at1: nat, out1: seq<byte>, s1: bool, at2: nat, out2: seq<byte>, s2: bool)
    requires DynamicRead(w, at, out, at1, out1, s1) && DynamicRead(w, at, out, at2, out2, s2)
    ensures at1 == at2 && out1 == out2 && s1 == s2
  {
    hide HeaderRead;
    hide CompressedRead;
    var lit: Sizes, dist: Sizes, a: nat, h: bool, t: bool :|
      HeaderRead(w, at, lit, dist, a, h) && CompressedRead(lit, dist, w, a, out, at1, out1, t) && Either(h, t, s1);
    var lit': Sizes, dist': Sizes, a': nat, h': bool, t': bool :|
      HeaderRead(w, at, lit', dist', a', h') && CompressedRead(lit', dist', w, a', out, at2, out2, t') && Either(h', t', s2);
    HeaderUnique(w, at, lit, dist, a, h, lit', dist', a', h');
    CompressedUnique(lit, dist, w, a, out, at1, out1, t, at2, out2, t');
  }

  lemma BlockUnique(w: nat, at: nat, out: seq<byte>, f1: bool, at1: nat, out1: seq<byte>, s1: bool,
                    f2: bool, at2: nat, out2: seq<byte>, s2: bool)
    requires BlockRead(w, at, out, f1, at1, out1, s1) && BlockRead(w, at, out, f2, at2, out2, s2)
    ensures f1 == f2 && at1 == at2 && out1 == out2 && s1 == s2
  {
    hide CompressedRead;
    hide DynamicRead;
    var t := Field(w, at + 1, 2);
    if t == 1 {
      CompressedUnique(FixedLit(), FixedDist(), w, at + 3, out, at1, out1, s1, at2, out2, s2);
    } else if t == 2 {
      DynamicUnique(w, at + 3, out, at1, out1, s1, at2, out2, s2);
    }
  }

  // The last of some blocks, and those before it.
  lemma LastBlock(w: nat, at0: nat, out0: seq<byte>, k: nat, at: nat, out: seq<byte>, done: bool, stray: bool)
    returns (a: nat, o: seq<byte>, s: bool, here: bool)
    requires Blocks(w, at0, out0, k, at, out, done, stray) && k > 0
    ensures Blocks(w, at0, out0, k - 1, a, o, false, s) && BlockRead(w, a, o, done, at, out, here) && Either(s, here, stray)
  {
    hide BlockRead;
    a, o, s, here :| Blocks(w, at0, out0, k - 1, a, o, false, s) && BlockRead(w, a, o, done, at, out, here) && Either(s, here, stray);
  }

  // The same number of blocks always means the same output.
  lemma {:induction false} BlocksUnique(w: nat, at0: nat, out0: seq<byte>, k: nat,
                                        at1: nat, out1: seq<byte>, d1: bool, s1: bool, at2: nat, out2: seq<byte>, d2: bool, s2: bool)
    requires Blocks(w, at0, out0, k, at1, out1, d1, s1) && Blocks(w, at0, out0, k, at2, out2, d2, s2)
    ensures at1 == at2 && out1 == out2 && d1 == d2 && s1 == s2
  {
    hide BlockRead;
    if k > 0 {
      var a, o, s, h := LastBlock(w, at0, out0, k, at1, out1, d1, s1);
      var a', o', s', h' := LastBlock(w, at0, out0, k, at2, out2, d2, s2);
      BlocksUnique(w, at0, out0, k - 1, a, o, false, s, a', o', false, s');
      BlockUnique(w, a, o, d1, at1, out1, h, d2, at2, out2, h');
    }
  }

  lemma {:induction false} BlocksBefore(w: nat, at0: nat, out0: seq<byte>, j: nat, k: nat,
                                        at: nat, out: seq<byte>, done: bool, stray: bool)
    returns (a: nat, o: seq<byte>, s: bool)
    requires Blocks(w, at0, out0, k, at, out, done, stray) && j < k
    ensures Blocks(w, at0, out0, j, a, o, false, s) && (s ==> stray)
  {
    hide BlockRead;
    hide Blocks;
    var here;
    a, o, s, here := LastBlock(w, at0, out0, k, at, out, done, stray);
    if j < k - 1 {
      a, o, s := BlocksBefore(w, at0, out0, j, k - 1, a, o, false, s);
    }
  }

  // A final block has no successor.
  lemma FinalIsLast(w: nat, at0: nat, out0: seq<byte>, j: nat, at1: nat, out1: seq<byte>, s1: bool,
                    k: nat, at2: nat, out2: seq<byte>, d2: bool, s2: bool)
    requires Blocks(w, at0, out0, j, at1, out1, true, s1) && Blocks(w, at0, out0, k, at2, out2, d2, s2)
    ensures j >= k
  {
    hide Blocks;
    if j < k {
      var a, o, s := BlocksBefore(w, at0, out0, j, k, at2, out2, d2, s2);
      BlocksUnique(w, at0, out0, j, at1, out1, true, s1, a, o, false, s);
      assert false;
    }
  }

  // A whole stream is read in one way: its length in blocks, its end, its output and whether it strays
  // are determined.
  lemma StreamUnique(w: nat, at0: nat, out0: seq<byte>, j: nat, at1: nat, out1: seq<byte>, s1: bool,
                     k: nat, at2: nat, out2: seq<byte>, s2: bool)
    requires Blocks(w, at0, out0, j, at1, out1, true, s1) && Blocks(w, at0, out0, k, at2, out2, true, s2)
    ensures j == k && at1 == at2 && out1 == out2 && s1 == s2
  {
    hide Blocks;
    FinalIsLast(w, at0, out0, j, at1, out1, s1, k, at2, out2, true, s2);
    FinalIsLast(w, at0, out0, k, at2, out2, s2, j, at1, out1, true, s1);
    BlocksUnique(w, at0, out0, j, at1, out1, true, s1, at2, out2, true, s2);
  }

  lemma ReadOnce(w: nat, start: nat, at1: nat, out1: seq<byte>, s1: bool, at2: nat, out2: seq<byte>, s2: bool)
    requires Reads(w, start, at1, out1, s1) && Reads(w, start, at2, out2, s2)
    ensures at1 == at2 && out1 == out2 && s1 == s2
  {
    hide Blocks;
    var j: nat :| Blocks(w, start, [], j, at1, out1, true, s1);
    var k: nat :| Blocks(w, start, [], k, at2, out2, true, s2);
    StreamUnique(w, start, [], j, at1, out1, s1, k, at2, out2, s2);
  }

  // A stream that is read to its end means what is read if and only if no block strays.
  lemma StrayIff(w: nat, start: nat, at: nat, out: seq<byte>, stray: bool)
    requires Reads(w, start, at, out, stray)
    ensures stray <==> Strays(w, start)
    ensures Meant(w, start, out) <==> !Strays(w, start)
  {
    hide Blocks;
    var j: nat :| Blocks(w, start, [], j, at, out, true, stray);
    if Strays(w, start) {
      var k: nat, a: nat, o: seq<byte>, done: bool :| Blocks(w, start, [], k, a, o, done, true);
      FinalIsLast(w, start, [], j, at, out, stray, k, a, o, done, true);
      if k < j {
        StrayStays(w, start, [], k, a, o, done, j, at, out, true, stray);
      } else {
        BlocksUnique(w, start, [], j, at, out, true, stray, a, o, done, true);
      }
    }
    if Meant(w, start, out) {
      var at': nat :| Means(w, start, at', out);
      ReadOnce(w, start, at, out, stray, at', out, false);
    }
    if !stray {
      assert Means(w, start, at, out);
    }
  }

  lemma StrayStays(w: nat, at0: nat, out0: seq<byte>, j: nat, a: nat, o: seq<byte>, d: bool,
                   k: nat, at: nat, out: seq<byte>, done: bool, stray: bool)
    requires j < k && Blocks(w, at0, out0, j, a, o, d, true) && Blocks(w, at0, out0, k, at, out, done, stray)
    ensures stray
  {
    hide Blocks;
    var a', o', s := BlocksBefore(w, at0, out0, j, k, at, out, done, stray);
    BlocksUnique(w, at0, out0, j, a, o, d, true, a', o', false, s);
  }

  // ---- the fixed codes are complete ----

  lemma {:induction false} CountRange(sizes: Sizes, a: nat, b: nat, v: nat, len: nat)
    requires a <= b <= |sizes| && forall i :: a <= i < b ==> sizes[i] == v
    ensures CountBelow(sizes, b, len) == CountBelow(sizes, a, len) + (if v == len then b - a else 0)
  {
    if a < b {
      CountRange(sizes, a, b - 1, v, len);
    }
  }

  lemma FixedLitCounts(len: nat)
    ensures Count(FixedLit(), len) == if len == 7 then 24 else if len == 8 then 152 else if len == 9 then 112 else 0
  {
    var s := FixedLit();
    hide FixedLit;
    hide CountBelow;
    FixedRanges();
    NoneBelow(s, len);
    CountRange(s, 0, 144, 8, len);
    CountRange(s, 144, 256, 9, len);
    CountRange(s, 256, 280, 7, len);
    CountRange(s, 280, 288, 8, len);
  }

  lemma FixedRanges()
    ensures var lit := FixedLit();
            && |lit| == 288 && (forall i :: 0 <= i < 144 ==> lit[i] == 8) && (forall i :: 144 <= i < 256 ==> lit[i] == 9)
            && (forall i :: 256 <= i < 280 ==> lit[i] == 7) && (forall i :: 280 <= i < 288 ==> lit[i] == 8)
  {
  }

  lemma NoneBelow(sizes: Sizes, len: nat)
    ensures CountBelow(sizes, 0, len) == 0
  {
  }

  // No codes longer than len: the covered strings just double.
  lemma {:induction false} CoveredDoubles(sizes: Sizes, len: nat, more: nat)
    requires len > 0 && forall l :: len < l ==> Count(sizes, l) == 0
    ensures Covered(sizes, len + more) == Covered(sizes, len) * Pow2(more)
  {
    if more > 0 {
      CoveredDoubles(sizes, len, more - 1);
    }
  }

  lemma {:induction false} NothingShorter(sizes: Sizes, len: nat)
    requires forall l :: 0 < l < len ==> Count(sizes, l) == 0
    ensures len > 0 ==> NextCode(sizes, len) == 0
  {
    if len > 1 {
      NothingShorter(sizes, len - 1);
    }
  }

  lemma FixedCodesComplete()
    ensures Codes(FixedLit(), FixedDist()) && Complete(FixedLit())
  {
    var lit := FixedLit();
    FixedRanges();
    FixedLitComplete();
    FixedDistComplete();
  }

  lemma FixedLitComplete()
    ensures Complete(FixedLit())
  {
    var lit := FixedLit();
    hide FixedLit;
    hide Count;
    forall l: nat ensures Count(lit, l) == if l == 7 then 24 else if l == 8 then 152 else if l == 9 then 112 else 0 {
      FixedLitCounts(l);
    }
    NothingShorter(lit, 7);
    assert Covered(lit, 7) == 24 && NextCode(lit, 8) == 48 && NextCode(lit, 9) == 400;
    CoveredDoubles(lit, 9, 6);
    assert Pow2(6) == 64;
  }

  lemma FixedDistComplete()
    ensures ValidSizes(FixedDist()) && Complete(FixedDist())
  {
    var dist := FixedDist();
    forall l: nat ensures Count(dist, l) == if l == 5 then 32 else 0 {
      CountRange(dist, 0, 32, 5, l);
    }
    NothingShorter(dist, 5);
    CoveredDoubles(dist, 5, 10);
    assert Pow2(10) == 1024;
  }

  // ---- what cannot be read, and what is certain before the end ----

  // No block starts here, or it runs past the end of the input (limit bits).
  ghost predicate Unreadable(w: nat, at: nat, out: seq<byte>, limit: nat) {
    forall final: bool, at': nat, out': seq<byte>, stray: bool :: BlockRead(w, at, out, final, at', out', stray) ==> at' > limit
  }

  // Whatever the block at this position turns out to be, its output starts with part.
  ghost predicate Certain(w: nat, at: nat, out: seq<byte>, part: seq<byte>) {
    forall final: bool, at': nat, out': seq<byte>, stray: bool :: BlockRead(w, at, out, final, at', out', stray) ==> part <= out'
  }

  lemma {:induction false} BytesAtPrefix(w: nat, at: nat, m: nat, n: nat)
    requires m <= n
    ensures BytesAt(w, at, m) <= BytesAt(w, at, n)
  {
    if m < n {
      BytesAtPrefix(w, at, m, n - 1);
    }
  }

  // A run that is still going has only certain output.
  lemma RunCertain(lit: Sizes, dist: Sizes, w: nat, at: nat, out: seq<byte>, n: nat, part: seq<byte>,
                   at': nat, out': seq<byte>, stray: bool)
    requires CompressedRead(lit, dist, w, at, out, at', out', stray)
    requires Run(lit, dist, w, at, out, n).Running? && part <= Run(lit, dist, w, at, out, n).out
    ensures part <= out'
  {
    var m: nat :| Run(lit, dist, w, at, out, m) == Ended(at', out', stray);
    if m < n {
      Stopped(lit, dist, w, at, out, m, n);
    } else {
      OutputGrows(lit, dist, w, at, out, n, m);
      PrefixTransitive(part, Run(lit, dist, w, at, out, n).out, out');
    }
  }

  // A run that stopped before the end of the block is no block.
  lemma RunUnreadable(lit: Sizes, dist: Sizes, w: nat, at: nat, out: seq<byte>, n: nat, at': nat, out': seq<byte>, stray: bool)
    requires Codes(lit, dist)
    requires !Run(lit, dist, w, at, out, n).Running? && !Run(lit, dist, w, at, out, n).Ended?
    ensures !CompressedRead(lit, dist, w, at, out, at', out', stray)
  {
    if CompressedRead(lit, dist, w, at, out, at', out', stray) {
      var m: nat :| Run(lit, dist, w, at, out, m) == Ended(at', out', stray);
      EndUnique(lit, dist, w, at, out, m, n);
      assert false;
    }
  }

  lemma {:induction false} RunForward(lit: Sizes, dist: Sizes, w: nat, at: nat, out: seq<byte>, n: nat)
    requires Codes(lit, dist)
    ensures var o := Run(lit, dist, w, at, out, n); (o.Running? || o.Ended?) ==> o.at >= at
  {
    hide Step;
    if n > 0 {
      RunForward(lit, dist, w, at, out, n - 1);
      var o := Run(lit, dist, w, at, out, n - 1);
      if o.Running? {
        StepForward(lit, dist, w, o.at, o.out, o.stray);
      }
    }
  }

  lemma StepForward(lit: Sizes, dist: Sizes, w: nat, at: nat, out: seq<byte>, stray: bool)
    requires Codes(lit, dist)
    ensures var o := Step(lit, dist, w, at, out, stray); (o.Running? || o.Ended?) ==> o.at >= at
  {
    hide Behind;
    hide SymbolAt;
  }

  lemma {:induction false} LensForward(cl: Sizes, w: nat, at: nat, n: nat)
    requires |cl| == CODE_LENGTH_SYMBOLS
    ensures var s := LenRun(cl, w, at, n); s.Lens? ==> s.at >= at
  {
    if n > 0 {
      LensForward(cl, w, at, n - 1);
    }
  }

  lemma CompressedForward(lit: Sizes, dist: Sizes, w: nat, at: nat, out: seq<byte>, at': nat, out': seq<byte>, stray: bool)
    requires CompressedRead(lit, dist, w, at, out, at', out', stray)
    ensures at <= at' && out <= out'
  {
    hide Run;
    var n: nat :| Run(lit, dist, w, at, out, n) == Ended(at', out', stray);
    RunForward(lit, dist, w, at, out, n);
    NoStep(lit, dist, w, at, out);
    RunCertain(lit, dist, w, at, out, 0, out, at', out', stray);
  }

  lemma HeaderForward(w: nat, at: nat, lit: Sizes, dist: Sizes, at': nat, stray: bool)
    requires HeaderRead(w, at, lit, dist, at', stray)
    ensures at' >= at
  {
    hide LenRun;
    hide ClSizes;
    hide Accepted;
    var nCl := 4 + Field(w, at + 10, 4);
    var cl := ClSizes(w, at + 14, nCl);
    var n: nat :| LenRun(cl, w, at + 14 + 3 * nCl, n) == Lens(at', lit + dist, stray);
    LensForward(cl, w, at + 14 + 3 * nCl, n);
  }

  lemma DynamicForward(w: nat, at: nat, out: seq<byte>, at': nat, out': seq<byte>, stray: bool)
    requires DynamicRead(w, at, out, at', out', stray)
    ensures at <= at' && out <= out'
  {
    hide HeaderRead;
    hide CompressedRead;
    var lit: Sizes, dist: Sizes, a: nat, h: bool, t: bool :|
      HeaderRead(w, at, lit, dist, a, h) && CompressedRead(lit, dist, w, a, out, at', out', t) && Either(h, t, stray);
    HeaderForward(w, at, lit, dist, a, h);
    CompressedForward(lit, dist, w, a, out, at', out', t);
  }

  // A block consumes input and only adds output.
  lemma BlockGrows(w: nat, at: nat, out: seq<byte>, final: bool, at': nat, out': seq<byte>, stray: bool)
    requires BlockRead(w, at, out, final, at', out', stray)
    ensures at < at' && out <= out'
  {
    hide CompressedRead;
    hide DynamicRead;
    hide BytesAt;
    var t := Field(w, at + 1, 2);
    if t == 1 {
      CompressedForward(FixedLit(), FixedDist(), w, at + 3, out, at', out', stray);
    } else if t == 2 {
      DynamicForward(w, at + 3, out, at', out', stray);
    }
  }

  // Later blocks only add output.
  lemma {:induction false} BlocksGrow(w: nat, at0: nat, out0: seq<byte>, j: nat, k: nat, a: nat, o: seq<byte>, d: bool, s: bool,
                                      at: nat, out: seq<byte>, done: bool, stray: bool)
    requires j <= k && Blocks(w, at0, out0, j, a, o, d, s) && Blocks(w, at0, out0, k, at, out, done, stray)
    ensures a <= at && o <= out
    decreases k
  {
    hide BlockRead;
    hide Blocks;
    if j == k {
      BlocksUnique(w, at0, out0, j, a, o, d, s, at, out, done, stray);
    } else {
      var a', o', s', here := LastBlock(w, at0, out0, k, at, out, done, stray);
      BlocksGrow(w, at0, out0, j, k - 1, a, o, d, s, a', o', false, s');
      BlockGrows(w, a', o', done, at, out, here);
      PrefixTransitive(o, o', out);
    }
  }

  // The block after k non-final ones is what any whole stream continues with.
  lemma NextBlock(w: nat, at0: nat, out0: seq<byte>, k: nat, a: nat, o: seq<byte>, s: bool,
                  j: nat, at: nat, out: seq<byte>, stray: bool)
    returns (final: bool, at': nat, out': seq<byte>, here: bool)
    requires Blocks(w, at0, out0, k, a, o, false, s) && Blocks(w, at0, out0, j, at, out, true, stray)
    ensures BlockRead(w, a, o, final, at', out', here) && at' <= at && out' <= out
  {
    hide BlockRead;
    hide Blocks;
    FinalIsLast(w, at0, out0, j, at, out, stray, k, a, o, false, s);
    if j == k {
      BlocksUnique(w, at0, out0, j, at, out, true, stray, a, o, false, s);
      assert false;
    }
    var s';
    if j == k + 1 {
      final, at', out', s' := true, at, out, stray;
    } else {
      at', out', s' := BlocksBefore(w, at0, out0, k + 1, j, at, out, true, stray);
      final := false;
      BlocksGrow(w, at0, out0, k + 1, j, at', out', false, s', at, out, true, stray);
    }
    var a1, o1, s1;
    a1, o1, s1, here := LastBlock(w, at0, out0, k + 1, at', out', final, s');
    BlocksUnique(w, at0, out0, k, a, o, false, s, a1, o1, false, s1);
  }
}
