// Streams the definition gives no meaning although the decompressor does not refuse them: those that
// stray from an incomplete code, and those that take it outside the definition.
module Straying {
  import opened Bits
  import opened HuffmanCode
  import opened Bytes
  import opened Inflate
  import opened DeflateSpec

  // ---- complete codes are never left ----

  lemma {:induction false} CompleteLengthsStay(cl: Sizes, w: nat, at: nat, n: nat)
    requires |cl| == CODE_LENGTH_SYMBOLS && ValidSizes(cl) && Complete(cl)
    ensures LenRun(cl, w, at, n).Lens? ==> !LenRun(cl, w, at, n).stray
  {
    hide Total;
    if n > 0 {
      CompleteLengthsStay(cl, w, at, n - 1);
      var s := LenRun(cl, w, at, n - 1);
      if s.Lens? {
        SymbolExists(cl, Shr(w, s.at));
      }
    }
  }

  // The run has not strayed.
  predicate Stays(o: Outcome) {
    o.Running? || o.Ended? ==> !o.stray
  }

  lemma {:induction false} CompleteCodesStay(lit: Sizes, dist: Sizes, w: nat, at: nat, out: seq<byte>, n: nat)
    requires Codes(lit, dist) && Complete(lit) && Complete(dist)
    ensures Stays(Run(lit, dist, w, at, out, n))
  {
    hide Total;
    hide Act;
    if n > 0 {
      CompleteCodesStay(lit, dist, w, at, out, n - 1);
      var o := Run(lit, dist, w, at, out, n - 1);
      if o.Running? {
        SymbolExists(lit, Shr(w, o.at));
        CompleteAct(dist, SymbolAt(lit, w, o.at), w, Behind(lit, w, o.at), o.out);
      }
    }
  }

  lemma CompleteAct(dist: Sizes, sym: nat, w: nat, at: nat, out: seq<byte>)
    requires DistCodes(dist) && Complete(dist) && sym < MAX_SYMBOLS
    ensures Stays(Act(dist, sym, w, at, out, false))
  {
    hide Total;
    hide ValidSizes;
    hide SymbolAt;
    hide Behind;
    if END_OF_BLOCK < sym && sym - 257 < LENGTH_SYMBOLS {
      SymbolExists(dist, Shr(w, at + LengthExtra(sym - 257)));
    }
  }

  // The codes of the block at this position, if it is dynamic.
  ghost predicate BlockComplete(w: nat, at: nat) {
    Field(w, at + 1, 2) == 2 ==>
      && (var nCl := 4 + Field(w, at + 13, 4); nCl <= CODE_LENGTH_SYMBOLS ==> Complete(ClSizes(w, at + 17, nCl)))
      && CodesComplete(w, at + 3)
  }

  ghost predicate CodesComplete(w: nat, at: nat) {
    forall lit: Sizes, dist: Sizes, at1: nat, stray: bool :: HeaderRead(w, at, lit, dist, at1, stray) ==> Complete(lit) && Complete(dist)
  }

  lemma CompressedStays(lit: Sizes, dist: Sizes, w: nat, at: nat, out: seq<byte>, at': nat, out': seq<byte>, stray: bool)
    requires CompressedRead(lit, dist, w, at, out, at', out', stray) && Complete(lit) && Complete(dist)
    ensures !stray
  {
    hide Run;
    hide Complete;
    var n: nat :| Run(lit, dist, w, at, out, n) == Ended(at', out', stray);
    CompleteCodesStay(lit, dist, w, at, out, n);
  }

  lemma HeaderStays(w: nat, at: nat, lit: Sizes, dist: Sizes, at': nat, stray: bool)
    requires HeaderRead(w, at, lit, dist, at', stray) && Complete(ClSizes(w, at + 14, 4 + Field(w, at + 10, 4)))
    ensures !stray
  {
    hide LenRun;
    hide ClSizes;
    hide Complete;
    var nCl := 4 + Field(w, at + 10, 4);
    var (cl, start) := (ClSizes(w, at + 14, nCl), at + 14 + 3 * nCl);
    var n: nat :| LenRun(cl, w, start, n) == Lens(at', lit + dist, stray);
    CompleteLengthsStay(cl, w, start, n);
  }

  lemma CompleteBlockStays(w: nat, at: nat, out: seq<byte>, final: bool, at': nat, out': seq<byte>, stray: bool)
    requires BlockComplete(w, at) && BlockRead(w, at, out, final, at', out', stray)
    ensures !stray
  {
    hide Complete;
    hide HeaderRead;
    hide CompressedRead;
    hide ClSizes;
    if Field(w, at + 1, 2) == 1 {
      FixedCodesComplete();
      FixedDistComplete();
      CompressedStays(FixedLit(), FixedDist(), w, at + 3, out, at', out', stray);
    } else if Field(w, at + 1, 2) == 2 {
      var lit: Sizes, dist: Sizes, at1: nat, h: bool, t: bool :|
        HeaderRead(w, at + 3, lit, dist, at1, h) && CompressedRead(lit, dist, w, at1, out, at', out', t) && Either(h, t, stray);
      CountsInside(w, at + 3, lit, dist, at1, h);
      HeaderStays(w, at + 3, lit, dist, at1, h);
      CompressedStays(lit, dist, w, at1, out, at', out', t);
    }
  }

  lemma CountsInside(w: nat, at: nat, lit: Sizes, dist: Sizes, at': nat, stray: bool)
    requires HeaderRead(w, at, lit, dist, at', stray)
    ensures 4 + Field(w, at + 10, 4) <= CODE_LENGTH_SYMBOLS
  {
  }

  // A stream whose codes are all complete never strays.
  lemma CompleteStreamStays(w: nat, start: nat)
    requires forall k: nat, at: nat, out: seq<byte>, stray: bool :: Blocks(w, start, [], k, at, out, false, stray) ==> BlockComplete(w, at)
    ensures !Strays(w, start)
  {
    hide Blocks;
    forall k: nat, at: nat, out: seq<byte>, done: bool ensures !Blocks(w, start, [], k, at, out, done, true) {
      if Blocks(w, start, [], k, at, out, done, true) {
        BlocksStay(w, start, k, at, out, done, true);
      }
    }
  }

  lemma {:induction false} BlocksStay(w: nat, start: nat, k: nat, at: nat, out: seq<byte>, done: bool, stray: bool)
    requires Blocks(w, start, [], k, at, out, done, stray)
    requires forall j: nat, a: nat, o: seq<byte>, s: bool :: Blocks(w, start, [], j, a, o, false, s) ==> BlockComplete(w, a)
    ensures !stray
  {
    hide BlockRead;
    hide BlockComplete;
    if k > 0 {
      var a, o, s, here := LastBlock(w, start, [], k, at, out, done, stray);
      BlocksStay(w, start, k - 1, a, o, false, s);
      CompleteBlockStays(w, a, o, done, at, out, here);
    }
  }

  // ---- a block outside the definition cannot be read ----

  lemma OutsideCodes(lit: Sizes, dist: Sizes, w: nat, at: nat, out: seq<byte>, wrapping: bool, at': nat, out': seq<byte>, stray: bool)
    requires CodesOutside(lit, dist, w, at, out, wrapping)
    ensures !CompressedRead(lit, dist, w, at, out, at', out', stray)
  {
    hide Run;
    var n: nat :| OutsideAt(Run(lit, dist, w, at, out, n), wrapping);
    RunUnreadable(lit, dist, w, at, out, n, at', out', stray);
  }

  lemma OutsideBlock(w: nat, at: nat, out: seq<byte>, wrapping: bool, final: bool, at': nat, out': seq<byte>, stray: bool)
    requires BlockOutside(w, at, out, wrapping)
    ensures !BlockRead(w, at, out, final, at', out', stray)
  {
    hide HeaderRead;
    hide CompressedRead;
    hide CodesOutside;
    if BlockRead(w, at, out, final, at', out', stray) {
      if Field(w, at + 1, 2) == 1 {
        OutsideCodes(FixedLit(), FixedDist(), w, at + 3, out, wrapping, at', out', stray);
      } else {
        var lit: Sizes, dist: Sizes, a: nat, h: bool, t: bool :|
          HeaderRead(w, at + 3, lit, dist, a, h) && CompressedRead(lit, dist, w, a, out, at', out', t) && Either(h, t, stray);
        var lit2: Sizes, dist2: Sizes, a2: nat, h2: bool :|
          HeaderRead(w, at + 3, lit2, dist2, a2, h2) && CodesOutside(lit2, dist2, w, a2, out, wrapping);
        HeaderUnique(w, at + 3, lit, dist, a, h, lit2, dist2, a2, h2);
        OutsideCodes(lit, dist, w, a, out, wrapping, at', out', t);
      }
      assert false;
    }
  }

  // So the stream has no meaning, and nothing is read from it to the end.
  lemma OutsideStream(w: nat, start: nat, wrapping: bool, at: nat, out: seq<byte>, stray: bool)
    requires Outside(w, start, wrapping)
    ensures !Reads(w, start, at, out, stray)
  {
    hide Blocks;
    hide BlockOutside;
    hide BlockRead;
    if Reads(w, start, at, out, stray) {
      var j: nat :| Blocks(w, start, [], j, at, out, true, stray);
      var k: nat, a: nat, o: seq<byte>, s: bool :| Blocks(w, start, [], k, a, o, false, s) && BlockOutside(w, a, o, wrapping);
      var f, at1, out1, here := NextBlock(w, start, [], k, a, o, s, j, at, out, stray);
      OutsideBlock(w, a, o, wrapping, f, at1, out1, here);
      assert false;
    }
  }

  // ---- when a stream strays ----

  lemma {:induction false} TwoLengths(sizes: Sizes, a: nat, b: nat, n: nat)
    requires 0 < a <= n && 0 < b <= n && a != b
    ensures UsedUpTo(sizes, n) >= Count(sizes, a) + Count(sizes, b) && UsedUpTo(sizes, n) >= Count(sizes, a)
  {
    if a < n && b < n {
      TwoLengths(sizes, a, b, n - 1);
    } else {
      OneLength(sizes, if a < n then a else b, n - 1);
    }
  }

  lemma {:induction false} OneLength(sizes: Sizes, a: nat, n: nat)
    requires 0 < a <= n
    ensures UsedUpTo(sizes, n) >= Count(sizes, a)
  {
    if a < n {
      OneLength(sizes, a, n - 1);
    }
  }

  // The only code of a code with one symbol is all zeros.
  lemma LoneCode(sizes: Sizes, s: nat)
    requires ValidSizes(sizes) && Used(sizes) <= 1 && s < |sizes| && sizes[s] > 0
    ensures Code(sizes, s) == 0
  {
    var l := sizes[s];
    CountStrict(sizes, s, |sizes|);
    OneLength(sizes, l, MAX_BITS);
    forall l' | 0 < l' < l ensures Count(sizes, l') == 0 {
      TwoLengths(sizes, l', l, MAX_BITS);
    }
    NothingShorter(sizes, l);
  }

  // A code of at most one symbol is strayed from exactly where the stream does not go on with that many
  // zeros; with no symbol, everywhere.
  lemma LoneDecodable(sizes: Sizes, x: nat)
    requires ValidSizes(sizes) && Used(sizes) <= 1
    ensures Decodable(sizes, x) <==> exists s: nat :: s < |sizes| && sizes[s] > 0 && First(x, sizes[s]) == 0
  {
    hide Used;
    hide Code;
    forall s: nat | s < |sizes| && sizes[s] > 0 ensures StartsWith(sizes, x, s) <==> First(x, sizes[s]) == 0 {
      LoneCode(sizes, s);
    }
  }
}
