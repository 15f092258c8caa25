// The header of a dynamic block, section 3.2.7 of RFC 1951: code lengths coded with a third
// table, expanded into a fixed array of 457 entries, and the two tables built from them.
module DynamicBlock {
  import opened Bits
  import opened HuffmanCode
  import opened HuffmanTrie
  import opened HuffmanTable
  import opened Bytes
  import opened BitReader
  import opened Inflate
  import opened DeflateSpec

  const MAX_LENGTHS: nat := 320
  const LEN_CODES_SIZE: nat := 457

  // ---- the definition, seen from the loop ----

  // Where the loop stands after n symbols.
  ghost predicate LensAt(cl: Sizes, w: nat, at0: nat, n: nat, at: nat, lens: Sizes, stray: bool)
    requires |cl| == CODE_LENGTH_SYMBOLS
  {
    LenRun(cl, w, at0, n) == Lens(at, lens, stray)
  }

  // No assignment of total lengths can be read.
  ghost predicate NoLengths(cl: Sizes, w: nat, at: nat, total: nat)
    requires |cl| == CODE_LENGTH_SYMBOLS
  {
    forall lens: Sizes, at': nat, stray: bool :: |lens| == total ==> !LengthsRead(cl, w, at, lens, at', stray)
  }

  // The run of symbol n - 1 steps over total, or cannot be made at all.
  lemma RunFails(cl: Sizes, w: nat, at: nat, n: nat, total: nat)
    requires |cl| == CODE_LENGTH_SYMBOLS && n > 0
    requires LenRun(cl, w, at, n - 1).Lens? && |LenRun(cl, w, at, n - 1).lens| < total
    requires LenRun(cl, w, at, n).Lens? ==> |LenRun(cl, w, at, n).lens| > total
    ensures NoLengths(cl, w, at, total)
  {
    forall lens: Sizes, at': nat, stray: bool | |lens| == total ensures !LengthsRead(cl, w, at, lens, at', stray) {
      if LengthsRead(cl, w, at, lens, at', stray) {
        RunElsewhere(cl, w, at, n, total, lens, at', stray);
      }
    }
  }

  lemma RunElsewhere(cl: Sizes, w: nat, at: nat, n: nat, total: nat, lens: Sizes, at': nat, stray: bool)
    requires |cl| == CODE_LENGTH_SYMBOLS && n > 0
    requires LenRun(cl, w, at, n - 1).Lens? && |LenRun(cl, w, at, n - 1).lens| < total
    requires LenRun(cl, w, at, n).Lens? ==> |LenRun(cl, w, at, n).lens| > total
    requires LengthsRead(cl, w, at, lens, at', stray)
    ensures |lens| != total
  {
    hide LenRun;
    var m: nat :| LenRun(cl, w, at, m) == Lens(at', lens, stray);
    if m < n {
      LensGrow(cl, w, at, m, n - 1);
    } else {
      LensGrow(cl, w, at, n, m);
    }
  }

  ghost predicate AllLengths(lens: Sizes) {
    forall i :: 0 <= i < |lens| ==> lens[i] <= MAX_BITS
  }

  lemma LiteralLength(cl: Sizes, w: nat, at0: nat, n: nat, at: nat, lens: Sizes, stray: bool)
    requires |cl| == CODE_LENGTH_SYMBOLS && LensAt(cl, w, at0, n, at, lens, stray)
    ensures var s := SymbolAt(cl, w, at);
            s < 16 ==> LensAt(cl, w, at0, n + 1, Behind(cl, w, at), lens + [s], stray || StraysAt(cl, w, at))
  {
  }

  // Extra bits and smallest run of the symbols 16, 17 and 18.
  const RUN_EXTRA: seq<nat> := [2, 3, 7]
  const RUN_BASE: seq<nat> := [3, 3, 11]

  lemma RunOfLengths(cl: Sizes, w: nat, at0: nat, n: nat, at: nat, lens: Sizes, stray: bool)
    requires |cl| == CODE_LENGTH_SYMBOLS && LensAt(cl, w, at0, n, at, lens, stray)
    ensures var (s, next) := (SymbolAt(cl, w, at), Behind(cl, w, at));
            s >= 16 && (s > 16 || lens != []) ==>
              LensAt(cl, w, at0, n + 1, next + RUN_EXTRA[s - 16],
                     lens + Repeat(if s == 16 then lens[|lens| - 1] else 0, Extended(RUN_BASE[s - 16], RUN_EXTRA[s - 16], w, next)),
                     stray || StraysAt(cl, w, at))
    ensures SymbolAt(cl, w, at) == 16 && lens == [] ==> LenRun(cl, w, at0, n + 1).BadRepeat?
  {
  }

  lemma RunSize(s: nat)
    requires 16 <= s < 19
    ensures 3 <= RUN_BASE[s - 16] && RUN_EXTRA[s - 16] <= 7
    ensures RUN_BASE[s - 16] + Pow2(RUN_EXTRA[s - 16]) - 1 <= 138
  {
    Pow2Table();
  }

  // ---- the code ----

  // memset on the length array.
  method Fill(lenCodes: array<nat>, counter: nat, v: nat, n: nat)
    requires counter + n <= lenCodes.Length
    modifies lenCodes
    ensures lenCodes[..counter + n] == old(lenCodes[..counter]) + Repeat(v, n)
  {
    var i := 0;
    while i < n
      invariant 0 <= i <= n
      invariant forall j :: 0 <= j < counter ==> lenCodes[j] == old(lenCodes[j])
      invariant forall j :: counter <= j < counter + i ==> lenCodes[j] == v
    {
      lenCodes[counter + i] := v;
      i := i + 1;
    }
  }

  // One symbol of the expansion.  Nothing is written outside the 457 entries, whatever the stream.
  method ExpandOne(r: Reader, cl: Table, lenCodes: array<nat>, counter: nat, ghost at0: nat, ghost n: nat, ghost stray: bool)
    returns (bad: bool, counter': nat)
    requires r.Valid() && r.numBits <= 61 && cl.Ready() && |cl.sizes| == CODE_LENGTH_SYMBOLS
    requires lenCodes.Length == LEN_CODES_SIZE && counter < MAX_LENGTHS && AllLengths(lenCodes[..counter])
    requires LensAt(cl.sizes, r.whole, at0, n, r.taken, lenCodes[..counter], stray)
    modifies r, lenCodes
    ensures r.Valid() && r.numBits <= 61 && r.taken >= old(r.taken)
    ensures !bad ==> counter < counter' <= counter + 138 && AllLengths(lenCodes[..counter'])
                     && LensAt(cl.sizes, r.whole, at0, n + 1, r.taken, lenCodes[..counter'], stray || StraysAt(cl.sizes, r.whole, old(r.taken)))
    ensures bad ==> LenRun(cl.sizes, r.whole, at0, n + 1).BadRepeat?
  {
    hide TrieOk;
    hide Shr;
    hide Pending;
    hide LenRun;
    hide Reader.Rest;
    hide ValidSizes;
    hide Extended;
    ghost var lens := lenCodes[..counter];
    LiteralLength(cl.sizes, r.whole, at0, n, r.taken, lens, stray);
    RunOfLengths(cl.sizes, r.whole, at0, n, r.taken, lens, stray);
    var dist := r.HuffDecode(cl);
    if dist < 16 {
      lenCodes[counter] := dist;
      counter' := counter + 1;
      assert lenCodes[..counter'] == lens + [dist];
      return false, counter';
    }
    if dist == 16 && counter == 0 {
      return true, counter;
    }
    counter' := ExpandRun(r, lenCodes, counter, dist);
    bad := false;
  }

  // A run: the previous length or zero, as often as the extra bits say.
  method ExpandRun(r: Reader, lenCodes: array<nat>, counter: nat, dist: nat) returns (counter': nat)
    requires r.Valid() && r.numBits <= 61 && lenCodes.Length == LEN_CODES_SIZE && counter < MAX_LENGTHS
    requires AllLengths(lenCodes[..counter]) && 16 <= dist < 19 && (dist == 16 ==> counter > 0)
    modifies r, lenCodes
    ensures r.Valid() && r.numBits <= 61 && r.taken == old(r.taken) + RUN_EXTRA[dist - 16]
    ensures counter < counter' <= counter + 138 && AllLengths(lenCodes[..counter'])
    ensures lenCodes[..counter'] ==
            old(lenCodes[..counter]) + Repeat(if dist == 16 then old(lenCodes[..counter])[counter - 1] else 0,
                                              Extended(RUN_BASE[dist - 16], RUN_EXTRA[dist - 16], r.whole, old(r.taken)))
  {
    hide Shr;
    hide Pending;
    RunSize(dist);
    var s := ReadExtended(r, RUN_BASE[dist - 16], RUN_EXTRA[dist - 16]);
    var v := if dist == 16 then lenCodes[counter - 1] else 0;
    Fill(lenCodes, counter, v, s);
    counter' := counter + s;
  }

  // The whole expansion: total lengths, or a reason why the stream has none.
  method ExpandLengths(r: Reader, cl: Table, lenCodes: array<nat>, total: nat) returns (ok: bool, ghost stray: bool)
    requires r.Valid() && r.numBits <= 61 && cl.Ready() && |cl.sizes| == CODE_LENGTH_SYMBOLS
    requires lenCodes.Length == LEN_CODES_SIZE && 0 < total <= MAX_LENGTHS
    modifies r, lenCodes
    ensures r.Valid() && r.numBits <= 61 && r.taken >= old(r.taken)
    ensures ok ==> AllLengths(lenCodes[..total])
    ensures ok ==> LengthsRead(cl.sizes, r.whole, old(r.taken), lenCodes[..total], r.taken, stray)
    ensures !ok ==> NoLengths(cl.sizes, r.whole, old(r.taken), total)
  {
    hide TrieOk;
    hide Shr;
    hide Pending;
    hide LenRun;
    ghost var at0, n := r.taken, 0;
    var counter, bad := 0, false;
    stray := false;
    NoLensYet(cl.sizes, r.whole, at0);
    assert lenCodes[..0] == [];
    while counter < total
      invariant r.Valid() && r.numBits <= 61 && r.taken >= at0 && cl.Ready() && |cl.sizes| == CODE_LENGTH_SYMBOLS
      invariant counter <= LEN_CODES_SIZE && AllLengths(lenCodes[..counter])
      invariant LensAt(cl.sizes, r.whole, at0, n, r.taken, lenCodes[..counter], stray)
      invariant n > 0 ==> LenRun(cl.sizes, r.whole, at0, n - 1).Lens? && |LenRun(cl.sizes, r.whole, at0, n - 1).lens| < total
      invariant counter > 0 ==> n > 0
    {
      ghost var at := r.taken;
      bad, counter := ExpandOne(r, cl, lenCodes, counter, at0, n, stray);
      n, stray := n + 1, stray || StraysAt(cl.sizes, r.whole, at);
      if bad {
        RunFails(cl.sizes, r.whole, at0, n, total);
        return false, stray;
      }
    }
    if counter != total {
      RunFails(cl.sizes, r.whole, at0, n, total);
      return false, stray;
    }
    ok := true;
  }

  lemma NoLensYet(cl: Sizes, w: nat, at: nat)
    requires |cl| == CODE_LENGTH_SYMBOLS
    ensures LensAt(cl, w, at, 0, at, [], false)
  {
  }

  // The three bits of each code length code length, in zigzag order.
  method ReadClSizes(r: Reader, n: nat) returns (s: Sizes)
    requires r.Valid() && r.numBits <= 61 && n <= CODE_LENGTH_SYMBOLS
    modifies r
    ensures r.Valid() && r.numBits <= 61
    ensures s == ClSizes(r.whole, old(r.taken), n) && r.taken == old(r.taken) + 3 * n
  {
    hide Shr;
    hide Pending;
    ghost var at := r.taken;
    Pow2Table();
    s := seq(CODE_LENGTH_SYMBOLS, i => 0);
    var counter := 0;
    while counter < n
      invariant 0 <= counter <= n && r.Valid() && r.numBits <= 61
      invariant s == ClSizes(r.whole, at, counter) && r.taken == at + 3 * counter
    {
      var v := r.GetBits(3);
      s := s[DEZIGZAG[counter] := v];
      counter := counter + 1;
    }
  }

  // No header that makes a block can be read.
  ghost predicate NoCodes(w: nat, at: nat) {
    forall lit: Sizes, dist: Sizes, at': nat, stray: bool :: HeaderRead(w, at, lit, dist, at', stray) ==> !Codes(lit, dist)
  }

  ghost predicate Blank(t: Table) {
    t.lookUp.Length == FAST_SIZE && t.tree.Length == TREE_SIZE && t.lookUp != t.tree
  }

  // No two tables share an array.
  ghost predicate Disjoint(a: Table, b: Table) {
    a != b && a.lookUp != b.lookUp && a.lookUp != b.tree && a.tree != b.lookUp && a.tree != b.tree
  }

  ghost predicate TableSet(lit: Table, dist: Table, cl: Table) {
    Blank(lit) && Blank(dist) && Blank(cl) && Disjoint(lit, dist) && Disjoint(lit, cl) && Disjoint(dist, cl)
  }

  // The three counts at the start of a dynamic block.
  method HeaderCounts(r: Reader) returns (nLit: nat, nDist: nat, nCl: nat)
    requires r.Valid() && r.numBits <= 61
    modifies r
    ensures r.Valid() && r.numBits <= 61 && r.taken == old(r.taken) + 14
    ensures nLit == 257 + Field(r.whole, old(r.taken), 5) <= MAX_SYMBOLS
    ensures nDist == 1 + Field(r.whole, old(r.taken) + 5, 5) <= 32
    ensures nCl == 4 + Field(r.whole, old(r.taken) + 10, 4) <= CODE_LENGTH_SYMBOLS
  {
    hide Shr;
    hide Pending;
    Pow2Table();
    nLit := r.GetBits(5);
    nDist := r.GetBits(5);
    nCl := r.GetBits(4);
    nLit, nDist, nCl := nLit + 257, nDist + 1, nCl + 4;
  }

  // The header lengths that follow the code length codes, and where they start.
  method HeaderLengths(r: Reader, cl: Table, lenCodes: array<nat>)
    returns (ok: bool, nLit: nat, nDist: nat, ghost stray: bool)
    requires r.Valid() && r.numBits <= 61 && Blank(cl) && lenCodes.Length == LEN_CODES_SIZE
    requires lenCodes as object != cl.lookUp && lenCodes as object != cl.tree
    modifies r, cl, cl.lookUp, cl.tree, lenCodes
    ensures r.Valid() && r.numBits <= 61 && r.taken >= old(r.taken)
    ensures 257 <= nLit <= MAX_SYMBOLS && 1 <= nDist <= 32
    ensures ok ==> AllLengths(lenCodes[..nLit + nDist])
    ensures ok ==> HeaderRead(r.whole, old(r.taken), lenCodes[..nLit], lenCodes[nLit..nLit + nDist], r.taken, stray)
    ensures !ok ==> forall lit: Sizes, dist: Sizes, at': nat, stray: bool :: !HeaderRead(r.whole, old(r.taken), lit, dist, at', stray)
  {
    hide TrieOk;
    hide Shr;
    hide Pending;
    hide LengthsRead;
    hide ClSizes;
    hide Reader.Rest;
    hide LenRun;
    hide Field;
    var nCl;
    nLit, nDist, nCl := HeaderCounts(r);
    stray := false;
    var clSizes := ReadClSizes(r, nCl);
    var built := cl.Build(clSizes);
    if !built {
      return false, nLit, nDist, stray;
    }
    ok, stray := ExpandLengths(r, cl, lenCodes, nLit + nDist);
    assert lenCodes[..nLit + nDist] == lenCodes[..nLit] + lenCodes[nLit..nLit + nDist];
  }

  // The literal and distance tables of a dynamic block.
  method DynamicTables(r: Reader, lit: Table, dist: Table, cl: Table, lenCodes: array<nat>)
    returns (ok: bool, ghost stray: bool)
    requires r.Valid() && r.numBits <= 61 && TableSet(lit, dist, cl) && lenCodes.Length == LEN_CODES_SIZE
    requires forall t :: t in {lit, dist, cl} ==> lenCodes as object != t.lookUp && lenCodes as object != t.tree
    modifies r, lit, lit.lookUp, lit.tree, dist, dist.lookUp, dist.tree, cl, cl.lookUp, cl.tree, lenCodes
    ensures r.Valid() && r.numBits <= 61 && r.taken >= old(r.taken)
    ensures ok ==> lit.Ready() && dist.Ready() && Codes(lit.sizes, dist.sizes)
    ensures ok ==> HeaderRead(r.whole, old(r.taken), lit.sizes, dist.sizes, r.taken, stray)
    ensures !ok ==> NoCodes(r.whole, old(r.taken))
  {
    hide TrieOk;
    hide Shr;
    hide Pending;
    hide HeaderRead;
    hide Total;
    ghost var at := r.taken;
    var nLit, nDist;
    ok, nLit, nDist, stray := HeaderLengths(r, cl, lenCodes);
    if !ok {
      return;
    }
    var litSizes, distSizes := lenCodes[..nLit], lenCodes[nLit..nLit + nDist];
    assert litSizes + distSizes == lenCodes[..nLit + nDist];
    SplitLengths(litSizes, distSizes);
    ok := dist.Build(distSizes);
    if ok {
      ok := lit.Build(litSizes);
    }
    if !ok {
      RejectedCodes(r.whole, at, litSizes, distSizes, r.taken, stray);
    }
  }

  lemma SplitLengths(a: Sizes, b: Sizes)
    requires AllLengths(a + b)
    ensures AllLengths(a) && AllLengths(b)
  {
    forall i | 0 <= i < |a| ensures a[i] <= MAX_BITS { assert (a + b)[i] == a[i]; }
    forall i | 0 <= i < |b| ensures b[i] <= MAX_BITS { assert (a + b)[|a| + i] == b[i]; }
  }

  lemma RejectedCodes(w: nat, at: nat, lit: Sizes, dist: Sizes, at': nat, stray: bool)
    requires HeaderRead(w, at, lit, dist, at', stray) && (!Accepted(lit) || !Accepted(dist))
    ensures NoCodes(w, at)
  {
    hide HeaderRead;
    forall lit2: Sizes, dist2: Sizes, at2: nat, s2: bool | HeaderRead(w, at, lit2, dist2, at2, s2) ensures !Codes(lit2, dist2) {
      HeaderUnique(w, at, lit, dist, at', stray, lit2, dist2, at2, s2);
    }
  }
}
