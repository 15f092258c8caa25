// The decoding table of the decompressor: built in place from the code lengths, then
// walked once per symbol.
module HuffmanTable {
  import opened Bits
  import opened HuffmanCode
  import opened HuffmanTrie
  import HuffmanRoom

  lemma {:induction false} NextCodeBound(sizes: Sizes, len: nat)
    requires len > 0
    ensures NextCode(sizes, len) + 2 * |sizes| <= |sizes| * Pow2(len)
  {
    if len == 1 {
      assert Pow2(1) == 2;
    } else {
      NextCodeBound(sizes, len - 1);
      CountMonotone(sizes, 0, |sizes|, len - 1);
      var p := |sizes| * Pow2(len - 1);
      assert |sizes| * Pow2(len) == 2 * p;
    }
  }

  // The sums of the construction stay far below 2^32.
  lemma SumsFitUint32(sizes: Sizes, len: nat)
    requires ValidSizes(sizes) && 0 < len <= MAX_BITS + 1
    ensures NextCode(sizes, len) < 0x1_0000_0000
  {
    NextCodeBound(sizes, len);
    Pow2Monotone(len, 16);
    assert Pow2(15) == 32768;
    assert |sizes| * Pow2(len) <= 288 * 65536;
  }

  lemma {:induction false} Pow2Monotone(a: nat, b: nat)
    requires a <= b
    ensures Pow2(a) <= Pow2(b)
  {
    if a == b {
    } else {
      Pow2Monotone(a, b - 1);
    }
  }

  method CountSizes(sizes: Sizes) returns (totalSyms: array<nat>)
    requires ValidSizes(sizes)
    ensures fresh(totalSyms) && totalSyms.Length == 16
    ensures forall l :: 0 <= l < 16 ==> totalSyms[l] == Count(sizes, l)
  {
    totalSyms := new nat[16](_ => 0);
    var i := 0;
    while i < |sizes|
      invariant 0 <= i <= |sizes|
      invariant forall l :: 0 <= l < 16 ==> totalSyms[l] == CountBelow(sizes, i, l)
    {
      totalSyms[sizes[i]] := totalSyms[sizes[i]] + 1;
      i := i + 1;
    }
  }

  // The first code of each length, the number of used symbols and the Kraft sum.
  lemma TallyStart(sizes: Sizes)
    ensures UsedUpTo(sizes, 0) == 0 && NextCode(sizes, 1) == 0
  {
  }

  lemma TallyStep(sizes: Sizes, i: nat)
    requires i > 0
    ensures UsedUpTo(sizes, i) == UsedUpTo(sizes, i - 1) + Count(sizes, i)
    ensures NextCode(sizes, i + 1) == 2 * (NextCode(sizes, i) + Count(sizes, i))
  {
  }

  lemma TallyEnd(sizes: Sizes)
    ensures UsedUpTo(sizes, MAX_BITS) == Used(sizes) && NextCode(sizes, MAX_BITS + 1) == Total(sizes)
  {
  }

  method Tally(sizes: Sizes) returns (nextCode: array<nat>, used: nat, total: nat)
    requires ValidSizes(sizes)
    ensures fresh(nextCode) && nextCode.Length == 17
    ensures forall l :: 1 <= l <= 16 ==> nextCode[l] == NextCode(sizes, l)
    ensures used == Used(sizes) && total == Total(sizes)
  {
    hide CountBelow;
    hide NextCode;
    hide UsedUpTo;
    var totalSyms := CountSizes(sizes);
    nextCode := new nat[17](_ => 0);
    used, total := 0, 0;
    var i := 1;
    TallyStart(sizes);
    while i <= MAX_BITS
      invariant 1 <= i <= 16
      invariant used == UsedUpTo(sizes, i - 1)
      invariant total == NextCode(sizes, i)
      invariant forall l :: 1 <= l <= i ==> nextCode[l] == NextCode(sizes, l)
      modifies nextCode
    {
      var n := totalSyms[i];
      TallyStep(sizes, i);
      used := used + n;
      total := (total + n) * 2;
      i := i + 1;
      nextCode[i] := total;
    }
    TallyEnd(sizes);
  }

  // The next code of each length once the first n symbols have theirs.
  ghost predicate CodesAt(sizes: Sizes, n: nat, codes: seq<nat>)
    requires n <= |sizes|
  {
    |codes| == 17 && forall l :: 1 <= l <= MAX_BITS ==> codes[l] == NextCode(sizes, l) + CountBelow(sizes, n, l)
  }

  lemma CodesStep(sizes: Sizes, n: nat, codes: seq<nat>)
    requires ValidSizes(sizes) && n < |sizes| && CodesAt(sizes, n, codes)
    ensures sizes[n] == 0 ==> CodesAt(sizes, n + 1, codes)
    ensures sizes[n] > 0 ==> codes[sizes[n]] == Code(sizes, n)
                             && CodesAt(sizes, n + 1, codes[sizes[n] := codes[sizes[n]] + 1])
  {
  }

  method ReverseCode(code: nat, size: nat) returns (rev: nat)
    ensures rev == First(code, size)
  {
    rev := 0;
    var cur, l := code, size;
    while l > 0
      invariant 0 <= l <= size
      invariant cur == Shr(code, size - l) && rev == First(code, size - l)
    {
      rev := rev * 2 + cur % 2;
      cur := cur / 2;
      l := l - 1;
    }
  }

  // ---- the slots of a short code: every 2^length-th one ----

  lemma CodeReversed(sizes: Sizes, s: nat)
    requires GoodSizes(sizes) && s < |sizes| && sizes[s] > 0
    ensures StartsWith(sizes, First(Code(sizes, s), sizes[s]), s)
  {
    CodeFits(sizes, s);
    FirstOfReversed(Code(sizes, s), sizes[s], sizes[s]);
  }

  lemma ModGap(a: nat, b: nat, p: nat)
    requires p > 0 && a < b < a + p
    ensures a % p != b % p
  {
    var d := b / p - a / p;
    assert d >= 1 ==> d * p >= p;
    assert d <= -1 ==> d * p <= -1 * p;
    assert d * p == b - b % p - (a - a % p) by { assert a == (a / p) * p + a % p && b == (b / p) * p + b % p; }
  }

  lemma FirstSlot(sizes: Sizes, s: nat)
    requires GoodSizes(sizes) && s < |sizes| && sizes[s] > 0
    ensures SlotTaken(sizes, s, First(Code(sizes, s), sizes[s]))
    ensures forall r :: 0 <= r < First(Code(sizes, s), sizes[s]) ==> !SlotTaken(sizes, s, r)
  {
    CodeReversed(sizes, s);
    var f := First(Code(sizes, s), sizes[s]);
    FirstBound(Code(sizes, s), sizes[s]);
    forall r | 0 <= r < f ensures !SlotTaken(sizes, s, r) {
      FirstEqualsMod(r, f, sizes[s]);
      ModGap(r, f, Pow2(sizes[s]));
    }
  }

  lemma NextSlot(sizes: Sizes, s: nat, r: nat)
    requires s < |sizes| && SlotTaken(sizes, s, r)
    ensures SlotTaken(sizes, s, r + Pow2(sizes[s]))
    ensures forall t :: r < t < r + Pow2(sizes[s]) ==> !SlotTaken(sizes, s, t)
  {
    FirstAddHigh(r, 1, sizes[s], sizes[s]);
    forall t | r < t < r + Pow2(sizes[s]) ensures !SlotTaken(sizes, s, t) {
      FirstEqualsMod(r, t, sizes[s]);
      ModGap(r, t, Pow2(sizes[s]));
    }
  }

  // ---- a set of lengths that is accepted although incomplete has one symbol, hence no nodes yet ----

  lemma {:induction false} CountUpToSteps(sizes: Sizes, t: nat, n: nat)
    requires ValidSizes(sizes) && t < n <= |sizes| && sizes[t] > 0
    ensures HuffmanRoom.CountUpTo(sizes, t, MAX_BITS) < HuffmanRoom.CountUpTo(sizes, n, MAX_BITS)
  {
    if t + 1 < n {
      CountUpToSteps(sizes, t, n - 1);
    }
  }

  lemma LoneSymbol(sizes: Sizes, s: nat, nodes: Nodes, slots: seq<int>, cells: seq<int>)
    requires ValidSizes(sizes) && Accepted(sizes) && !Complete(sizes)
    requires s < |sizes| && sizes[s] > 0 && TrieOk(sizes, s, s, nodes, slots, cells)
    ensures nodes == map[]
  {
    if nodes != map[] {
      var p :| p in nodes;
      assert Led(sizes, s, p);
      var t :| 0 <= t < s && Leads(sizes, t, p);
      CountUpToSteps(sizes, t, s);
      CountUpToSteps(sizes, s, |sizes|);
      HuffmanRoom.UsedIsCounted(sizes, MAX_BITS);
      assert false;
    }
  }

  lemma SlotOnPath(sizes: Sizes, x: nat, s: nat)
    requires StartsWith(sizes, x, s) && sizes[s] >= FAST_BITS
    ensures PathPos(sizes, s, FAST_BITS) == Pos(FAST_BITS, First(x % FAST_SIZE, FAST_BITS))
  {
    assert Pow2(FAST_BITS) == FAST_SIZE;
    FirstMod(x, FAST_BITS, FAST_BITS);
    StreamOnPath(sizes, x, s, FAST_BITS);
  }

  lemma Room(sizes: Sizes, s: nat, nodes: Nodes, slots: seq<int>, cells: seq<int>, depth: nat)
    requires ValidSizes(sizes) && s < |sizes| && TrieOk(sizes, s, s + 1, nodes, slots, cells) && depth <= MAX_BITS
    requires Complete(sizes) || |nodes| <= depth
    ensures 2 * |nodes| + 2 <= TREE_SIZE
  {
    if Complete(sizes) {
      HuffmanRoom.RoomForNode(sizes, s + 1, nodes);
    }
  }

  class Table {
    const lookUp: array<int>
    const tree: array<int>
    var sizes: Sizes
    ghost var nodes: Nodes

    // The table is finished: it holds every symbol of an accepted set of lengths.
    ghost predicate Ready()
      reads this, lookUp, tree
    {
      && ValidSizes(sizes) && Accepted(sizes) && GoodSizes(sizes)
      && lookUp.Length == FAST_SIZE && tree.Length == TREE_SIZE
      && TrieOk(sizes, |sizes|, |sizes|, nodes, lookUp[..], tree[..])
    }

    // Under construction: the first n symbols are in.
    ghost predicate Holds(n: nat)
      reads this, lookUp, tree
    {
      && ValidSizes(sizes) && GoodSizes(sizes) && lookUp != tree
      && lookUp.Length == FAST_SIZE && tree.Length == TREE_SIZE
      && TrieOk(sizes, n, n, nodes, lookUp[..], tree[..])
    }

    constructor ()
      ensures fresh(lookUp) && fresh(tree) && lookUp != tree
      ensures lookUp.Length == FAST_SIZE && tree.Length == TREE_SIZE
    {
      lookUp := new int[FAST_SIZE];
      tree := new int[TREE_SIZE];
    }

    method Clear()
      requires lookUp.Length == FAST_SIZE && tree.Length == TREE_SIZE && lookUp != tree
      modifies this`nodes, lookUp, tree
      ensures nodes == map[] && TrieOk(sizes, 0, 0, nodes, lookUp[..], tree[..])
    {
      forall i | 0 <= i < FAST_SIZE { lookUp[i] := 0; }
      forall i | 0 <= i < TREE_SIZE { tree[i] := 0; }
      nodes := map[];
      EmptyTrie(sizes, lookUp[..], tree[..]);
    }

    // Symbols in order, each with the next code of its length.
    method InsertAll(nextCode: array<nat>)
      requires Holds(0) && Accepted(sizes) && nodes == map[] && nextCode != lookUp as object && nextCode != tree as object
      requires CodesAt(sizes, 0, nextCode[..])
      modifies this`nodes, lookUp, tree, nextCode
      ensures Holds(|sizes|)
    {
      hide TrieOk;
      var treeNext, symIndex := -1, 0;
      while symIndex < |sizes|
        invariant 0 <= symIndex <= |sizes|
        invariant Holds(symIndex) && treeNext == Link(|nodes|)
        invariant CodesAt(sizes, symIndex, nextCode[..])
      {
        var codeSize := sizes[symIndex];
        CodesStep(sizes, symIndex, nextCode[..]);
        if codeSize == 0 {
          AddUnused(sizes, symIndex, nodes, lookUp[..], tree[..]);
        } else {
          var curCode := nextCode[codeSize];
          nextCode[codeSize] := curCode + 1;
          treeNext := Insert(symIndex, curCode, treeNext);
        }
        symIndex := symIndex + 1;
      }
    }

    // Fails exactly on incomplete and over-subscribed lengths with two or more symbols.
    method Build(codeSizes: Sizes) returns (ok: bool)
      requires ValidSizes(codeSizes)
      requires lookUp.Length == FAST_SIZE && tree.Length == TREE_SIZE && lookUp != tree
      modifies this, lookUp, tree
      ensures sizes == codeSizes
      ensures ok <==> Accepted(codeSizes)
      ensures ok ==> Ready()
    {
      hide TrieOk;
      sizes := codeSizes;
      Clear();
      var nextCode, used, total := Tally(sizes);
      if 65536 != total && used > 1 {
        return false;
      }
      AcceptedNotOversubscribed(sizes);
      InsertAll(nextCode);
      return true;
    }

    method Insert(s: nat, curCode: nat, next: int) returns (treeNext: int)
      requires Holds(s) && s < |sizes| && sizes[s] > 0 && Accepted(sizes)
      requires curCode == Code(sizes, s) && next == Link(|nodes|)
      modifies this`nodes, lookUp, tree
      ensures Holds(s + 1) && treeNext == Link(|nodes|)
      ensures forall r :: 0 <= r < FAST_SIZE && old(lookUp[r]) != 0 ==> lookUp[r] == old(lookUp[r])
      ensures forall i :: 0 <= i < TREE_SIZE && old(tree[i]) != 0 ==> tree[i] == old(tree[i])
    {
      hide TrieOk;
      var revCode := ReverseCode(curCode, sizes[s]);
      if sizes[s] <= FAST_BITS {
        InsertShort(s, revCode);
        treeNext := next;
      } else {
        treeNext := InsertLong(s, revCode, next);
      }
    }

    // A code of at most ten bits takes every slot whose index ends in its reversed bits.
    method InsertShort(s: nat, revCode: nat)
      requires Holds(s) && s < |sizes| && 0 < sizes[s] <= FAST_BITS
      requires revCode == First(Code(sizes, s), sizes[s])
      modifies lookUp
      ensures Holds(s + 1)
      ensures forall r :: 0 <= r < FAST_SIZE && old(lookUp[r]) != 0 ==> lookUp[r] == old(lookUp[r])
    {
      hide TrieOk;
      var k := 512 * sizes[s] + s;
      var rev := revCode;
      ghost var was := lookUp[..];
      FirstSlot(sizes, s);
      while rev < FAST_SIZE
        invariant SlotTaken(sizes, s, rev)
        invariant forall r :: 0 <= r < FAST_SIZE ==>
                    lookUp[r] == if r < rev && SlotTaken(sizes, s, r) then k else was[r]
        decreases FAST_SIZE - rev
      {
        lookUp[rev] := k;
        NextSlot(sizes, s, rev);
        rev := rev + Pow2(sizes[s]);
      }
      AddShort(sizes, s, nodes, was, lookUp[..], tree[..]);
      forall r | 0 <= r < FAST_SIZE && was[r] != 0 ensures lookUp[r] == was[r] {
        if SlotTaken(sizes, s, r) {
          ShortSlotsFree(sizes, s, nodes, was, tree[..], r);
          assert false;
        }
      }
    }

    // Nodes on the way to symbol s may exist although s itself is not stored yet.
    ghost predicate Growing(s: nat)
      reads this, lookUp, tree
    {
      && ValidSizes(sizes) && GoodSizes(sizes) && Accepted(sizes) && lookUp != tree
      && lookUp.Length == FAST_SIZE && tree.Length == TREE_SIZE
      && s < |sizes| && sizes[s] > FAST_BITS
      && TrieOk(sizes, s, s + 1, nodes, lookUp[..], tree[..])
    }

    // Node p is where the walk for symbol s stands.
    ghost predicate At(s: nat, p: Pos, treeCur: int)
      reads this
    {
      && s < |sizes| && FAST_BITS <= p.depth < sizes[s] && p == PathPos(sizes, s, p.depth)
      && p in nodes && treeCur == Link(nodes[p])
      && (forall d :: FAST_BITS <= d <= p.depth ==> PathPos(sizes, s, d) in nodes)
      && (Complete(sizes) || |nodes| <= p.depth - FAST_BITS + 1)
    }

    method EnterSlot(s: nat, revCode: nat, next: int) returns (treeCur: int, treeNext: int)
      requires Growing(s) && StartsWith(sizes, revCode, s) && next == Link(|nodes|)
      requires Complete(sizes) || nodes == map[]
      modifies this`nodes, lookUp
      ensures Growing(s) && treeNext == Link(|nodes|) && At(s, PathPos(sizes, s, FAST_BITS), treeCur)
      ensures forall r :: 0 <= r < FAST_SIZE && old(lookUp[r]) != 0 ==> lookUp[r] == old(lookUp[r])
    {
      hide TrieOk;
      treeNext := next;
      var slot := revCode % FAST_SIZE;
      ghost var p := PathPos(sizes, s, FAST_BITS);
      SlotOnPath(sizes, revCode, s);
      PathSlot(sizes, s, nodes, lookUp[..], tree[..], slot);
      treeCur := lookUp[slot];
      if treeCur == 0 {
        Room(sizes, s, nodes, lookUp[..], tree[..], FAST_BITS);
        AddRootNode(sizes, s, nodes, lookUp[..], tree[..], slot);
        lookUp[slot] := treeNext;
        nodes := nodes[p := |nodes|];
        treeCur := treeNext;
        treeNext := treeNext - 2;
      }
    }

    method Descend(s: nat, revCode: nat, ghost p: Pos, cell: int, next: int) returns (treeCur: int, treeNext: int)
      requires Growing(s) && StartsWith(sizes, revCode, s) && next == Link(|nodes|)
      requires At(s, p, cell + Bit(revCode, p.depth)) && p.depth + 1 < sizes[s]
      modifies this`nodes, tree
      ensures Growing(s) && treeNext == Link(|nodes|) && At(s, PathPos(sizes, s, p.depth + 1), treeCur)
      ensures forall i :: 0 <= i < TREE_SIZE && old(tree[i]) != 0 ==> tree[i] == old(tree[i])
    {
      hide TrieOk;
      hide GoodSizes;
      hide Accepted;
      hide Complete;
      hide StartsWith;
      hide Shr;
      treeNext := next;
      ghost var b := Bit(revCode, p.depth);
      ghost var q := Child(p, b);
      StreamOnPath(sizes, revCode, s, p.depth);
      PathEntry(sizes, s, nodes, lookUp[..], tree[..], p, b);
      treeCur := tree[-cell - 1];
      if treeCur == 0 {
        Room(sizes, s, nodes, lookUp[..], tree[..], q.depth);
        AddInnerNode(sizes, s, nodes, lookUp[..], tree[..], p, b);
        tree[-cell - 1] := treeNext;
        nodes := nodes[q := |nodes|];
        treeCur := treeNext;
        treeNext := treeNext - 2;
      }
    }

    // The walk below the slot, one tree level per bit, down to the parent of the leaf.
    method WalkDown(s: nat, size: nat, revCode: nat, root: int, next: int) returns (treeCur: int, treeNext: int, cell: int)
      requires Growing(s) && size == sizes[s] && StartsWith(sizes, revCode, s) && next == Link(|nodes|)
      requires At(s, PathPos(sizes, s, FAST_BITS), root)
      modifies this`nodes, tree
      ensures Growing(s) && treeNext == Link(|nodes|) && At(s, PathPos(sizes, s, size - 1), treeCur)
      ensures cell == treeCur - Bit(revCode, size - 1)
      ensures forall i :: 0 <= i < TREE_SIZE && old(tree[i]) != 0 ==> tree[i] == old(tree[i])
    {
      hide TrieOk;
      treeCur, treeNext := root, next;
      var rev := Shr(revCode, FAST_BITS - 1);
      ghost var p := PathPos(sizes, s, FAST_BITS);
      var j := size;
      while j > FAST_BITS + 1
        invariant FAST_BITS + 1 <= j <= size && p.depth == FAST_BITS + size - j
        invariant Growing(s) && treeNext == Link(|nodes|) && At(s, p, treeCur)
        invariant rev == Shr(revCode, FAST_BITS - 1 + size - j)
        invariant forall i :: 0 <= i < TREE_SIZE && old(tree[i]) != 0 ==> tree[i] == old(tree[i])
      {
        rev := rev / 2;
        j := j - 1;
        assert rev == Shr(revCode, FAST_BITS - 1 + size - j);
        treeCur, treeNext := Descend(s, revCode, p, treeCur - rev % 2, treeNext);
        p := PathPos(sizes, s, p.depth + 1);
      }
      rev := rev / 2;
      cell := treeCur - rev % 2;
    }

    method PlaceLeaf(s: nat, revCode: nat, ghost p: Pos, cell: int)
      requires Growing(s) && StartsWith(sizes, revCode, s)
      requires p.depth == sizes[s] - 1 && At(s, p, cell + Bit(revCode, p.depth))
      modifies tree
      ensures Holds(s + 1)
      ensures forall i :: 0 <= i < TREE_SIZE && old(tree[i]) != 0 ==> tree[i] == old(tree[i])
    {
      hide TrieOk;
      StreamOnPath(sizes, revCode, s, p.depth);
      AddLongLeaf(sizes, s, nodes, lookUp[..], tree[..], p, Bit(revCode, p.depth));
      tree[-cell - 1] := s;
    }

    // A longer code walks down from its slot, adding the nodes that are missing, to its own cell.
    method InsertLong(s: nat, revCode: nat, next: int) returns (treeNext: int)
      requires Holds(s) && s < |sizes| && sizes[s] > FAST_BITS && Accepted(sizes)
      requires revCode == First(Code(sizes, s), sizes[s]) && next == Link(|nodes|)
      modifies this`nodes, lookUp, tree
      ensures Holds(s + 1) && treeNext == Link(|nodes|)
      ensures forall r :: 0 <= r < FAST_SIZE && old(lookUp[r]) != 0 ==> lookUp[r] == old(lookUp[r])
      ensures forall i :: 0 <= i < TREE_SIZE && old(tree[i]) != 0 ==> tree[i] == old(tree[i])
    {
      hide TrieOk;
      var size := sizes[s];
      CodeReversed(sizes, s);
      if !Complete(sizes) {
        LoneSymbol(sizes, s, nodes, lookUp[..], tree[..]);
      }
      AllowPath(sizes, s, nodes, lookUp[..], tree[..]);
      var treeCur, cell;
      treeCur, treeNext := EnterSlot(s, revCode, next);
      treeCur, treeNext, cell := WalkDown(s, size, revCode, treeCur, treeNext);
      PlaceLeaf(s, revCode, PathPos(sizes, s, size - 1), cell);
    }

    // One table walk on the next bits of the stream: the raw entry, as the literal loop keeps
    // it, and the number of bits it took.
    method Walk(bits: nat) returns (entry: nat, codeLen: nat)
      requires Ready()
      ensures if Decodable(sizes, bits) then
                codeLen == sizes[SymbolOf(sizes, bits)] && entry == RawEntry(sizes, SymbolOf(sizes, bits))
              else entry == 0 && DeadEnd(nodes, bits, codeLen)
    {
      hide TrieOk;
      SlotRead(sizes, nodes, lookUp[..], tree[..], bits);
      var temp := lookUp[bits % FAST_SIZE];
      if temp >= 0 {
        codeLen := temp / 512;
      } else {
        codeLen := FAST_BITS;
        while temp < 0
          invariant FAST_BITS <= codeLen <= MAX_BITS
          invariant temp < 0 ==> Along(bits, codeLen) in nodes && temp == Link(nodes[Along(bits, codeLen)])
          invariant temp >= 0 && Decodable(sizes, bits) ==>
                      var s := SymbolOf(sizes, bits); FAST_BITS < sizes[s] == codeLen && temp == s
          invariant temp >= 0 && !Decodable(sizes, bits) ==> temp == 0 && DeadEnd(nodes, bits, codeLen)
          decreases MAX_BITS - codeLen
        {
          CellRead(sizes, nodes, lookUp[..], tree[..], bits, codeLen);
          temp := tree[-temp - 1 + Bit(bits, codeLen)];
          codeLen := codeLen + 1;
        }
      }
      entry := temp;
    }

    // Whether the walk would end within the first available bits.  The bits after them read as zero.
    method Sufficient(bits: nat, available: nat) returns (enough: bool)
      requires Ready()
      ensures enough ==> Settled(sizes, nodes, bits, available)
      ensures !enough ==> !(Decodable(sizes, bits) && sizes[SymbolOf(sizes, bits)] <= available)
    {
      hide TrieOk;
      SlotRead(sizes, nodes, lookUp[..], tree[..], bits);
      var temp := lookUp[bits % FAST_SIZE];
      if temp >= 0 {
        var codeLen := temp / 512;
        return codeLen != 0 && available >= codeLen;
      }
      if available > FAST_BITS {
        var codeLen := FAST_BITS;
        while temp < 0 && available >= codeLen + 1
          invariant FAST_BITS <= codeLen <= MAX_BITS && codeLen <= available
          invariant temp < 0 ==> Along(bits, codeLen) in nodes && temp == Link(nodes[Along(bits, codeLen)])
          invariant temp < 0 && Decodable(sizes, bits) ==> sizes[SymbolOf(sizes, bits)] > codeLen
          invariant temp >= 0 && Decodable(sizes, bits) ==> sizes[SymbolOf(sizes, bits)] == codeLen
          invariant temp >= 0 && !Decodable(sizes, bits) ==> codeLen > 0 && DeadEnd(nodes, bits, codeLen)
          decreases MAX_BITS - codeLen
        {
          CellRead(sizes, nodes, lookUp[..], tree[..], bits, codeLen);
          NodeIsShorter(codeLen, bits);
          temp := tree[-temp - 1 + Bit(bits, codeLen)];
          codeLen := codeLen + 1;
        }
        return temp >= 0;
      }
      return false;
    }

    // On a node, the symbol is still to come.
    lemma NodeIsShorter(d: nat, bits: nat)
      requires Ready()
      ensures Along(bits, d + 1) in nodes && Decodable(sizes, bits) ==> sizes[SymbolOf(sizes, bits)] > d + 1
    {
      if Along(bits, d + 1) in nodes && Decodable(sizes, bits) {
        var s := SymbolOf(sizes, bits);
        if sizes[s] <= d + 1 {
          OwnerAlong(sizes, bits, s, d + 1);
          NodeNotCovered(sizes, |sizes|, nodes, s, Along(bits, d + 1));
          assert false;
        }
      }
    }
  }

  // What the table stores for a symbol: the length rides along with short codes.
  function RawEntry(sizes: Sizes, s: nat): (e: nat)
    requires s < |sizes|
    ensures s < 512 && sizes[s] <= 15 ==> e % 512 == s
  {
    if sizes[s] <= FAST_BITS then 512 * sizes[s] + s else s
  }

  // For every accepted set of lengths and every stream the walk gives the one symbol whose code the
  // stream starts with; a complete set leaves no stream without one.
  method DecodeSymbol(t: Table, bits: nat) returns (sym: nat, codeLen: nat)
    requires t.Ready()
    ensures Decodable(t.sizes, bits) ==> StartsWith(t.sizes, bits, sym) && codeLen == t.sizes[sym]
    ensures forall s :: StartsWith(t.sizes, bits, s) ==> s == sym
    ensures Complete(t.sizes) ==> Decodable(t.sizes, bits)
  {
    hide TrieOk;
    var entry;
    entry, codeLen := t.Walk(bits);
    sym := entry % 512;
    if Complete(t.sizes) {
      SymbolExists(t.sizes, bits);
    }
    forall s | StartsWith(t.sizes, bits, s) ensures s == sym {
      SymbolUnique(t.sizes, bits, s, SymbolOf(t.sizes, bits));
    }
  }
}
