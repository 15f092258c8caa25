// What the two-level decoding table stands for: a binary trie whose first ten levels are
// folded into 1024 look-up slots (indexed by the next ten bits of the stream, first bit
// least significant) and whose deeper nodes are pairs of cells of the tree array.
//
// Node number k is written as the negative value -(2k+1); its children are the cells 2k
// and 2k+1.  A look-up leaf is 512*length + symbol, a tree leaf is the bare symbol.
module HuffmanTrie {
  import opened Bits
  import opened HuffmanCode

  const FAST_BITS: nat := 10
  const FAST_SIZE: nat := 1024
  const TREE_SIZE: nat := 576

  // A position in the trie: the depth and the bits on the path to it, first bit most significant.
  datatype Pos = Pos(depth: nat, bits: nat)

  type Nodes = map<Pos, nat>

  function Child(p: Pos, b: nat): Pos {
    Pos(p.depth + 1, 2 * p.bits + b)
  }

  function Parent(p: Pos): Pos
    requires p.depth > 0
  {
    Pos(p.depth - 1, p.bits / 2)
  }

  // Where the code of s passes depth d.
  function PathPos(sizes: Sizes, s: nat, d: nat): Pos
    requires s < |sizes| && d <= sizes[s]
  {
    Pos(d, Shr(Code(sizes, s), sizes[s] - d))
  }

  // p is a proper prefix of the code of s.
  predicate Leads(sizes: Sizes, s: nat, p: Pos) {
    s < |sizes| && p.depth < sizes[s] && PathPos(sizes, s, p.depth) == p
  }

  // The code of s is a prefix of p.
  predicate Covers(sizes: Sizes, s: nat, p: Pos) {
    s < |sizes| && 0 < sizes[s] <= p.depth && Shr(p.bits, p.depth - sizes[s]) == Code(sizes, s)
  }

  // The last of the first n symbols whose code is a prefix of p, or -1.
  function Owner(sizes: Sizes, n: nat, p: Pos): (o: int)
    requires n <= |sizes|
    ensures -1 <= o < n
    ensures o >= 0 ==> Covers(sizes, o, p)
    ensures forall s :: 0 <= s < n && Covers(sizes, s, p) ==> o >= 0
  {
    if n == 0 then -1
    else if Covers(sizes, n - 1, p) then n - 1
    else Owner(sizes, n - 1, p)
  }

  function Link(k: nat): int {
    -(2 * k + 1)
  }

  function SlotValue(sizes: Sizes, n: nat, nodes: Nodes, p: Pos): int
    requires n <= |sizes|
  {
    if p in nodes then Link(nodes[p])
    else if Owner(sizes, n, p) < 0 then 0
    else 512 * sizes[Owner(sizes, n, p)] + Owner(sizes, n, p)
  }

  function CellValue(sizes: Sizes, n: nat, nodes: Nodes, p: Pos): int
    requires n <= |sizes|
  {
    if p in nodes then Link(nodes[p])
    else if Owner(sizes, n, p) < 0 then 0
    else Owner(sizes, n, p)
  }

  ghost predicate Led(sizes: Sizes, m: nat, p: Pos) {
    exists s :: 0 <= s < m && Leads(sizes, s, p)
  }

  // The node set: closed under parents, numbered 0, 1, ... without gaps, and made of
  // proper prefixes of the codes of the first m symbols.
  ghost predicate NodesOk(sizes: Sizes, m: nat, nodes: Nodes) {
    && (forall p :: p in nodes ==> FAST_BITS <= p.depth && nodes[p] < |nodes|)
    && (forall p :: p in nodes ==> Led(sizes, m, p))
    && (forall p {:trigger Parent(p)} :: p in nodes && p.depth > FAST_BITS ==> Parent(p) in nodes)
    && (forall p, q :: p in nodes && q in nodes && nodes[p] == nodes[q] ==> p == q)
  }

  // Every long code among the first n symbols has all its inner nodes.
  ghost predicate PathsPresent(sizes: Sizes, n: nat, nodes: Nodes)
    requires n <= |sizes|
  {
    forall s, d :: 0 <= s < n && FAST_BITS <= d < sizes[s] ==> PathPos(sizes, s, d) in nodes
  }

  ghost predicate SlotsOk(sizes: Sizes, n: nat, nodes: Nodes, slots: seq<int>)
    requires n <= |sizes|
  {
    |slots| == FAST_SIZE
    && forall r :: 0 <= r < FAST_SIZE ==> slots[r] == SlotValue(sizes, n, nodes, Pos(FAST_BITS, First(r, FAST_BITS)))
  }

  ghost predicate CellsOk(sizes: Sizes, n: nat, nodes: Nodes, cells: seq<int>)
    requires n <= |sizes|
  {
    && |cells| == TREE_SIZE
    && 2 * |nodes| <= TREE_SIZE
    && (forall p, b :: p in nodes && nodes[p] < |nodes| && 0 <= b <= 1 ==>
          cells[2 * nodes[p] + b] == CellValue(sizes, n, nodes, Child(p, b)))
    && (forall i :: 2 * |nodes| <= i < TREE_SIZE ==> cells[i] == 0)
  }

  // The table holds exactly the first n symbols; nodes may already lead towards symbols below m.
  ghost predicate TrieOk(sizes: Sizes, n: nat, m: nat, nodes: Nodes, slots: seq<int>, cells: seq<int>) {
    && n <= m <= |sizes|
    && NodesOk(sizes, m, nodes)
    && PathsPresent(sizes, n, nodes)
    && SlotsOk(sizes, n, nodes, slots)
    && CellsOk(sizes, n, nodes, cells)
  }

  ghost predicate GoodSizes(sizes: Sizes) {
    ValidSizes(sizes) && Total(sizes) <= 65536
  }

  // ---- positions on code paths ----

  lemma PathChild(sizes: Sizes, s: nat, d: nat)
    requires s < |sizes| && d < sizes[s]
    ensures Parent(PathPos(sizes, s, d + 1)) == PathPos(sizes, s, d)
    ensures PathPos(sizes, s, d + 1) == Child(PathPos(sizes, s, d), Bit(Code(sizes, s), sizes[s] - d - 1))
  {
  }

  // A prefix of a code is not itself covered by another code.
  lemma CoveredNotLeading(sizes: Sizes, s: nat, t: nat, p: Pos)
    requires GoodSizes(sizes)
    requires Covers(sizes, s, p) && t < |sizes| && p.depth <= sizes[t] && PathPos(sizes, t, p.depth) == p
    ensures s == t
  {
    if s != t {
      ShrShr(Code(sizes, t), sizes[t] - p.depth, p.depth - sizes[s]);
      PrefixFree(sizes, s, t);
      assert false;
    }
  }

  lemma CoversParent(sizes: Sizes, s: nat, p: Pos)
    requires s < |sizes| && 0 < sizes[s] < p.depth
    ensures Covers(sizes, s, p) <==> Covers(sizes, s, Parent(p))
  {
    ShrHalf(p.bits, p.depth - sizes[s]);
  }

  lemma OwnerStep(sizes: Sizes, n: nat, p: Pos)
    requires n < |sizes| && !Covers(sizes, n, p)
    ensures Owner(sizes, n + 1, p) == Owner(sizes, n, p)
  {
  }

  // The code of s is neither a prefix of a node nor of a cell below a node, unless it ends there.
  lemma NodeNotCovered(sizes: Sizes, m: nat, nodes: Nodes, s: nat, p: Pos)
    requires GoodSizes(sizes) && m <= |sizes| && NodesOk(sizes, m, nodes) && p in nodes
    ensures !Covers(sizes, s, p)
  {
    if Covers(sizes, s, p) {
      var t :| 0 <= t < m && Leads(sizes, t, p);
      CoveredNotLeading(sizes, s, t, p);
      assert false;
    }
  }

  lemma CellCoveredOnlyByEnd(sizes: Sizes, m: nat, nodes: Nodes, s: nat, p: Pos, b: nat)
    requires GoodSizes(sizes) && m <= |sizes| && NodesOk(sizes, m, nodes) && p in nodes && b <= 1
    requires Covers(sizes, s, Child(p, b))
    ensures sizes[s] == p.depth + 1 && PathPos(sizes, s, sizes[s]) == Child(p, b)
  {
    assert Parent(Child(p, b)) == p;
    if sizes[s] <= p.depth {
      CoversParent(sizes, s, Child(p, b));
      NodeNotCovered(sizes, m, nodes, s, p);
      assert false;
    }
  }

  // ---- one symbol is added ----

  lemma AddUnused(sizes: Sizes, n: nat, nodes: Nodes, slots: seq<int>, cells: seq<int>)
    requires TrieOk(sizes, n, n, nodes, slots, cells) && n < |sizes| && sizes[n] == 0
    ensures TrieOk(sizes, n + 1, n + 1, nodes, slots, cells)
  {
    forall p: Pos {
      OwnerStep(sizes, n, p);
    }
  }

  // Before symbol n is walked in, its path may already be thought of as allowed.
  lemma AllowPath(sizes: Sizes, n: nat, nodes: Nodes, slots: seq<int>, cells: seq<int>)
    requires TrieOk(sizes, n, n, nodes, slots, cells) && n < |sizes|
    ensures TrieOk(sizes, n, n + 1, nodes, slots, cells)
  {
  }

  // What the walk for symbol n finds in the slot or cell of a position on its path.
  lemma PathEntry(sizes: Sizes, n: nat, nodes: Nodes, slots: seq<int>, cells: seq<int>, p: Pos, b: nat)
    requires GoodSizes(sizes) && n < |sizes| && TrieOk(sizes, n, n + 1, nodes, slots, cells)
    requires p in nodes && b <= 1 && Leads(sizes, n, Child(p, b))
    ensures 2 * nodes[p] + b < TREE_SIZE
    ensures cells[2 * nodes[p] + b] == if Child(p, b) in nodes then Link(nodes[Child(p, b)]) else 0
  {
    NoOwnerOnPath(sizes, n, Child(p, b));
  }

  lemma PathSlot(sizes: Sizes, n: nat, nodes: Nodes, slots: seq<int>, cells: seq<int>, r: nat)
    requires GoodSizes(sizes) && n < |sizes| && TrieOk(sizes, n, n + 1, nodes, slots, cells)
    requires r < FAST_SIZE && Leads(sizes, n, Pos(FAST_BITS, First(r, FAST_BITS)))
    ensures var p := Pos(FAST_BITS, First(r, FAST_BITS));
            |slots| == FAST_SIZE && slots[r] == if p in nodes then Link(nodes[p]) else 0
  {
    NoOwnerOnPath(sizes, n, Pos(FAST_BITS, First(r, FAST_BITS)));
  }

  predicate SlotTaken(sizes: Sizes, s: nat, r: nat)
    requires s < |sizes|
  {
    First(r, sizes[s]) == Code(sizes, s)
  }

  lemma SlotCover(sizes: Sizes, s: nat, r: nat)
    requires s < |sizes| && 0 < sizes[s] <= FAST_BITS
    ensures SlotTaken(sizes, s, r) <==> Covers(sizes, s, Pos(FAST_BITS, First(r, FAST_BITS)))
  {
    ShrFirst(r, FAST_BITS, sizes[s]);
  }

  // A short code claims slots that were all free.
  lemma ShortSlotsFree(sizes: Sizes, n: nat, nodes: Nodes, slots: seq<int>, cells: seq<int>, r: nat)
    requires GoodSizes(sizes) && TrieOk(sizes, n, n, nodes, slots, cells) && n < |sizes|
    requires 0 < sizes[n] <= FAST_BITS && r < FAST_SIZE && SlotTaken(sizes, n, r)
    ensures Pos(FAST_BITS, First(r, FAST_BITS)) !in nodes && slots[r] == 0
  {
    var p := Pos(FAST_BITS, First(r, FAST_BITS));
    SlotCover(sizes, n, r);
    if p in nodes {
      NodeNotCovered(sizes, n, nodes, n, p);
      assert false;
    }
    var o := Owner(sizes, n, p);
    if o >= 0 {
      OneOwner(sizes, n, o, p);
      assert false;
    }
  }

  lemma OneOwner(sizes: Sizes, s: nat, t: nat, p: Pos)
    requires GoodSizes(sizes) && Covers(sizes, s, p) && Covers(sizes, t, p)
    ensures s == t
  {
    if sizes[s] <= sizes[t] {
      ShrShr(p.bits, p.depth - sizes[t], sizes[t] - sizes[s]);
      if s != t { PrefixFree(sizes, s, t); assert false; }
    } else {
      ShrShr(p.bits, p.depth - sizes[s], sizes[s] - sizes[t]);
      PrefixFree(sizes, t, s);
      assert false;
    }
  }

  lemma AddShort(sizes: Sizes, n: nat, nodes: Nodes, slots: seq<int>, slots': seq<int>, cells: seq<int>)
    requires GoodSizes(sizes) && TrieOk(sizes, n, n, nodes, slots, cells) && n < |sizes|
    requires 0 < sizes[n] <= FAST_BITS && |slots'| == FAST_SIZE
    requires forall r :: 0 <= r < FAST_SIZE ==>
               slots'[r] == if SlotTaken(sizes, n, r) then 512 * sizes[n] + n else slots[r]
    ensures TrieOk(sizes, n + 1, n + 1, nodes, slots', cells)
  {
    forall r | 0 <= r < FAST_SIZE
      ensures slots'[r] == SlotValue(sizes, n + 1, nodes, Pos(FAST_BITS, First(r, FAST_BITS)))
    {
      SlotCover(sizes, n, r);
      if SlotTaken(sizes, n, r) {
        ShortSlotsFree(sizes, n, nodes, slots, cells, r);
      }
    }
    forall p, b | p in nodes && nodes[p] < |nodes| && 0 <= b <= 1
      ensures CellValue(sizes, n + 1, nodes, Child(p, b)) == CellValue(sizes, n, nodes, Child(p, b))
    {
      if Covers(sizes, n, Child(p, b)) {
        CellCoveredOnlyByEnd(sizes, n, nodes, n, p, b);
        assert false;
      }
    }
  }

  // ---- one node is added on the path of symbol n ----

  // Nothing has been stored below a position that is not a node.
  lemma NewNodeEmpty(sizes: Sizes, n: nat, m: nat, nodes: Nodes, q: Pos, b: nat)
    requires n <= m <= |sizes| && NodesOk(sizes, m, nodes) && PathsPresent(sizes, n, nodes)
    requires q !in nodes && q.depth >= FAST_BITS && Owner(sizes, n, q) < 0 && b <= 1
    ensures CellValue(sizes, n, nodes, Child(q, b)) == 0
  {
    var c := Child(q, b);
    assert Parent(c) == q;
    assert c !in nodes;
    var o := Owner(sizes, n, c);
    if o >= 0 {
      if sizes[o] < c.depth {
        CoversParent(sizes, o, c);
        assert false;
      } else {
        PathChild(sizes, o, q.depth);
        assert false;
      }
    }
  }

  // The position of a new node: led to by symbol n, whose earlier nodes exist.
  ghost predicate NewNode(sizes: Sizes, n: nat, nodes: Nodes, q: Pos) {
    && n < |sizes| && q.depth >= FAST_BITS && Leads(sizes, n, q) && q !in nodes
    && (q.depth > FAST_BITS ==> Parent(q) in nodes)
    && 2 * |nodes| + 2 <= TREE_SIZE
  }

  lemma NoOwnerOnPath(sizes: Sizes, n: nat, q: Pos)
    requires GoodSizes(sizes) && n < |sizes| && q.depth <= sizes[n] && PathPos(sizes, n, q.depth) == q
    ensures Owner(sizes, n, q) < 0
  {
    var o := Owner(sizes, n, q);
    if o >= 0 {
      CoveredNotLeading(sizes, o, n, q);
      assert false;
    }
  }

  lemma NodesAfterNew(sizes: Sizes, n: nat, nodes: Nodes, q: Pos)
    requires GoodSizes(sizes) && NewNode(sizes, n, nodes, q)
    requires NodesOk(sizes, n + 1, nodes) && PathsPresent(sizes, n, nodes)
    ensures NodesOk(sizes, n + 1, nodes[q := |nodes|]) && PathsPresent(sizes, n, nodes[q := |nodes|])
    ensures |nodes[q := |nodes|]| == |nodes| + 1
  {
    NodesOkAfterNew(sizes, n, nodes, q);
    PathsAfterNew(sizes, n, nodes, q);
    OneMoreNode(nodes, q);
  }

  lemma OneMoreNode(nodes: Nodes, q: Pos)
    requires q !in nodes
    ensures |nodes[q := |nodes|]| == |nodes| + 1
  {
    assert nodes[q := |nodes|].Keys == nodes.Keys + {q};
  }

  lemma NodesOkAfterNew(sizes: Sizes, n: nat, nodes: Nodes, q: Pos)
    requires NewNode(sizes, n, nodes, q) && NodesOk(sizes, n + 1, nodes)
    ensures NodesOk(sizes, n + 1, nodes[q := |nodes|])
  {
    hide PathPos;
    hide Leads;
    var nodes' := nodes[q := |nodes|];
    OneMoreNode(nodes, q);
    assert Led(sizes, n + 1, q);
    hide Led;
    assert forall p :: p in nodes ==> nodes'[p] == nodes[p];
  }

  lemma PathsAfterNew(sizes: Sizes, n: nat, nodes: Nodes, q: Pos)
    requires n <= |sizes| && PathsPresent(sizes, n, nodes)
    ensures PathsPresent(sizes, n, nodes[q := |nodes|])
  {
    hide PathPos;
  }

  // Cells of the existing nodes and of the new node, except the one that points to the new node.
  lemma CellsAfterNew(sizes: Sizes, n: nat, nodes: Nodes, q: Pos, cells: seq<int>, p: Pos, b: nat)
    requires GoodSizes(sizes) && NewNode(sizes, n, nodes, q)
    requires NodesOk(sizes, n + 1, nodes) && PathsPresent(sizes, n, nodes) && CellsOk(sizes, n, nodes, cells)
    requires b <= 1 && p in nodes[q := |nodes|] && Child(p, b) != q
    ensures 2 * nodes[q := |nodes|][p] + b < TREE_SIZE
    ensures cells[2 * nodes[q := |nodes|][p] + b] == CellValue(sizes, n, nodes[q := |nodes|], Child(p, b))
  {
    if p == q {
      NoOwnerOnPath(sizes, n, q);
      NewNodeEmpty(sizes, n, n + 1, nodes, q, b);
    }
  }

  lemma AddRootNode(sizes: Sizes, n: nat, nodes: Nodes, slots: seq<int>, cells: seq<int>, r: nat)
    requires GoodSizes(sizes) && n < |sizes| && TrieOk(sizes, n, n + 1, nodes, slots, cells)
    requires r < FAST_SIZE && NewNode(sizes, n, nodes, Pos(FAST_BITS, First(r, FAST_BITS)))
    ensures slots[r] == 0
    ensures TrieOk(sizes, n, n + 1, nodes[Pos(FAST_BITS, First(r, FAST_BITS)) := |nodes|], slots[r := Link(|nodes|)], cells)
  {
    var q := Pos(FAST_BITS, First(r, FAST_BITS));
    NoOwnerOnPath(sizes, n, q);
    NodesAfterNew(sizes, n, nodes, q);
    var nodes' := nodes[q := |nodes|];
    var slots' := slots[r := Link(|nodes|)];
    forall t | 0 <= t < FAST_SIZE
      ensures slots'[t] == SlotValue(sizes, n, nodes', Pos(FAST_BITS, First(t, FAST_BITS)))
    {
      SlotsDiffer(r, t);
    }
    forall p, b | p in nodes' && nodes'[p] < |nodes'| && 0 <= b <= 1
      ensures cells[2 * nodes'[p] + b] == CellValue(sizes, n, nodes', Child(p, b))
    {
      CellsAfterNew(sizes, n, nodes, q, cells, p, b);
    }
  }

  lemma SlotsDiffer(r: nat, t: nat)
    requires r < FAST_SIZE && t < FAST_SIZE
    ensures First(r, FAST_BITS) == First(t, FAST_BITS) ==> r == t
  {
    hide First;
    FirstEqualsMod(r, t, FAST_BITS);
    FastPow();
  }

  lemma FastPow()
    ensures Pow2(FAST_BITS) == FAST_SIZE
  {
    assert Pow2(10) == 1024;
  }

  lemma AddInnerNode(sizes: Sizes, n: nat, nodes: Nodes, slots: seq<int>, cells: seq<int>, p: Pos, b: nat)
    requires GoodSizes(sizes) && n < |sizes| && TrieOk(sizes, n, n + 1, nodes, slots, cells)
    requires p in nodes && b <= 1 && NewNode(sizes, n, nodes, Child(p, b))
    ensures 2 * nodes[p] + b < TREE_SIZE && cells[2 * nodes[p] + b] == 0
    ensures TrieOk(sizes, n, n + 1, nodes[Child(p, b) := |nodes|], slots, cells[2 * nodes[p] + b := Link(|nodes|)])
  {
    var q := Child(p, b);
    NodesAfterNew(sizes, n, nodes, q);
    InnerNodeCells(sizes, n, nodes, cells, p, b);
    InnerNodeSlots(sizes, n, nodes, slots, q);
  }

  lemma InnerNodeSlots(sizes: Sizes, n: nat, nodes: Nodes, slots: seq<int>, q: Pos)
    requires n <= |sizes| && SlotsOk(sizes, n, nodes, slots) && q.depth > FAST_BITS
    ensures SlotsOk(sizes, n, nodes[q := |nodes|], slots)
  {
    hide First;
    hide Owner;
  }

  lemma InnerNodeCells(sizes: Sizes, n: nat, nodes: Nodes, cells: seq<int>, p: Pos, b: nat)
    requires GoodSizes(sizes) && n < |sizes| && NodesOk(sizes, n + 1, nodes) && PathsPresent(sizes, n, nodes)
    requires CellsOk(sizes, n, nodes, cells) && p in nodes && b <= 1 && NewNode(sizes, n, nodes, Child(p, b))
    ensures 2 * nodes[p] + b < TREE_SIZE && cells[2 * nodes[p] + b] == 0
    ensures CellsOk(sizes, n, nodes[Child(p, b) := |nodes|], cells[2 * nodes[p] + b := Link(|nodes|)])
  {
    var q := Child(p, b);
    NoOwnerOnPath(sizes, n, q);
    OneMoreNode(nodes, q);
    var nodes' := nodes[q := |nodes|];
    var i := 2 * nodes[p] + b;
    var cells' := cells[i := Link(|nodes|)];
    forall p', b' | p' in nodes' && nodes'[p'] < |nodes'| && 0 <= b' <= 1
      ensures cells'[2 * nodes'[p'] + b'] == CellValue(sizes, n, nodes', Child(p', b'))
    {
      if Child(p', b') == q {
        assert Parent(q) == p && Parent(Child(p', b')) == p';
      } else {
        CellsAfterNew(sizes, n, nodes, q, cells, p', b');
        assert p' == q || nodes[p'] != nodes[p] || b' != b;
        assert 2 * nodes'[p'] + b' != i;
      }
    }
  }

  // ---- the leaf of a long code ----

  lemma AddLongLeaf(sizes: Sizes, n: nat, nodes: Nodes, slots: seq<int>, cells: seq<int>, p: Pos, b: nat)
    requires GoodSizes(sizes) && n < |sizes| && TrieOk(sizes, n, n + 1, nodes, slots, cells)
    requires p in nodes && b <= 1 && sizes[n] > FAST_BITS && PathPos(sizes, n, sizes[n]) == Child(p, b)
    requires forall d :: FAST_BITS <= d < sizes[n] ==> PathPos(sizes, n, d) in nodes
    ensures 2 * nodes[p] + b < TREE_SIZE && cells[2 * nodes[p] + b] == 0
    ensures TrieOk(sizes, n + 1, n + 1, nodes, slots, cells[2 * nodes[p] + b := n])
  {
    var q := Child(p, b);
    NoOwnerOnPath(sizes, n, q);
    assert Covers(sizes, n, q);
    assert q !in nodes by {
      if q in nodes { NodeNotCovered(sizes, n + 1, nodes, n, q); assert false; }
    }
    LongLeafCells(sizes, n, nodes, cells, p, b);
    LongLeafSlots(sizes, n, nodes, slots);
  }

  lemma LongLeafSlots(sizes: Sizes, n: nat, nodes: Nodes, slots: seq<int>)
    requires n < |sizes| && sizes[n] > FAST_BITS && SlotsOk(sizes, n, nodes, slots)
    ensures SlotsOk(sizes, n + 1, nodes, slots)
  {
    forall r | 0 <= r < FAST_SIZE
      ensures slots[r] == SlotValue(sizes, n + 1, nodes, Pos(FAST_BITS, First(r, FAST_BITS)))
    {
      OwnerStep(sizes, n, Pos(FAST_BITS, First(r, FAST_BITS)));
    }
  }

  lemma LongLeafCells(sizes: Sizes, n: nat, nodes: Nodes, cells: seq<int>, p: Pos, b: nat)
    requires GoodSizes(sizes) && n < |sizes| && NodesOk(sizes, n + 1, nodes) && CellsOk(sizes, n, nodes, cells)
    requires p in nodes && b <= 1 && sizes[n] > FAST_BITS && PathPos(sizes, n, sizes[n]) == Child(p, b)
    requires Covers(sizes, n, Child(p, b)) && Child(p, b) !in nodes
    ensures 2 * nodes[p] + b < TREE_SIZE && CellsOk(sizes, n + 1, nodes, cells[2 * nodes[p] + b := n])
  {
    var q := Child(p, b);
    var i := 2 * nodes[p] + b;
    var cells' := cells[i := n];
    forall p', b' | p' in nodes && nodes[p'] < |nodes| && 0 <= b' <= 1
      ensures cells'[2 * nodes[p'] + b'] == CellValue(sizes, n + 1, nodes, Child(p', b'))
    {
      if Covers(sizes, n, Child(p', b')) {
        CellCoveredOnlyByEnd(sizes, n + 1, nodes, n, p', b');
        assert Parent(q) == p && Parent(Child(p', b')) == p';
      } else {
        assert (p', b') != (p, b);
        assert 2 * nodes[p'] + b' != i;
      }
    }
  }

  // ---- the empty table and the finished one ----

  lemma EmptyTrie(sizes: Sizes, slots: seq<int>, cells: seq<int>)
    requires |slots| == FAST_SIZE && |cells| == TREE_SIZE
    requires forall i :: 0 <= i < FAST_SIZE ==> slots[i] == 0
    requires forall i :: 0 <= i < TREE_SIZE ==> cells[i] == 0
    ensures TrieOk(sizes, 0, 0, map[], slots, cells)
  {
  }

  // A stream that starts with the code of s follows that code's path.
  lemma StreamOnPath(sizes: Sizes, x: nat, s: nat, d: nat)
    requires StartsWith(sizes, x, s) && d <= sizes[s]
    ensures PathPos(sizes, s, d) == Pos(d, First(x, d))
    ensures d < sizes[s] ==> PathPos(sizes, s, d + 1) == Child(PathPos(sizes, s, d), Bit(x, d))
  {
    ShrFirst(x, sizes[s], d);
    if d < sizes[s] {
      ShrFirst(x, sizes[s], d + 1);
    }
  }

  // The position depth d of the walk along stream x.
  function Along(x: nat, d: nat): Pos {
    Pos(d, First(x, d))
  }

  // Finished table: symbol s is prefix of x exactly if it owns every position on x from its length on.
  lemma OwnerAlong(sizes: Sizes, x: nat, s: nat, d: nat)
    requires s < |sizes| && 0 < sizes[s] <= d
    ensures Covers(sizes, s, Along(x, d)) <==> StartsWith(sizes, x, s)
  {
    ShrFirst(x, d, sizes[s]);
  }

  // A code longer than d that x starts with has its depth-d node on the walk.
  lemma NodeAlong(sizes: Sizes, nodes: Nodes, x: nat, s: nat, d: nat)
    requires PathsPresent(sizes, |sizes|, nodes)
    requires StartsWith(sizes, x, s) && FAST_BITS <= d < sizes[s]
    ensures Along(x, d) in nodes
  {
    StreamOnPath(sizes, x, s, d);
  }

  // What the walk finds in a slot: a link, the leaf of the code x starts with, or nothing.
  lemma SlotRead(sizes: Sizes, nodes: Nodes, slots: seq<int>, cells: seq<int>, x: nat)
    requires GoodSizes(sizes) && TrieOk(sizes, |sizes|, |sizes|, nodes, slots, cells)
    ensures |slots| == FAST_SIZE
    ensures var (e, p) := (slots[x % FAST_SIZE], Along(x, FAST_BITS));
            if p in nodes then e == Link(nodes[p]) && (forall s: nat :: StartsWith(sizes, x, s) ==> sizes[s] > FAST_BITS)
            else if Decodable(sizes, x) then
              var s := SymbolOf(sizes, x); sizes[s] <= FAST_BITS && e == 512 * sizes[s] + s
            else e == 0
  {
    var p := Along(x, FAST_BITS);
    assert Pow2(FAST_BITS) == FAST_SIZE;
    FirstMod(x, FAST_BITS, FAST_BITS);
    if p in nodes {
      forall s: nat | StartsWith(sizes, x, s) ensures sizes[s] > FAST_BITS {
        if sizes[s] <= FAST_BITS {
          OwnerAlong(sizes, x, s, FAST_BITS);
          NodeNotCovered(sizes, |sizes|, nodes, s, p);
          assert false;
        }
      }
    } else {
      OffNodes(sizes, nodes, x, FAST_BITS);
    }
  }

  // Where the walk has left the nodes, the owner of the position is the symbol, if there is one.
  lemma OffNodes(sizes: Sizes, nodes: Nodes, x: nat, d: nat)
    requires GoodSizes(sizes) && PathsPresent(sizes, |sizes|, nodes) && FAST_BITS <= d && Along(x, d) !in nodes
    ensures var o := Owner(sizes, |sizes|, Along(x, d));
            if Decodable(sizes, x) then o == SymbolOf(sizes, x) && sizes[o] <= d else o == -1
  {
    var o := Owner(sizes, |sizes|, Along(x, d));
    if o >= 0 {
      OwnerAlong(sizes, x, o, d);
      SymbolUnique(sizes, x, o, SymbolOf(sizes, x));
    } else if Decodable(sizes, x) {
      var s := SymbolOf(sizes, x);
      if sizes[s] > d {
        NodeAlong(sizes, nodes, x, s, d);
      } else {
        OwnerAlong(sizes, x, s, d);
      }
      assert false;
    }
  }

  // What the walk finds in a cell of the node at depth d.
  lemma CellRead(sizes: Sizes, nodes: Nodes, slots: seq<int>, cells: seq<int>, x: nat, d: nat)
    requires GoodSizes(sizes) && TrieOk(sizes, |sizes|, |sizes|, nodes, slots, cells)
    requires Along(x, d) in nodes
    ensures FAST_BITS <= d < MAX_BITS && 2 * nodes[Along(x, d)] + Bit(x, d) < TREE_SIZE == |cells|
    ensures var (e, q) := (cells[2 * nodes[Along(x, d)] + Bit(x, d)], Along(x, d + 1));
            if q in nodes then e == Link(nodes[q])
            else if Decodable(sizes, x) then var s := SymbolOf(sizes, x); sizes[s] == d + 1 && e == s
            else e == 0
  {
    var p := Along(x, d);
    var q := Child(p, Bit(x, d));
    assert q == Along(x, d + 1);
    assert Led(sizes, |sizes|, p);
    if q !in nodes {
      OffNodes(sizes, nodes, x, d + 1);
      if Decodable(sizes, x) {
        OwnerAlong(sizes, x, SymbolOf(sizes, x), d + 1);
        CellCoveredOnlyByEnd(sizes, |sizes|, nodes, SymbolOf(sizes, x), p, Bit(x, d));
      }
    }
  }

  // ---- streams no code matches ----

  // The walk ends after len bits without a symbol.
  predicate DeadEnd(nodes: Nodes, x: nat, len: nat) {
    if len == 0 then Along(x, FAST_BITS) !in nodes
    else FAST_BITS < len <= MAX_BITS && Along(x, len - 1) in nodes && Along(x, len) !in nodes
  }

  lemma {:induction false} NodesAlongClosed(sizes: Sizes, m: nat, nodes: Nodes, x: nat, a: nat, b: nat)
    requires NodesOk(sizes, m, nodes) && FAST_BITS <= a <= b && Along(x, b) in nodes
    ensures Along(x, a) in nodes
    decreases b
  {
    if a < b {
      assert Parent(Along(x, b)) == Along(x, b - 1);
      NodesAlongClosed(sizes, m, nodes, x, a, b - 1);
    }
  }

  lemma DeadEndUnique(sizes: Sizes, m: nat, nodes: Nodes, x: nat, a: nat, b: nat)
    requires NodesOk(sizes, m, nodes) && DeadEnd(nodes, x, a) && DeadEnd(nodes, x, b)
    ensures a == b
  {
    if a < b {
      NodesAlongClosed(sizes, m, nodes, x, if a == 0 then FAST_BITS else a, b - 1);
    } else if b < a {
      NodesAlongClosed(sizes, m, nodes, x, if b == 0 then FAST_BITS else b, a - 1);
    }
  }

  // The next d bits of the stream are the beginning of some longer code.
  ghost predicate Ahead(sizes: Sizes, x: nat, d: nat) {
    Led(sizes, |sizes|, Along(x, d))
  }

  ghost function SkipFrom(sizes: Sizes, x: nat, d: nat): nat
    decreases MAX_BITS - d
  {
    if d < MAX_BITS && Ahead(sizes, x, d) then SkipFrom(sizes, x, d + 1) else d
  }

  // How many bits the walk takes where no code matches: none if the ten bits of the look-up begin
  // no code, and otherwise all up to the first one that leaves the beginnings of codes.
  ghost function Skipped(sizes: Sizes, x: nat): nat {
    if Ahead(sizes, x, FAST_BITS) then SkipFrom(sizes, x, FAST_BITS + 1) else 0
  }

  // How many bits it takes in any case.
  ghost function Taken(sizes: Sizes, x: nat): nat {
    if Decodable(sizes, x) then sizes[SymbolOf(sizes, x)] else Skipped(sizes, x)
  }

  lemma NodesAhead(sizes: Sizes, nodes: Nodes, x: nat, d: nat)
    requires NodesOk(sizes, |sizes|, nodes) && PathsPresent(sizes, |sizes|, nodes) && d >= FAST_BITS
    ensures Along(x, d) in nodes <==> Ahead(sizes, x, d)
  {
    if Ahead(sizes, x, d) {
      var s :| 0 <= s < |sizes| && Leads(sizes, s, Along(x, d));
      assert PathPos(sizes, s, d) in nodes;
    }
  }

  lemma {:induction false} SkipEnds(sizes: Sizes, x: nat, d: nat)
    requires ValidSizes(sizes) && FAST_BITS < d <= MAX_BITS && Ahead(sizes, x, d - 1)
    ensures var n := SkipFrom(sizes, x, d); d <= n <= MAX_BITS && Ahead(sizes, x, n - 1) && !Ahead(sizes, x, n)
    decreases MAX_BITS - d
  {
    if d < MAX_BITS && Ahead(sizes, x, d) {
      SkipEnds(sizes, x, d + 1);
    }
  }

  // The dead end of the walk is determined by the lengths alone.
  lemma DeadEndIs(sizes: Sizes, nodes: Nodes, x: nat, len: nat)
    requires ValidSizes(sizes) && NodesOk(sizes, |sizes|, nodes) && PathsPresent(sizes, |sizes|, nodes)
    requires DeadEnd(nodes, x, len)
    ensures len == Skipped(sizes, x)
  {
    hide NodesOk;
    hide PathsPresent;
    hide Ahead;
    var n := Skipped(sizes, x);
    NodesAhead(sizes, nodes, x, FAST_BITS);
    if Ahead(sizes, x, FAST_BITS) {
      SkipEnds(sizes, x, FAST_BITS + 1);
      NodesAhead(sizes, nodes, x, n - 1);
      NodesAhead(sizes, nodes, x, n);
    }
    DeadEndUnique(sizes, |sizes|, nodes, x, len, n);
  }

  // A dead end within the buffered bits is one of the whole stream.
  lemma DeadEndForAll(sizes: Sizes, nodes: Nodes, buffered: nat, n: nat, hi: nat, len: nat)
    requires GoodSizes(sizes) && NodesOk(sizes, |sizes|, nodes) && PathsPresent(sizes, |sizes|, nodes)
    requires Settled(sizes, nodes, buffered, n) && !Decodable(sizes, buffered) && DeadEnd(nodes, buffered, len)
    ensures DeadEnd(nodes, buffered + Pow2(n) * hi, len)
  {
    hide NodesOk;
    hide PathsPresent;
    hide Pow2;
    SettledLength(sizes, |sizes|, nodes, buffered, n);
    if len == 0 {
      if n < MAX_BITS {
        var k :| 0 < k <= n && DeadEnd(nodes, buffered, k);
        DeadEndUnique(sizes, |sizes|, nodes, buffered, k, len);
        assert false;
      }
      FirstAddHigh(buffered, hi, n, FAST_BITS);
    } else {
      FirstAddHigh(buffered, hi, n, len - 1);
      FirstAddHigh(buffered, hi, n, len);
    }
  }

  // The n buffered bits settle what the walk will do, whatever follows them.
  ghost predicate Settled(sizes: Sizes, nodes: Nodes, buffered: nat, n: nat) {
    || n >= MAX_BITS
    || (Decodable(sizes, buffered) && sizes[SymbolOf(sizes, buffered)] <= n)
    || (!Decodable(sizes, buffered) && exists len: nat :: 0 < len <= n && DeadEnd(nodes, buffered, len))
  }

  lemma SettledForAll(sizes: Sizes, m: nat, nodes: Nodes, buffered: nat, n: nat, hi: nat)
    requires GoodSizes(sizes) && NodesOk(sizes, m, nodes) && PathsPresent(sizes, |sizes|, nodes)
    requires Settled(sizes, nodes, buffered, n)
    ensures var x := buffered + Pow2(n) * hi;
            && (Decodable(sizes, x) <==> Decodable(sizes, buffered))
            && SymbolOf(sizes, x) == SymbolOf(sizes, buffered)
    ensures Decodable(sizes, buffered) ==> sizes[SymbolOf(sizes, buffered)] <= n
    ensures !Decodable(sizes, buffered) ==> forall len: nat :: DeadEnd(nodes, buffered, len) ==> len <= n
  {
    hide PathsPresent;
    hide NodesOk;
    hide DeadEnd;
    hide Pow2;
    var x := buffered + Pow2(n) * hi;
    if Decodable(sizes, buffered) {
      SettledSymbol(sizes, buffered, n, hi);
    } else {
      SettledLength(sizes, m, nodes, buffered, n);
      if Decodable(sizes, x) {
        SettledNoSymbol(sizes, nodes, buffered, n, hi);
        assert false;
      }
    }
  }

  lemma SettledLength(sizes: Sizes, m: nat, nodes: Nodes, buffered: nat, n: nat)
    requires GoodSizes(sizes) && NodesOk(sizes, m, nodes) && Settled(sizes, nodes, buffered, n) && !Decodable(sizes, buffered)
    ensures forall len: nat :: DeadEnd(nodes, buffered, len) ==> len <= n
  {
    forall len: nat | DeadEnd(nodes, buffered, len) ensures len <= n {
      if n < MAX_BITS {
        var k :| 0 < k <= n && DeadEnd(nodes, buffered, k);
        DeadEndUnique(sizes, m, nodes, buffered, k, len);
      }
    }
  }

  // More bits behind a code that is buffered in full do not change the symbol.
  lemma SettledSymbol(sizes: Sizes, buffered: nat, n: nat, hi: nat)
    requires GoodSizes(sizes) && Decodable(sizes, buffered) && sizes[SymbolOf(sizes, buffered)] <= n
    ensures var x := buffered + Pow2(n) * hi; Decodable(sizes, x) && SymbolOf(sizes, x) == SymbolOf(sizes, buffered)
  {
    hide Pow2;
    var (x, s) := (buffered + Pow2(n) * hi, SymbolOf(sizes, buffered));
    FirstAddHigh(buffered, hi, n, sizes[s]);
    assert StartsWith(sizes, x, s);
    SymbolUnique(sizes, x, s, SymbolOf(sizes, x));
  }

  lemma CodeBuffered(sizes: Sizes, buffered: nat, n: nat, hi: nat, s: nat)
    requires StartsWith(sizes, buffered + Pow2(n) * hi, s) && sizes[s] <= n
    ensures StartsWith(sizes, buffered, s)
  {
    hide Pow2;
    FirstAddHigh(buffered, hi, n, sizes[s]);
  }

  // Nor do they make a symbol where the walk has come to a dead end.
  lemma SettledNoSymbol(sizes: Sizes, nodes: Nodes, buffered: nat, n: nat, hi: nat)
    requires GoodSizes(sizes) && PathsPresent(sizes, |sizes|, nodes) && Settled(sizes, nodes, buffered, n)
    requires !Decodable(sizes, buffered)
    ensures !Decodable(sizes, buffered + Pow2(n) * hi)
  {
    hide Pow2;
    hide PathsPresent;
    var x := buffered + Pow2(n) * hi;
    if Decodable(sizes, x) {
      var s := SymbolOf(sizes, x);
      if sizes[s] <= n {
        CodeBuffered(sizes, buffered, n, hi, s);
      } else {
        var k :| 0 < k <= n && DeadEnd(nodes, buffered, k);
        FirstAddHigh(buffered, hi, n, k);
        NodeAlong(sizes, nodes, x, s, k);
      }
      assert false;
    }
  }

  // Slot r holds a short code, the only code its bits start with.
  ghost predicate ShortCodeSlot(sizes: Sizes, slots: seq<int>, r: nat)
    requires |slots| == FAST_SIZE && r < FAST_SIZE
  {
    exists s: nat :: && StartsWith(sizes, r, s) && sizes[s] <= FAST_BITS && slots[r] == 512 * sizes[s] + s
                     && forall t :: StartsWith(sizes, r, t) ==> t == s
  }

  // Slot r is the root of one subtree, which no other slot shares.
  ghost predicate SubtreeSlot(nodes: Nodes, slots: seq<int>, r: nat)
    requires |slots| == FAST_SIZE && r < FAST_SIZE
  {
    && (exists k :: 0 <= k < |nodes| && slots[r] == Link(k))
    && (forall t :: 0 <= t < FAST_SIZE && slots[t] == slots[r] ==> t == r)
  }

  // Each look-up slot of a finished complete table belongs to one short code or to one subtree, never both.
  lemma SlotsPartitioned(sizes: Sizes, nodes: Nodes, slots: seq<int>, cells: seq<int>, r: nat)
    requires ValidSizes(sizes) && Complete(sizes)
    requires TrieOk(sizes, |sizes|, |sizes|, nodes, slots, cells) && r < FAST_SIZE
    ensures ShortCodeSlot(sizes, slots, r) <==> slots[r] > 0
    ensures SubtreeSlot(nodes, slots, r) <==> slots[r] < 0
    ensures slots[r] != 0
  {
    hide TrieOk;
    SymbolExists(sizes, r);
    var s: nat :| StartsWith(sizes, r, s);
    assert r % FAST_SIZE == r;
    SlotRead(sizes, nodes, slots, cells, r);
    SymbolUnique(sizes, r, s, SymbolOf(sizes, r));
    if slots[r] > 0 {
      LeafSlot(sizes, nodes, slots, r, s);
    } else {
      RootSlot(sizes, nodes, slots, cells, r);
    }
  }

  lemma LeafSlot(sizes: Sizes, nodes: Nodes, slots: seq<int>, r: nat, s: nat)
    requires ValidSizes(sizes) && Complete(sizes) && |slots| == FAST_SIZE && r < FAST_SIZE
    requires StartsWith(sizes, r, s) && sizes[s] <= FAST_BITS && slots[r] == 512 * sizes[s] + s
    ensures ShortCodeSlot(sizes, slots, r) && !SubtreeSlot(nodes, slots, r) && slots[r] > 0
  {
    forall t | StartsWith(sizes, r, t) ensures t == s {
      SymbolUnique(sizes, r, s, t);
    }
  }

  lemma RootSlot(sizes: Sizes, nodes: Nodes, slots: seq<int>, cells: seq<int>, r: nat)
    requires TrieOk(sizes, |sizes|, |sizes|, nodes, slots, cells)
    requires r < FAST_SIZE && slots[r] < 0
    ensures SubtreeSlot(nodes, slots, r) && !ShortCodeSlot(sizes, slots, r)
  {
    var p := Pos(FAST_BITS, First(r, FAST_BITS));
    assert p in nodes && slots[r] == Link(nodes[p]);
    forall t | 0 <= t < FAST_SIZE && slots[t] == slots[r] ensures t == r {
      assert Pos(FAST_BITS, First(t, FAST_BITS)) in nodes;
      SlotsDiffer(r, t);
    }
  }
}
