// Why the tree array is large enough: a complete code with n symbols has n - 1 inner
// nodes, so the nodes below depth ten are at most 287 and fit 576 cells.
module HuffmanRoom {
  import opened Bits
  import opened HuffmanCode
  import opened HuffmanTrie

  // How many strings of length d are proper prefixes of codes.
  function Open(sizes: Sizes, d: nat): int {
    if d == 0 then 1 else Pow2(d) - Covered(sizes, d)
  }

  function OpenUpTo(sizes: Sizes, d: nat): int {
    if d == 0 then Open(sizes, 0) else OpenUpTo(sizes, d - 1) + Open(sizes, d)
  }

  lemma {:induction false} InnerNodesPerLeaf(sizes: Sizes, d: nat)
    ensures OpenUpTo(sizes, d) == UsedUpTo(sizes, d + 1) + Open(sizes, d + 1) - 1
  {
    if d == 0 {
      assert UsedUpTo(sizes, 1) == UsedUpTo(sizes, 0) + Count(sizes, 1);
      assert Pow2(1) == 2;
    } else {
      InnerNodesPerLeaf(sizes, d - 1);
    }
  }

  // ---- at most one leaf per symbol ----

  function CountUpTo(sizes: Sizes, n: nat, len: nat): (c: nat)
    requires n <= |sizes|
    ensures c <= n
  {
    if n == 0 then 0 else CountUpTo(sizes, n - 1, len) + (if 0 < sizes[n - 1] <= len then 1 else 0)
  }

  lemma {:induction false} CountUpToStep(sizes: Sizes, n: nat, len: nat)
    requires n <= |sizes| && len > 0
    ensures CountUpTo(sizes, n, len) == CountUpTo(sizes, n, len - 1) + CountBelow(sizes, n, len)
  {
    if n == 0 {
    } else {
      CountUpToStep(sizes, n - 1, len);
    }
  }

  lemma {:induction false} CountUpToNone(sizes: Sizes, n: nat)
    requires n <= |sizes|
    ensures CountUpTo(sizes, n, 0) == 0
  {
    if n == 0 {
    } else {
      CountUpToNone(sizes, n - 1);
    }
  }

  lemma {:induction false} UsedIsCounted(sizes: Sizes, len: nat)
    ensures UsedUpTo(sizes, len) == CountUpTo(sizes, |sizes|, len)
  {
    if len == 0 {
      CountUpToNone(sizes, |sizes|);
    } else {
      UsedIsCounted(sizes, len - 1);
      CountUpToStep(sizes, |sizes|, len);
    }
  }

  // ---- nodes are open positions ----

  lemma NodeIsOpen(sizes: Sizes, m: nat, p: Pos)
    requires GoodSizes(sizes) && m <= |sizes| && Led(sizes, m, p) && p.depth > 0
    ensures p.depth < MAX_BITS && Covered(sizes, p.depth) <= p.bits < Pow2(p.depth)
  {
    var s :| 0 <= s < m && Leads(sizes, s, p);
    var c := Code(sizes, s);
    CodeFits(sizes, s);
    CoveredGrows(sizes, p.depth, sizes[s]);
    ShrAtLeast(c, sizes[s] - p.depth, Covered(sizes, p.depth));
    ShrBound(c, sizes[s] - p.depth, p.depth);
  }

  ghost predicate Between(ps: set<Pos>, d: nat, lo: int, hi: int) {
    forall p :: p in ps ==> p.depth == d && lo <= p.bits < hi
  }

  lemma {:induction false} IntervalSize(ps: set<Pos>, d: nat, lo: int, hi: int)
    requires lo <= hi && Between(ps, d, lo, hi)
    ensures |ps| <= hi - lo
    decreases hi - lo
  {
    if lo == hi {
      assert ps == {};
    } else if hi - 1 >= 0 && Pos(d, hi - 1) in ps {
      IntervalSize(ps - {Pos(d, hi - 1)}, d, lo, hi - 1);
    } else {
      IntervalSize(ps, d, lo, hi - 1);
    }
  }

  ghost predicate OpenFrom(sizes: Sizes, ps: set<Pos>, d: nat) {
    forall p :: p in ps ==> 0 < d <= p.depth < MAX_BITS && Covered(sizes, p.depth) <= p.bits < Pow2(p.depth)
  }

  lemma {:induction false} OpenSize(sizes: Sizes, ps: set<Pos>, d: nat)
    requires GoodSizes(sizes) && 0 < d <= MAX_BITS && OpenFrom(sizes, ps, d)
    ensures |ps| <= OpenUpTo(sizes, MAX_BITS - 1) - OpenUpTo(sizes, d - 1)
    decreases MAX_BITS - d
  {
    hide NextCode;
    hide CountBelow;
    if d == MAX_BITS {
      assert ps == {};
    } else {
      hide OpenFrom;
      hide Pow2;
      hide Covered;
      var here, deeper := AtDepth(sizes, ps, d);
      CoveredFits(sizes, d);
      IntervalSize(here, d, Covered(sizes, d), Pow2(d));
      OpenSize(sizes, deeper, d + 1);
    }
  }

  lemma AtDepth(sizes: Sizes, ps: set<Pos>, d: nat) returns (here: set<Pos>, deeper: set<Pos>)
    requires GoodSizes(sizes) && 0 < d < MAX_BITS && OpenFrom(sizes, ps, d)
    ensures |ps| == |here| + |deeper| && OpenFrom(sizes, deeper, d + 1)
    ensures forall p :: p in here ==> p.depth == d && Covered(sizes, d) <= p.bits < Pow2(d)
  {
    hide Covered;
    hide Pow2;
    here := set p | p in ps && p.depth == d;
    deeper := ps - here;
    assert ps == here + deeper && here !! deeper;
  }

  lemma {:induction false} OpenUpToNonNegative(sizes: Sizes, d: nat)
    requires GoodSizes(sizes) && d <= MAX_BITS
    ensures OpenUpTo(sizes, d) >= 0
  {
    if d == 0 {
    } else {
      OpenUpToNonNegative(sizes, d - 1);
      CoveredFits(sizes, d);
    }
  }

  lemma Pow2OfMaxBits()
    ensures Pow2(MAX_BITS) == 32768
  {
    assert Pow2(15) == 32768;
  }

  // There is always room for one more node.
  lemma RoomForNode(sizes: Sizes, m: nat, nodes: Nodes)
    requires ValidSizes(sizes) && Complete(sizes)
    requires m <= |sizes| && NodesOk(sizes, m, nodes)
    ensures 2 * |nodes| + 2 <= TREE_SIZE
  {
    hide NextCode;
    hide CountBelow;
    hide Pow2;
    hide OpenUpTo;
    hide Leads;
    forall p | p in nodes.Keys
      ensures FAST_BITS <= p.depth < MAX_BITS && Covered(sizes, p.depth) <= p.bits < Pow2(p.depth)
    {
      NodeIsOpen(sizes, m, p);
    }
    OpenSize(sizes, nodes.Keys, FAST_BITS);
    OpenUpToNonNegative(sizes, FAST_BITS - 1);
    InnerNodesPerLeaf(sizes, MAX_BITS - 1);
    UsedIsCounted(sizes, MAX_BITS);
    Pow2OfMaxBits();
    assert |nodes.Keys| == |nodes|;
  }
}
