// A string column: a tail of heap offsets, one, two, four or eight bytes wide, that is widened in
// place when an offset no longer fits.
module StringColumn {
  import opened Arithmetic
  import opened Bits
  import opened Bytes
  import opened HeapLayout
  import opened StringHeap

  const VAR_OFFSET: nat := HASH_SIZE

  predicate Width(w: nat) {
    w == 1 || w == 2 || w == 4 || w == 8
  }

  // Narrow tails store offsets relative to the end of the bucket table.
  function Encode(d: nat, w: nat): nat
    requires d >= VAR_OFFSET
  {
    if w <= 2 then d - VAR_OFFSET else d
  }

  function Decode(x: nat, w: nat): nat {
    if w <= 2 then x + VAR_OFFSET else x
  }

  predicate Fits(d: nat, w: nat)
    requires d >= VAR_OFFSET
  {
    Encode(d, w) < Pow2(8 * w)
  }

  // The value of cell i of a tail of width w.
  function Cell(tail: seq<byte>, i: nat, w: nat): nat
    requires (i + 1) * w <= |tail|
  {
    LittleEndian(tail[i * w..(i + 1) * w])
  }

  // VarHeapValRaw: the heap offset that cell i stands for.
  function Raw(tail: seq<byte>, i: nat, w: nat): nat
    requires (i + 1) * w <= |tail|
  {
    Decode(Cell(tail, i, w), w)
  }

  function Put(tail: seq<byte>, i: nat, w: nat, x: nat): (r: seq<byte>)
    requires (i + 1) * w <= |tail|
    ensures |r| == |tail|
    ensures forall j :: 0 <= j < |tail| && !(i * w <= j < (i + 1) * w) ==> r[j] == tail[j]
  {
    Next(i, w);
    Write(tail, i * w, LeBytes(x, w))
  }

  lemma Next(i: nat, w: nat)
    ensures (i + 1) * w == i * w + w
  {
  }

  lemma PutCell(tail: seq<byte>, i: nat, w: nat, x: nat)
    requires (i + 1) * w <= |tail| && x < Pow2(8 * w)
    ensures Cell(Put(tail, i, w, x), i, w) == x
  {
    Next(i, w);
    StoreLoad(x, w);
  }

  // Cells do not overlap.
  lemma OtherCell(tail: seq<byte>, i: nat, j: nat, w: nat, x: nat)
    requires (i + 1) * w <= |tail| && (j + 1) * w <= |tail| && i != j
    ensures Cell(Put(tail, i, w, x), j, w) == Cell(tail, j, w)
  {
    Next(j, w);
    if i < j {
      MulLe(i + 1, j, w);
    } else {
      MulLe(j + 1, i, w);
    }
    assert Put(tail, i, w, x)[j * w..(j + 1) * w] == tail[j * w..(j + 1) * w];
  }

  // Writing cell i of the wide layout leaves the narrow cells before i alone.
  lemma NarrowCellKept(tail: seq<byte>, i: nat, j: nat, w: nat, w': nat, x: nat)
    requires (i + 1) * w' <= |tail| && j < i && w <= w'
    ensures (j + 1) * w <= |tail| && Cell(Put(tail, i, w', x), j, w) == Cell(tail, j, w)
  {
    Next(j, w);
    MulLe(j + 1, i, w);
    MulWiden(i, w, w');
    MulWiden(i + 1, w, w');
    Next(i, w');
    assert Put(tail, i, w', x)[j * w..(j + 1) * w] == tail[j * w..(j + 1) * w];
  }

  lemma MulWiden(i: nat, w: nat, w': nat)
    requires w <= w'
    ensures i * w <= i * w'
  {
  }

  lemma CellBound(tail: seq<byte>, i: nat, w: nat)
    requires (i + 1) * w <= |tail|
    ensures Cell(tail, i, w) < Pow2(8 * w)
  {
    Next(i, w);
    LittleEndianBound(tail[i * w..(i + 1) * w]);
  }

  // What a cell becomes when it is widened.
  function Converted(x: nat, w: nat, w': nat): nat {
    if w <= 2 && w' > 2 then x + VAR_OFFSET else x
  }

  lemma ConvertedFits(x: nat, w: nat, w': nat)
    requires Width(w) && Width(w') && w < w' && x < Pow2(8 * w)
    ensures Converted(x, w, w') < Pow2(8 * w') && Decode(Converted(x, w, w'), w') == Decode(x, w)
  {
    Powers();
  }

  lemma Powers()
    ensures Pow2(8) == 256 && Pow2(16) == 65536 && Pow2(32) == 0x1_0000_0000 && Pow2(64) == 0x1_0000_0000_0000_0000
  {
    Pow2Byte(0);
    Pow2Byte(8);
    Pow2Byte(16);
    Pow2Byte(24);
    Pow2Of64();
  }

  // GDKupgradevarheap: the smallest wider width that holds v.
  method WidthFor(v: nat, w: nat) returns (w': nat)
    requires Width(w) && v >= VAR_OFFSET && v < Pow2(64)
    ensures Width(w') && w' >= w && Fits(v, w')
    ensures forall u: nat :: Width(u) && w <= u < w' ==> !Fits(v, u)
  {
    w' := w;
    while w' < 8 && Encode(v, w') >= Pow2(8 * w')
      invariant Width(w') && w <= w'
      invariant forall u: nat :: Width(u) && w <= u < w' ==> !Fits(v, u)
      decreases 8 - w'
    {
      w' := w' * 2;
    }
  }

  predicate InRange(i: nat, w: nat, size: nat) {
    (i + 1) * w <= size
  }

  lemma RangeOf(i: nat, n: nat, w: nat, size: nat)
    requires i < n && n * w <= size
    ensures InRange(i, w, size)
  {
    MulLe(i + 1, n, w);
  }

  // Cells from i on have been widened, cells before i have not.
  ghost predicate HalfWidened(tail: seq<byte>, r: seq<byte>, n: nat, w: nat, w': nat, i: nat) {
    && |r| == |tail|
    && (forall j: nat :: j < i && InRange(j, w, |tail|) ==> Cell(r, j, w) == Cell(tail, j, w))
    && (forall j: nat :: i <= j < n && InRange(j, w, |tail|) && InRange(j, w', |tail|) ==> Raw(r, j, w') == Raw(tail, j, w))
  }

  lemma WidenStep(tail: seq<byte>, r: seq<byte>, n: nat, w: nat, w': nat, i: nat)
    requires Width(w) && Width(w') && w < w' && i < n && InRange(i, w, |tail|) && InRange(i, w', |tail|)
    requires HalfWidened(tail, r, n, w, w', i + 1)
    ensures HalfWidened(tail, Put(r, i, w', Converted(Cell(r, i, w), w, w')), n, w, w', i)
  {
    hide Cell;
    hide Put;
    var y := Converted(Cell(r, i, w), w, w');
    var r' := Put(r, i, w', y);
    CellBound(r, i, w);
    ConvertedFits(Cell(r, i, w), w, w');
    PutCell(r, i, w', y);
    PutLength(r, i, w', y);
    forall j: nat | j < i && InRange(j, w, |tail|) ensures Cell(r', j, w) == Cell(tail, j, w) {
      NarrowCellKept(r, i, j, w, w', y);
    }
    forall j: nat | i <= j < n && InRange(j, w, |tail|) && InRange(j, w', |tail|) ensures Raw(r', j, w') == Raw(tail, j, w) {
      if j > i {
        OtherCell(r, i, j, w', y);
      }
    }
  }

  lemma PutLength(tail: seq<byte>, i: nat, w: nat, x: nat)
    requires (i + 1) * w <= |tail|
    ensures |Put(tail, i, w, x)| == |tail|
  {
  }

  // Converts n cells from width w to w', back to front, in the memory they already occupy.
  method Widen(tail: seq<byte>, n: nat, w: nat, w': nat) returns (r: seq<byte>)
    requires Width(w) && Width(w') && w < w' && n * w' == |tail|
    ensures |r| == |tail|
    ensures forall i: nat :: i < n ==> InRange(i, w, |tail|) && InRange(i, w', |tail|) && Raw(r, i, w') == Raw(tail, i, w)
  {
    hide Cell;
    hide Put;
    hide Raw;
    r := tail;
    var i := n;
    MulWiden(n, w, w');
    while i > 0
      invariant 0 <= i <= n && |r| == |tail| && HalfWidened(tail, r, n, w, w', i)
    {
      i := i - 1;
      RangeOf(i, n, w, |tail|);
      RangeOf(i, n, w', |tail|);
      WidenStep(tail, r, n, w, w', i);
      PutLength(r, i, w', Converted(Cell(r, i, w), w, w'));
      r := Put(r, i, w', Converted(Cell(r, i, w), w, w'));
    }
    forall i: nat | i < n ensures InRange(i, w, |tail|) && InRange(i, w', |tail|) && Raw(r, i, w') == Raw(tail, i, w) {
      RangeOf(i, n, w, |tail|);
      RangeOf(i, n, w', |tail|);
    }
  }

  class Column {
    const heap: Heap
    var tail: seq<byte>
    var width: nat
    var count: nat
    // the strings appended so far
    ghost var vs: seq<seq<byte>>

    ghost predicate Valid()
      reads this, heap
    {
      && heap.Valid() && Width(width) && |tail| == count * width && |vs| == count
      && (forall i: nat :: i < count ==> InRange(i, width, |tail|) && Denotes(heap.base, heap.free, Raw(tail, i, width), vs[i]))
    }

    constructor (h: Heap)
      requires h.Valid()
      ensures Valid() && heap == h && vs == []
    {
      heap := h;
      tail, width, count, vs := [], 1, 0, [];
    }

    // VarHeapValRaw: the offset at position i holds the i-th string appended.
    method Read(i: nat) returns (offset: nat)
      requires Valid() && i < count
      ensures Denotes(heap.base, heap.free, offset, vs[i])
    {
      offset := Raw(tail, i, width);
    }

    // GDKupgradevarheap for an offset that does not fit.
    method Upgrade(d: nat)
      requires Valid() && VAR_OFFSET <= d < Pow2(64)
      modifies this`tail, this`width
      ensures Valid() && width >= old(width) && Fits(d, width)
    {
      hide Raw;
      hide Denotes;
      hide Pow2;
      hide Heap.Valid;
      var w' := WidthFor(d, width);
      if w' > width {
        MulWiden(count, width, w');
        ghost var was := tail;
        var larger := tail + seq(count * w' - |tail|, i => 0);
        KeepCells(was, larger, count, width);
        var r := Widen(larger, count, width, w');
        tail, width := r, w';
      }
    }

    lemma KeepCells(a: seq<byte>, b: seq<byte>, n: nat, w: nat)
      requires a <= b && |a| == n * w
      ensures forall i: nat :: i < n ==> InRange(i, w, |a|) && InRange(i, w, |b|) && Raw(b, i, w) == Raw(a, i, w)
    {
      forall i: nat | i < n ensures InRange(i, w, |a|) && InRange(i, w, |b|) && Raw(b, i, w) == Raw(a, i, w) {
        RangeOf(i, n, w, |a|);
        CellKept(a, b, i, w);
      }
    }

    // Tputvalue at the end of the column: enter the string, widen if its offset asks for it, store.
    method Append(v: seq<byte>) returns (ok: bool)
      requires Valid() && Proper(v)
      modifies this`tail, this`width, this`count, this`vs, heap`base, heap`free, heap`es, heap`heads
      ensures Valid() && vs == if ok then old(vs) + [v] else old(vs)
      ensures !ok ==> heap.Overfull(v)
    {
      hide Raw;
      hide Denotes;
      hide Heap.Valid;
      hide Pow2;
      ghost var base0, free0 := heap.base, heap.free;
      var d;
      ok, d := heap.Put(v);
      heap.FreeInside();
      forall i: nat | i < count ensures Denotes(heap.base, heap.free, Raw(tail, i, width), vs[i]) {
        DenotesFrame(base0, free0, heap.base, heap.free, Raw(tail, i, width), vs[i]);
      }
      if !ok {
        return;
      }
      OffsetRange(d, v);
      assert width < 8 ==> (Fits(d, width) <==> Encode(d, width) < Pow2(8 * width));
      if width < 8 && Encode(d, width) >= Pow2(8 * width) {
        Upgrade(d);
      }
      StoreAtEnd(d, v);
    }

    lemma WideEnough(d: nat, w: nat)
      requires Width(w) && VAR_OFFSET <= d < Pow2(64) && (w < 8 ==> Fits(d, w))
      ensures Fits(d, w)
    {
    }

    lemma OffsetRange(d: nat, v: seq<byte>)
      requires heap.Valid() && Denotes(heap.base, heap.free, d, v)
      ensures VAR_OFFSET <= d < Pow2(64)
    {
      Powers();
    }

    method StoreAtEnd(d: nat, ghost v: seq<byte>)
      requires Valid() && VAR_OFFSET <= d < Pow2(64) && (width < 8 ==> Fits(d, width))
      requires Denotes(heap.base, heap.free, d, v)
      modifies this`tail, this`count, this`vs
      ensures Valid() && vs == old(vs) + [v]
    {
      hide Denotes;
      hide Raw;
      hide Put;
      hide Cell;
      hide Pow2;
      hide Heap.Valid;
      WideEnough(d, width);
      Next(count, width);
      Appended(tail, count, width, d);
      tail := Put(tail + seq(width, i => 0), count, width, Encode(d, width));
      vs := vs + [v];
      count := count + 1;
    }
  }

  // One more cell at the end of a tail: the new cell stands for d, the others for what they did.
  lemma Appended(tail: seq<byte>, n: nat, w: nat, d: nat)
    requires Width(w) && |tail| == n * w && VAR_OFFSET <= d && Fits(d, w)
    ensures InRange(n, w, |tail| + w)
    ensures var r := Put(tail + seq(w, i => 0), n, w, Encode(d, w));
            && |r| == (n + 1) * w && Raw(r, n, w) == d
            && (forall i: nat :: i < n ==> InRange(i, w, |r|) && InRange(i, w, |tail|) && Raw(r, i, w) == Raw(tail, i, w))
  {
    hide Put;
    hide Cell;
    Next(n, w);
    var larger := tail + seq(w, i => 0);
    var r := Put(larger, n, w, Encode(d, w));
    PutLength(larger, n, w, Encode(d, w));
    PutCell(larger, n, w, Encode(d, w));
    forall i: nat | i < n ensures InRange(i, w, |r|) && InRange(i, w, |tail|) && Raw(r, i, w) == Raw(tail, i, w) {
      RangeOf(i, n, w, |tail|);
      RangeOf(i, n + 1, w, |r|);
      OtherCell(larger, n, i, w, Encode(d, w));
      CellKept(tail, larger, i, w);
    }
  }

  lemma CellKept(a: seq<byte>, b: seq<byte>, i: nat, w: nat)
    requires a <= b && InRange(i, w, |a|)
    ensures InRange(i, w, |b|) && Cell(b, i, w) == Cell(a, i, w)
  {
    Next(i, w);
    assert a[i * w..(i + 1) * w] == b[i * w..(i + 1) * w];
  }
}
