// Entering strings into a heap, finding them again, and rebuilding the bucket table by a scan.
module StringHeap {
  import opened Arithmetic
  import opened Bits
  import opened Bytes
  import opened HeapLayout

  const VAR_MAX: nat := 0x7FFF_FFFF_FFFF_FFFF
  const BATTINY: nat := 256
  const SIZE_MAX: nat := 0x1_0000_0000_0000_0000

  // Strings entered while the heap was small are entered once.
  ghost predicate SmallOnce(es: seq<Entry>) {
    forall i, j :: 0 <= i < j < |es| && es[j].small ==> es[i].v != es[j].v
  }

  ghost predicate Contains(es: seq<Entry>, v: seq<byte>) {
    exists i :: 0 <= i < |es| && es[i].v == v
  }

  // The entries hold the strings of es0, the added ones and no others.
  ghost predicate Gained(es0: seq<Entry>, es: seq<Entry>, added: seq<seq<byte>>) {
    forall v :: Contains(es, v) <==> Contains(es0, v) || v in added
  }

  lemma GainedNext(es0: seq<Entry>, es1: seq<Entry>, es: seq<Entry>, vs: seq<seq<byte>>, n: nat)
    requires n < |vs| && Gained(es0, es1, vs[..n])
    requires if Contains(es1, vs[n]) then es == es1 else |es| == |es1| + 1 && es[..|es1|] == es1 && es[|es1|].v == vs[n]
    ensures Gained(es0, es, vs[..n + 1])
  {
    assert vs[..n + 1] == vs[..n] + [vs[n]];
    forall v ensures Contains(es, v) <==> Contains(es1, v) || v == vs[n] {
      if Contains(es1, v) {
        var i :| 0 <= i < |es1| && es1[i].v == v;
        assert es[i].v == v;
      }
      if es != es1 && Contains(es, v) {
        var i :| 0 <= i < |es| && es[i].v == v;
        assert i < |es1| ==> es1[i] == es[i];
      }
    }
  }

  // No string of bucket b with an index above k, up to i, is v.
  ghost predicate NotAbove(es: seq<Entry>, hash: Hash, v: seq<byte>, k: int, i: int) {
    forall j :: 0 <= j < |es| && k < j <= i && Bucket(hash, es[j].v) == Bucket(hash, v) ==> es[j].v != v
  }

  lemma NotInBucket(es: seq<Entry>, hash: Hash, v: seq<byte>, i: int)
    requires i == LastIn(es, |es|, hash, Bucket(hash, v)) && NotAbove(es, hash, v, -1, i)
    ensures !Contains(es, v)
  {
  }

  lemma SmallOnceMore(es: seq<Entry>, e: Entry)
    requires SmallOnce(es)
    ensures (e.small ==> !Contains(es, e.v)) ==> SmallOnce(es + [e])
  {
  }

  class Heap {
    var base: seq<byte>
    var free: nat
    const hashash: bool
    const hash: Hash
    // the strings entered so far, and the entry each bucket points to (-1 for none)
    ghost var es: seq<Entry>
    ghost var heads: seq<int>

    function Extra(): nat {
      if hashash then WORD else 0
    }

    ghost predicate Valid()
      reads this
    {
      && Body(base, free, es, Extra(), hash) && Table(base, es, heads, hash) && SmallOnce(es)
      && |base| < SIZE_MAX
      && (free < ELIM_LIMIT ==> HeadsAt(es, heads, |es|, hash))
    }

    // Every bucket points to its last string: always while small, and until a rebuild of a large heap.
    ghost predicate Complete()
      reads this
    {
      HeadsAt(es, heads, |es|, hash)
    }

    constructor (cap: nat, keepHash: bool, h: Hash)
      ensures Valid() && Complete() && es == [] && free == HASH_SIZE && hashash == keepHash && hash == h
    {
      var size := HASH_SIZE + Min(ELIM_LIMIT, Max(cap, BATTINY) * WORD);
      base := seq(size, i => 0);
      free := HASH_SIZE;
      hashash, hash := keepHash, h;
      es, heads := [], seq(BUCKETS, b => -1);
      new;
      ZeroTable(base, heads, hash);
    }

    // What a step along a collision list finds at entry k.
    lemma ListStep(k: int, v: seq<byte>)
      requires Valid() && Proper(v) && 0 <= k < |es| && es[k].small && Bucket(hash, es[k].v) == Bucket(hash, v)
      ensures HASH_SIZE <= es[k].link && es[k].link + WORD <= |base| && es[k].str == es[k].link + WORD + Extra()
      ensures Same(base, es[k].str, v) <==> v == es[k].v
      ensures var p := LastIn(es, k, hash, Bucket(hash, v));
              Load(base, es[k].link) == LinkOf(es, p) && (p >= 0 ==> es[p].small)
    {
      EntryRange(es, Extra(), k);
      assert Written(base, es[k], Extra(), hash) && Linked(base, es, k, hash);
      SameIsEqual(base, es[k], Extra(), hash, v);
      var p := LastIn(es, k, hash, Bucket(hash, v));
      if p >= 0 {
        LinksIncrease(es, Extra(), p, k);
      }
    }

    // Follows a collision list, starting at the link of entry i, comparing as it goes.
    method SearchList(first: nat, v: seq<byte>, ghost i: int) returns (pos: nat)
      requires Valid() && Proper(v) && -1 <= i < |es| && first == LinkOf(es, i)
      requires i >= 0 ==> es[i].small && Bucket(hash, es[i].v) == Bucket(hash, v)
      ensures pos != 0 ==> exists k :: 0 <= k <= i && es[k].str == pos && es[k].v == v
      ensures pos == 0 ==> NotAbove(es, hash, v, -1, i)
      ensures i >= 0 && es[i].v == v ==> pos == es[i].str
    {
      hide Valid;
      hide Load;
      hide Same;
      var ref := first;
      ghost var k := i;
      while ref != 0
        invariant -1 <= k <= i && ref == LinkOf(es, k)
        invariant k >= 0 ==> es[k].small && Bucket(hash, es[k].v) == Bucket(hash, v)
        invariant NotAbove(es, hash, v, k, i)
        decreases k
      {
        ListStep(k, v);
        pos := ref + WORD + Extra();
        if Same(base, pos, v) {
          return;
        }
        ref := Load(base, ref);
        k := LastIn(es, k, hash, Bucket(hash, v));
      }
      if k >= 0 {
        ListStep(k, v);
      }
      pos := 0;
    }

    // The location of a string, zero if it was never entered; only asked of small heaps.
    method Locate(v: seq<byte>) returns (pos: nat)
      requires Valid() && Proper(v) && free < ELIM_LIMIT
      ensures pos == 0 <==> !Contains(es, v)
      ensures pos != 0 ==> exists k :: 0 <= k < |es| && es[k].str == pos && es[k].v == v
    {
      var off := Bucket(hash, v);
      ghost var i := heads[off];
      HeadFacts(off);
      pos := SearchList(Load(base, WORD * off), v, i);
      if pos == 0 {
        NotInBucket(es, hash, v, i);
      } else {
        ghost var k :| 0 <= k <= i && es[k].str == pos && es[k].v == v;
        EntryRange(es, Extra(), k);
      }
    }

    // What a bucket cell says about the entry it points to.
    lemma HeadFacts(off: nat)
      requires Valid() && off < BUCKETS
      ensures WORD * off + WORD <= |base|
      ensures var i := heads[off];
              && -1 <= i < |es| && Load(base, WORD * off) == LinkOf(es, i)
              && (i >= 0 ==> Bucket(hash, es[i].v) == off && es[i].link >= HASH_SIZE && (free < ELIM_LIMIT ==> es[i].link < ELIM_LIMIT))
              && (i >= 0 && es[i].link < ELIM_LIMIT ==> es[i].small)
              && (i >= 0 ==> es[i].link + Extra() <= es[i].str + |es[i].v| < free <= |base| && base[es[i].str + |es[i].v|] == 0)
    {
      var i := heads[off];
      if i >= 0 {
        EntryRange(es, Extra(), i);
        assert Written(base, es[i], Extra(), hash);
      }
    }

    // The bucket of v points to v itself, in a way that is recognised: not by the one link cell that
    // lies exactly at the limit.
    ghost predicate AtHead(v: seq<byte>)
      requires |heads| == BUCKETS
      reads this
    {
      var i := heads[Bucket(hash, v)];
      0 <= i < |es| && es[i].v == v && (es[i].small ==> es[i].link < ELIM_LIMIT)
    }

    lemma HeadString(v: seq<byte>)
      requires Valid() && Proper(v) && AtHead(v)
      ensures var i := heads[Bucket(hash, v)];
              es[i].str != 0 && (!es[i].small ==> es[i].link >= ELIM_LIMIT && es[i].link + Extra() == es[i].str && Same(base, es[i].str, v))
    {
      var i := heads[Bucket(hash, v)];
      EntryRange(es, Extra(), i);
      assert Written(base, es[i], Extra(), hash);
      SameIsEqual(base, es[i], Extra(), hash, v);
    }

    // The first half of strPut: look in the bucket before entering anything.
    method FindBeforePut(v: seq<byte>) returns (pos: nat)
      requires Valid() && Proper(v)
      ensures pos != 0 ==> Denotes(base, free, pos, v)
      ensures pos == 0 && free < ELIM_LIMIT ==> !Contains(es, v)
      ensures pos != 0 && free < ELIM_LIMIT ==> exists k :: 0 <= k < |es| && es[k].str == pos && es[k].v == v
      ensures AtHead(v) ==> pos == es[heads[Bucket(hash, v)]].str && pos != 0
    {
      hide LittleEndian;
      hide Same;
      var off := Bucket(hash, v);
      var cell := Load(base, WORD * off);
      ghost var i := heads[off];
      HeadFacts(off);
      if AtHead(v) {
        HeadString(v);
      }
      pos := 0;
      if cell != 0 {
        if cell < ELIM_LIMIT {
          pos := SearchList(cell, v, i);
          if pos != 0 {
            ghost var k :| 0 <= k <= i && es[k].str == pos && es[k].v == v;
            EntryDenotes(base, free, es, Extra(), hash, k);
          }
        } else {
          pos := cell + Extra();
          if Same(base, pos, v) {
            SameBeforeEnd(base, free, pos, es[i].str + |es[i].v|, v);
          } else {
            pos := 0;
          }
        }
      }
      if pos == 0 && free < ELIM_LIMIT && i == LastIn(es, |es|, hash, off) {
        NotInBucket(es, hash, v, i);
      }
    }

    // Makes room for one more string by doubling, later by steps of 4 MiB.
    method Extend(needed: nat)
      requires Valid() && free <= needed && |base| <= needed < VAR_MAX
      modifies this`base
      ensures Valid() && needed < |base| && |old(base)| <= |base|
      ensures SameBytes(old(base), base, 0, |old(base)|)
    {
      var newsize := Max(|base|, 4096);
      while true
        invariant |base| <= newsize && 4096 <= newsize <= needed
        decreases needed + 1 - newsize
      {
        if newsize < 4 * 1024 * 1024 {
          newsize := newsize * 2;
        } else {
          newsize := newsize + 4 * 1024 * 1024;
        }
        if newsize > needed {
          break;
        }
      }
      assert |seq(newsize - |base|, i => 0 as byte)| == newsize - |base|;
      var added: seq<byte> :| |added| == newsize - |base|;
      ghost var was := base;
      base := base + added;
      BodyFrame(was, base, free, es, Extra(), hash);
      TableFrame(was, base, es, heads, hash);
    }

    lemma StringsPlaced(base: seq<byte>, free: nat, es: seq<Entry>, extra: nat, hash: Hash)
      requires Body(base, free, es, extra, hash)
      ensures Placed(es, extra)
    {
    }

    lemma Shapes(b: nat)
      requires Valid() && b < BUCKETS
      ensures HASH_SIZE <= |base| && |heads| == BUCKETS && free == EndOf(es, |es|) <= |base| && Placed(es, Extra())
      ensures HeadsAt(es, heads, |es|, hash) ==> heads[b] == LastIn(es, |es|, hash, b)
    {
    }

    // Writes a string that is not to be shared, and makes it the head of its bucket.
    method Enter(v: seq<byte>) returns (pos: nat)
      requires Valid() && Proper(v)
      requires Place(free, Extra(), v).str + |v| + 1 < |base|
      requires free < ELIM_LIMIT ==> !Contains(es, v)
      modifies this`base, this`free, this`es, this`heads
      ensures Valid() && es == old(es) + [Place(old(free), Extra(), v)] && pos == Place(old(free), Extra(), v).str
      ensures SameBytes(old(base), base, HASH_SIZE, old(free)) && old(free) < free
      ensures old(Complete()) ==> Complete()
    {
      hide LittleEndian;
      hide Body;
      hide Table;
      hide HeadsAt;
      hide SameBytes;
      hide Inserted;
      hide Place;
      hide SmallOnce;
      hide Contains;
      hide LastIn;
      hide Load;
      Shapes(Bucket(hash, v));
      ghost var e := Place(free, Extra(), v);
      SmallOnceMore(es, e);
      PlacedSame(e, free, Extra(), v);
      PlaceBounds(free, Extra(), v);
      PlaceBehind(es, Extra(), v);
      var off := Bucket(hash, v);
      var cell := Load(base, WORD * off);
      CellIsWord(base, WORD * off);
      var pos', link := CellsOf(v);
      pos := pos';
      InsertedOk(base, free, es, heads, Extra(), hash, e, cell);
      if HeadsAt(es, heads, |es|, hash) {
        HeadsAppend(es, heads, hash, e);
      }
      WriteCells(pos, link, off, cell, v);
      heads := heads[off := |es|];
      es := es + [e];
      free := pos + |v| + 1;
      StringsPlaced(base, free, es, Extra(), hash);
      EndMonotone(es, Extra(), |es| - 1, |es|);
    }

    // memcpy of the string, the hash word, the link cell of a small heap, and the bucket.
    method WriteCells(pos: nat, link: nat, off: nat, cell: word, v: seq<byte>)
      requires link < 0x1_0000_0000_0000_0000 && off == Bucket(hash, v) && |base| >= HASH_SIZE
      requires pos + |v| + 1 <= |base| && (free < ELIM_LIMIT ==> link + WORD <= |base|) && (hashash ==> WORD <= pos)
      modifies this`base
      ensures base == Inserted(old(base), Entry(link, pos, v, free < ELIM_LIMIT), Extra(), hash, cell)
    {
      hide Store;
      hide Write;
      base := Write(base, pos, v + [0]);
      if hashash {
        base := Store(base, pos - WORD, hash(v));
      }
      if free < ELIM_LIMIT {
        base := Store(base, link, cell);
      }
      base := Store(base, WORD * off, link);
    }

    // Another string v would take the heap beyond the largest offset.
    ghost predicate Overfull(v: seq<byte>)
      reads this
    {
      Place(free, Extra(), v).str + |v| + 1 >= VAR_MAX
    }

    // strPut: the location of v, entering it unless the bucket leads to it.  Every location ever
    // returned keeps its string.  A small heap never holds a string twice.
    method Put(v: seq<byte>) returns (ok: bool, pos: nat)
      requires Valid() && Proper(v)
      modifies this`base, this`free, this`es, this`heads
      ensures Valid() && old(free) <= free
      ensures ok ==> Denotes(base, free, pos, v)
      ensures ok ==> es == old(es) || es == old(es) + [Place(old(free), Extra(), v)]
      ensures !ok ==> es == old(es) && free == old(free) && Overfull(v)
      ensures SameBytes(old(base), base, HASH_SIZE, old(free))
      ensures old(Complete()) ==> Complete()
      ensures old(AtHead(v)) ==> ok && es == old(es) && pos == old(es[heads[Bucket(hash, v)]].str)
      ensures ok && old(free) < ELIM_LIMIT ==>
                if Contains(old(es), v) then es == old(es) && exists k :: 0 <= k < |es| && es[k].str == pos && es[k].v == v
                else es == old(es) + [Place(old(free), Extra(), v)] && pos == Place(old(free), Extra(), v).str
    {
      hide Same;
      hide LittleEndian;
      hide Place;
      pos := FindBeforePut(v);
      if pos != 0 {
        return true, pos;
      }
      PlaceBounds(free, Extra(), v);
      var pad := Pad(free, Extra());
      var needed := free + pad + (|v| + 1) + Extra();
      PlaceStr(v);
      if needed >= |base| {
        if needed >= VAR_MAX {
          return false, 0;
        }
        Extend(needed);
      }
      pos := Enter(v);
      EntryDenotes(base, free, es, Extra(), hash, |es| - 1);
      PlacedSame(es[|es| - 1], old(free), Extra(), v);
      ok := true;
    }

    lemma PlaceStr(v: seq<byte>)
      ensures Place(free, Extra(), v).str == free + Pad(free, Extra()) + Extra()
    {
    }

    // pos and the bucket value, as the code adds them up.
    method CellsOf(v: seq<byte>) returns (pos: nat, link: nat)
      requires Valid()
      ensures Place(free, Extra(), v) == Entry(link, pos, v, free < ELIM_LIMIT)
    {
      PlaceBounds(free, Extra(), v);
      var pad := Pad(free, Extra());
      pos := free + pad + Extra();
      link := pos - Extra();
      if free < ELIM_LIMIT {
        link := link - WORD;
      }
    }

    // A run of insertions.  Every string can be read back where it was said to be; as long as the
    // heap stayed small, equal strings share one location and different ones do not.
    method PutAll(vs: seq<seq<byte>>) returns (ok: bool, offs: seq<nat>)
      requires Valid() && forall i :: 0 <= i < |vs| ==> Proper(vs[i])
      modifies this`base, this`free, this`es, this`heads
      ensures Valid() && old(free) <= free && SameBytes(old(base), base, HASH_SIZE, old(free))
      ensures if ok then |offs| == |vs| else |offs| < |vs| && Overfull(vs[|offs|])
      ensures forall i :: 0 <= i < |offs| ==> Denotes(base, free, offs[i], vs[i])
      ensures free < ELIM_LIMIT ==> forall i, j :: 0 <= i < |offs| && 0 <= j < |offs| ==> (offs[i] == offs[j] <==> vs[i] == vs[j])
      ensures free < ELIM_LIMIT ==> Gained(old(es), es, vs[..|offs|]) && forall i :: 0 <= i < |offs| ==> Known(es, offs[i], vs[i])
    {
      hide Denotes;
      hide Gained;
      hide Known;
      hide Contains;
      hide Place;
      hide Complete;
      hide Body;
      hide Table;
      FreeInside();
      offs := [];
      NothingGained(es);
      while |offs| < |vs|
        invariant Valid() && old(free) <= free && |offs| <= |vs|
        invariant SameBytes(old(base), base, HASH_SIZE, old(free))
        invariant forall i :: 0 <= i < |offs| ==> Denotes(base, free, offs[i], vs[i])
        invariant free < ELIM_LIMIT ==> forall i :: 0 <= i < |offs| ==> Known(es, offs[i], vs[i])
        invariant free < ELIM_LIMIT ==> Gained(old(es), es, vs[..|offs|])
      {
        ghost var base0, free0, es0 := base, free, es;
        var v := vs[|offs|];
        var ok', pos := Put(v);
        FreeInside();
        forall i | 0 <= i < |offs| ensures Denotes(base, free, offs[i], vs[i]) {
          DenotesFrame(base0, free0, base, free, offs[i], vs[i]);
        }
        if free < ELIM_LIMIT {
          forall i | 0 <= i < |offs| ensures Known(es, offs[i], vs[i]) {
            KnownStays(es0, es, offs[i], vs[i]);
          }
          if ok' {
            PlaceKnown(es0, free0, v, pos);
            PlaceGained(old(es), es0, free0, vs, |offs|);
          }
        }
        if !ok' {
          OneLocation(offs, vs);
          return false, offs;
        }
        offs := offs + [pos];
      }
      OneLocation(offs, vs);
      ok := true;
    }

    lemma FreeInside()
      requires Valid()
      ensures HASH_SIZE <= free <= |base|
    {
      EndMonotone(es, Extra(), 0, |es|);
    }

    lemma PlaceKnown(es0: seq<Entry>, free0: nat, v: seq<byte>, pos: nat)
      requires if Contains(es0, v) then es == es0 && (exists k :: 0 <= k < |es| && es[k].str == pos && es[k].v == v)
               else es == es0 + [Place(free0, Extra(), v)] && pos == Place(free0, Extra(), v).str
      ensures Known(es, pos, v)
    {
      if !Contains(es0, v) {
        assert es[|es0|].str == pos && es[|es0|].v == v;
      }
    }

    lemma PlaceGained(es1: seq<Entry>, es0: seq<Entry>, free0: nat, vs: seq<seq<byte>>, n: nat)
      requires n < |vs| && Gained(es1, es0, vs[..n])
      requires if Contains(es0, vs[n]) then es == es0 else es == es0 + [Place(free0, Extra(), vs[n])]
      ensures Gained(es1, es, vs[..n + 1])
    {
      hide Gained;
      GainedNext(es1, es0, es, vs, n);
    }

    lemma NothingGained(es0: seq<Entry>)
      ensures Gained(es0, es0, [])
    {
    }

    lemma OneLocation(offs: seq<nat>, vs: seq<seq<byte>>)
      requires Valid() && |offs| <= |vs|
      requires free < ELIM_LIMIT ==> forall i :: 0 <= i < |offs| ==> Known(es, offs[i], vs[i])
      ensures free < ELIM_LIMIT ==> forall i, j :: 0 <= i < |offs| && 0 <= j < |offs| ==> (offs[i] == offs[j] <==> vs[i] == vs[j])
    {
      hide Body;
      hide Table;
      hide HeadsAt;
      if free < ELIM_LIMIT {
        AllSmall();
        forall i, j | 0 <= i < |offs| && 0 <= j < |offs| ensures offs[i] == offs[j] <==> vs[i] == vs[j] {
          var k :| 0 <= k < |es| && es[k].str == offs[i] && es[k].v == vs[i];
          var l :| 0 <= l < |es| && es[l].str == offs[j] && es[l].v == vs[j];
          StrOnce(k, l);
        }
      }
    }

    lemma StrOnce(k: int, l: int)
      requires Body(base, free, es, Extra(), hash) && 0 <= k < |es| && 0 <= l < |es|
      ensures es[k].str == es[l].str ==> k == l
    {
      if k < l {
        LinksIncrease(es, Extra(), k, l);
      } else if l < k {
        LinksIncrease(es, Extra(), l, k);
      }
    }

    lemma AllSmall()
      requires Body(base, free, es, Extra(), hash) && free < ELIM_LIMIT
      ensures forall i :: 0 <= i < |es| ==> es[i].small
    {
      forall i | 0 <= i < |es| ensures es[i].small {
        EntryRange(es, Extra(), i);
        EndMonotone(es, Extra(), i, |es|);
      }
    }

    // The length of a stored string with its terminator.
    method StrLen(pos: nat, ghost e: Entry) returns (len: nat)
      requires Written(base, e, Extra(), hash) && Proper(e.v) && pos == e.str
      ensures len == |e.v| + 1
    {
      hide LittleEndian;
      BytesOf(base, e.str, e.v);
      if base[pos] == NIL_BYTE {
        return 2;
      }
      len := 0;
      while base[pos + len] != 0
        invariant len <= |e.v|
        decreases |e.v| - len
      {
        len := len + 1;
      }
      len := len + 1;
    }

    // One linear scan of the strings that were entered while the heap was small.
    method Scan() returns (newhash: seq<word>)
      requires Body(base, free, es, Extra(), hash) && |base| < SIZE_MAX
      ensures |newhash| == BUCKETS
      ensures forall b :: 0 <= b < BUCKETS ==> newhash[b] == LinkOf(es, LastIn(es, SmallCount(es), hash, b))
    {
      hide LittleEndian;
      hide Body;
      hide Written;
      newhash := seq(BUCKETS, b => 0);
      var pos := HASH_SIZE;
      ghost var n := 0;
      while pos < free && pos < ELIM_LIMIT
        invariant 0 <= n <= |es| && pos == EndOf(es, n)
        invariant forall i :: 0 <= i < n ==> es[i].small
        invariant |newhash| == BUCKETS && forall b :: 0 <= b < BUCKETS ==> newhash[b] == LinkOf(es, LastIn(es, n, hash, b))
        decreases |es| - n
      {
        ScanStep(n);
        var pad := WORD - pos % WORD;
        if pad < WORD {
          pad := pad + WORD;
        }
        pos := pos + pad + Extra();
        var len := StrLen(pos, es[n]);
        var strhash := if hashash then Load(base, pos - WORD) else hash(base[pos..pos + len - 1]);
        ghost var cells := newhash;
        newhash := newhash[strhash % BUCKETS := pos - Extra() - WORD];
        NewCell(n, cells, newhash);
        pos := pos + len;
        n := n + 1;
      }
      SmallCountIs(n);
    }

    // What the scan meets behind the end of the n-th string.
    lemma ScanStep(n: nat)
      requires Body(base, free, es, Extra(), hash) && n <= |es| && EndOf(es, n) < free && EndOf(es, n) < ELIM_LIMIT
      ensures n < |es| && es[n].small && Written(base, es[n], Extra(), hash) && Proper(es[n].v)
      ensures es[n].link == es[n].str - Extra() - WORD && WORD + Extra() <= es[n].str
      ensures es[n].str == EndOf(es, n) + (if WORD - EndOf(es, n) % WORD < WORD then 2 * WORD - EndOf(es, n) % WORD else WORD) + Extra()
      ensures es[n].str + |es[n].v| < |base| && base[es[n].str..es[n].str + |es[n].v|] == es[n].v
      ensures hashash ==> Load(base, es[n].str - WORD) == hash(es[n].v)
      ensures es[n].str + |es[n].v| < free
    {
      hide Place;
      if n == |es| {
        assert false;
      }
      EntryRange(es, Extra(), n);
      SmallPlace(es, Extra(), n);
    }

    lemma SmallPlace(es: seq<Entry>, extra: nat, n: nat)
      requires Placed(es, extra) && n < |es| && EndOf(es, n) < ELIM_LIMIT
      ensures es[n].str == EndOf(es, n) + (if WORD - EndOf(es, n) % WORD < WORD then 2 * WORD - EndOf(es, n) % WORD else WORD) + extra
    {
      assert PlacedAt(es, extra, n);
    }

    lemma NewCell(n: nat, cells: seq<word>, cells': seq<word>)
      requires n < |es| && |cells| == BUCKETS && es[n].link < SIZE_MAX
      requires forall b :: 0 <= b < BUCKETS ==> cells[b] == LinkOf(es, LastIn(es, n, hash, b))
      requires cells' == cells[Bucket(hash, es[n].v) := es[n].link]
      ensures forall b :: 0 <= b < BUCKETS ==> cells'[b] == LinkOf(es, LastIn(es, n + 1, hash, b))
    {
    }

    lemma SmallCountIs(n: nat)
      requires Body(base, free, es, Extra(), hash) && n <= |es|
      requires forall i :: 0 <= i < n ==> es[i].small
      requires EndOf(es, n) >= free || EndOf(es, n) >= ELIM_LIMIT
      ensures n == SmallCount(es)
    {
      if n < |es| {
        EndMonotone(es, Extra(), n, |es|);
        EntryRange(es, Extra(), n);
      }
      SmallCountUnique(es, n);
    }

    // strCleanHash: whatever the bucket table holds, afterwards each bucket points to the last of
    // its strings that were entered while the heap was small.
    method CleanHash()
      requires Body(base, free, es, Extra(), hash) && |base| < SIZE_MAX && SmallOnce(es)
      modifies this`base, this`heads
      ensures Valid() && HeadsAt(es, heads, SmallCount(es), hash)
      ensures SameBytes(old(base), base, HASH_SIZE, free) && |base| == |old(base)|
      ensures old(Valid() && Complete()) && SmallCount(es) == |es| ==> base == old(base) && heads == old(heads)
    {
      var newhash := Scan();
      EndMonotone(es, Extra(), 0, |es|);
      ghost var heads' := LastHeads(es, SmallCount(es), hash);
      var differs, b := false, 0;
      while b < BUCKETS
        invariant 0 <= b <= BUCKETS
        invariant !differs <==> forall c :: 0 <= c < b ==> Load(base, WORD * c) == newhash[c]
      {
        differs := differs || Load(base, WORD * b) != newhash[b];
        b := b + 1;
      }
      ghost var was := base;
      if differs {
        base := WriteTable(base, newhash);
        BodyFrame(was, base, free, es, Extra(), hash);
      }
      CompleteNow(heads', newhash);
      heads := heads';
    }

    lemma CompleteNow(heads': seq<int>, newhash: seq<word>)
      requires Body(base, free, es, Extra(), hash) && |heads'| == |newhash| == BUCKETS && |base| >= HASH_SIZE
      requires forall b :: 0 <= b < BUCKETS ==> heads'[b] == LastIn(es, SmallCount(es), hash, b)
      requires forall b :: 0 <= b < BUCKETS ==> newhash[b] == LinkOf(es, LastIn(es, SmallCount(es), hash, b))
      requires forall b :: 0 <= b < BUCKETS ==> Load(base, WORD * b) == newhash[b]
      ensures Table(base, es, heads', hash) && HeadsAt(es, heads', SmallCount(es), hash)
      ensures free < ELIM_LIMIT ==> SmallCount(es) == |es|
    {
      if free < ELIM_LIMIT {
        AllSmall();
        SmallCountUnique(es, |es|);
      }
    }
  }

  ghost function LastHeads(es: seq<Entry>, n: nat, hash: Hash): (h: seq<int>)
    requires n <= |es|
    ensures |h| == BUCKETS && forall b :: 0 <= b < BUCKETS ==> h[b] == LastIn(es, n, hash, b)
  {
    seq(BUCKETS, b requires 0 <= b < BUCKETS => LastIn(es, n, hash, b))
  }

  // pos is where v was entered.
  ghost predicate Known(es: seq<Entry>, pos: nat, v: seq<byte>) {
    exists k :: 0 <= k < |es| && es[k].str == pos && es[k].v == v
  }

  lemma KnownStays(es: seq<Entry>, es': seq<Entry>, pos: nat, v: seq<byte>)
    requires Known(es, pos, v) && es <= es'
    ensures Known(es', pos, v)
  {
    var k :| 0 <= k < |es| && es[k].str == pos && es[k].v == v;
    assert es'[k] == es[k];
  }

  // How many strings were entered before the heap reached the limit.
  function SmallCount(es: seq<Entry>): (n: nat)
    ensures n <= |es|
  {
    if es == [] || !es[0].small then 0 else 1 + SmallCount(es[1..])
  }

  lemma {:induction false} SmallCountUnique(es: seq<Entry>, n: nat)
    requires n <= |es| && (forall i :: 0 <= i < n ==> es[i].small) && (n < |es| ==> !es[n].small)
    ensures SmallCount(es) == n
  {
    if n > 0 {
      SmallCountUnique(es[1..], n - 1);
    }
  }

  // memcpy of the new table over the old one.
  function WriteTable(base: seq<byte>, cells: seq<word>): (r: seq<byte>)
    requires |cells| == BUCKETS && |base| >= HASH_SIZE
    ensures |r| == |base| && SameBytes(base, r, HASH_SIZE, |base|)
    ensures forall b :: 0 <= b < BUCKETS ==> Load(r, WORD * b) == cells[b]
  {
    TableCells(base, cells, BUCKETS);
    WriteCellsTo(base, cells, BUCKETS)
  }

  function WriteCellsTo(base: seq<byte>, cells: seq<word>, n: nat): (r: seq<byte>)
    requires n <= |cells| && WORD * n <= |base|
    ensures |r| == |base| && SameBytes(base, r, WORD * n, |base|)
  {
    if n == 0 then base else Store(WriteCellsTo(base, cells, n - 1), WORD * (n - 1), cells[n - 1])
  }

  lemma {:induction false} TableCells(base: seq<byte>, cells: seq<word>, n: nat)
    requires n <= |cells| && WORD * n <= |base|
    ensures forall b :: 0 <= b < n ==> Load(WriteCellsTo(base, cells, n), WORD * b) == cells[b]
  {
    hide LittleEndian;
    hide Store;
    if n > 0 {
      TableCells(base, cells, n - 1);
      var before := WriteCellsTo(base, cells, n - 1);
      LoadStored(before, WORD * (n - 1), cells[n - 1]);
      var r := Store(before, WORD * (n - 1), cells[n - 1]);
      forall b | 0 <= b < n - 1 ensures Load(r, WORD * b) == cells[b] {
        assert r[WORD * b..WORD * b + WORD] == before[WORD * b..WORD * b + WORD];
      }
    }
  }

  lemma CellIsWord(base: seq<byte>, pos: nat)
    requires pos + WORD <= |base|
    ensures Load(base, pos) < 0x1_0000_0000_0000_0000
  {
    LittleEndianBound(base[pos..pos + WORD]);
    Pow2Of64();
  }

  lemma ZeroTable(base: seq<byte>, heads: seq<int>, hash: Hash)
    requires |base| >= HASH_SIZE && (forall i :: 0 <= i < |base| ==> base[i] == 0)
    requires |heads| == BUCKETS && forall b :: 0 <= b < BUCKETS ==> heads[b] == -1
    ensures Table(base, [], heads, hash) && HeadsAt([], heads, 0, hash)
  {
    forall b | 0 <= b < BUCKETS ensures Load(base, WORD * b) == 0 {
      ZeroWord(base[WORD * b..WORD * b + WORD]);
    }
  }

  lemma {:induction false} ZeroWord(b: seq<byte>)
    requires forall i :: 0 <= i < |b| ==> b[i] == 0
    ensures LittleEndian(b) == 0
  {
    if b != [] {
      ZeroWord(b[1..]);
    }
  }
}
