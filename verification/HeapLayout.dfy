// The string heap as bytes: a table of 1024 bucket cells, then the strings one after the other.
// A string entered while the heap is small is preceded by a link cell that continues its bucket's
// collision list; in a heap that stores hashes, the hash word lies between link and string.
module HeapLayout {
  import opened Bits
  import opened Bytes

  const WORD: nat := 8
  const BUCKETS: nat := 1024
  const HASH_SIZE: nat := 8192
  const ELIM_LIMIT: nat := 65536

  type word = w: nat | w < 0x1_0000_0000_0000_0000

  // The hash of a string is any function; which bucket it falls in depends on its low ten bits.
  type Hash = seq<byte> -> word

  function Bucket(hash: Hash, v: seq<byte>): (b: nat)
    ensures b < BUCKETS
  {
    hash(v) % BUCKETS
  }

  // A C string that may be stored: no zero byte, and nil is the only one that starts with 128.
  predicate Proper(v: seq<byte>) {
    && (forall i :: 0 <= i < |v| ==> v[i] != 0)
    && (v != [] && v[0] == NIL_BYTE ==> |v| == 1)
  }

  // GDK_STRCMP(v, base + pos) == 0: any bytes that start with 128 count as nil.
  predicate Same(base: seq<byte>, pos: nat, v: seq<byte>) {
    if v != [] && v[0] == NIL_BYTE then pos < |base| && base[pos] == NIL_BYTE
    else pos + |v| < |base| && base[pos..pos + |v|] == v && base[pos + |v|] == 0
  }

  function Load(base: seq<byte>, pos: nat): nat
    requires pos + WORD <= |base|
  {
    LittleEndian(base[pos..pos + WORD])
  }

  function Write(base: seq<byte>, pos: nat, b: seq<byte>): (r: seq<byte>)
    requires pos + |b| <= |base|
    ensures |r| == |base| && r[pos..pos + |b|] == b
    ensures forall i :: 0 <= i < |base| && !(pos <= i < pos + |b|) ==> r[i] == base[i]
  {
    base[..pos] + b + base[pos + |b|..]
  }

  function Store(base: seq<byte>, pos: nat, x: word): (r: seq<byte>)
    requires pos + WORD <= |base|
    ensures |r| == |base|
    ensures forall i :: 0 <= i < |base| && !(pos <= i < pos + WORD) ==> r[i] == base[i]
  {
    Write(base, pos, LeBytes(x, WORD))
  }

  lemma LoadStored(base: seq<byte>, pos: nat, x: word)
    requires pos + WORD <= |base|
    ensures Load(Store(base, pos, x), pos) == x
  {
    Pow2Of64();
    StoreLoad(x, WORD);
  }

  lemma Pow2Of64()
    ensures Pow2(64) == 0x1_0000_0000_0000_0000
  {
    Pow2Byte(0);
    Pow2Byte(8);
    Pow2Byte(16);
    Pow2Byte(24);
    Pow2Byte(32);
    Pow2Byte(40);
    Pow2Byte(48);
    Pow2Byte(56);
  }

  ghost predicate SameBytes(a: seq<byte>, b: seq<byte>, lo: nat, hi: nat) {
    hi <= |a| && hi <= |b| && forall i :: lo <= i < hi ==> a[i] == b[i]
  }

  lemma SameSlice(a: seq<byte>, b: seq<byte>, lo: nat, hi: nat, from: nat, to: nat)
    requires SameBytes(a, b, lo, hi) && lo <= from <= to <= hi
    ensures a[from..to] == b[from..to]
  {
  }

  // ---- where strings go ----

  // Padding before the next string: at least a word for the link while the heap is small.
  function Pad(free: nat, extra: nat): nat {
    var pad := WORD - free % WORD;
    if free < ELIM_LIMIT then (if pad < WORD then pad + WORD else pad)
    else if extra == 0 then 0
    else pad % WORD
  }

  // A string in the heap: where its bucket or predecessor points, and where its bytes start.
  datatype Entry = Entry(link: nat, str: nat, v: seq<byte>, small: bool)

  function EndOf(es: seq<Entry>, n: nat): nat
    requires n <= |es|
  {
    if n == 0 then HASH_SIZE else es[n - 1].str + |es[n - 1].v| + 1
  }

  function Place(free: nat, extra: nat, v: seq<byte>): Entry {
    var str := free + Pad(free, extra) + extra;
    if free < ELIM_LIMIT then Entry(str - extra - WORD, str, v, true) else Entry(str - extra, str, v, false)
  }

  // Every string lies where the insertion rule puts it.
  ghost predicate Placed(es: seq<Entry>, extra: nat) {
    forall i {:trigger PlacedAt(es, extra, i)} :: 0 <= i < |es| ==> PlacedAt(es, extra, i)
  }

  ghost predicate PlacedAt(es: seq<Entry>, extra: nat, i: nat)
    requires i < |es|
  {
    Proper(es[i].v) && es[i] == Place(EndOf(es, i), extra, es[i].v)
  }

  lemma PlaceBounds(free: nat, extra: nat, v: seq<byte>)
    requires extra == 0 || extra == WORD
    ensures var e := Place(free, extra, v);
            && free <= e.link && e.link + extra <= e.str && (e.small ==> e.link + WORD + extra == e.str)
            && (extra > 0 ==> free <= e.str - WORD)
            && (e.small ==> e.link < free + WORD && e.link <= ELIM_LIMIT)
            && (!e.small ==> e.link >= ELIM_LIMIT && e.link + extra == e.str)
            && (e.small <==> free < ELIM_LIMIT) && e.v == v
  {
  }

  // The one insertion that crosses the limit while still small can put its link exactly at the
  // limit, where the bucket no longer looks like the head of a list.
  lemma LinkAtLimit(free: nat, extra: nat, v: seq<byte>)
    requires free < ELIM_LIMIT
    ensures Place(free, extra, v).link <= ELIM_LIMIT
    ensures Place(free, extra, v).link == ELIM_LIMIT <==> free > ELIM_LIMIT - WORD
  {
  }

  lemma {:induction false} EndMonotone(es: seq<Entry>, extra: nat, i: nat, j: nat)
    requires extra == 0 || extra == WORD
    requires Placed(es, extra) && i <= j <= |es|
    ensures EndOf(es, i) <= EndOf(es, j)
    ensures i < j ==> EndOf(es, i) < EndOf(es, j)
    decreases j
  {
    hide Place;
    if i < j {
      EndMonotone(es, extra, i, j - 1);
      assert PlacedAt(es, extra, j - 1);
      PlaceBounds(EndOf(es, j - 1), extra, es[j - 1].v);
    }
  }

  // An entry's cells lie between the end of the previous string and its own end.
  lemma EntryRange(es: seq<Entry>, extra: nat, i: nat)
    requires extra == 0 || extra == WORD
    requires Placed(es, extra) && i < |es|
    ensures HASH_SIZE <= EndOf(es, i) <= es[i].link < es[i].str + |es[i].v| + 1 <= EndOf(es, |es|)
    ensures es[i].link + extra <= es[i].str && (extra > 0 ==> HASH_SIZE <= es[i].str - WORD)
    ensures es[i].small ==> es[i].link + WORD + extra == es[i].str && es[i].link <= ELIM_LIMIT
    ensures !es[i].small ==> es[i].link >= ELIM_LIMIT && es[i].link + extra == es[i].str
    ensures (es[i].small <==> EndOf(es, i) < ELIM_LIMIT) && (es[i].small ==> es[i].link < EndOf(es, i) + WORD)
    ensures Proper(es[i].v)
  {
    hide Place;
    assert PlacedAt(es, extra, i);
    EndMonotone(es, extra, 0, i);
    EndMonotone(es, extra, i + 1, |es|);
    PlaceBounds(EndOf(es, i), extra, es[i].v);
  }

  lemma LinksIncrease(es: seq<Entry>, extra: nat, i: nat, j: nat)
    requires extra == 0 || extra == WORD
    requires Placed(es, extra) && i < j < |es|
    ensures es[i].link < es[j].link && es[i].str < es[j].str
    ensures es[j].small ==> es[i].small && es[i].link < ELIM_LIMIT
  {
    EntryRange(es, extra, i);
    EntryRange(es, extra, j);
    EndMonotone(es, extra, i, j);
    EndMonotone(es, extra, i + 1, j);
    assert EndOf(es, i + 1) == es[i].str + |es[i].v| + 1;
  }

  // ---- collision lists ----

  // The last of the first n entries in bucket b, or -1.
  function LastIn(es: seq<Entry>, n: nat, hash: Hash, b: nat): (i: int)
    requires n <= |es|
    ensures -1 <= i < n
    ensures i >= 0 ==> Bucket(hash, es[i].v) == b
    ensures forall j :: i < j < n ==> Bucket(hash, es[j].v) != b
  {
    if n == 0 then -1
    else if Bucket(hash, es[n - 1].v) == b then n - 1
    else LastIn(es, n - 1, hash, b)
  }

  lemma {:induction false} LastInAppend(es: seq<Entry>, e: Entry, n: nat, hash: Hash, b: nat)
    requires n <= |es|
    ensures LastIn(es + [e], n, hash, b) == LastIn(es, n, hash, b)
  {
    if n > 0 {
      LastInAppend(es, e, n - 1, hash, b);
    }
  }

  function LinkOf(es: seq<Entry>, i: int): nat
    requires -1 <= i < |es|
  {
    if i < 0 then 0 else es[i].link
  }

  // The bytes of an entry: string, terminator, and the hash word if there is one.
  ghost predicate Written(base: seq<byte>, e: Entry, extra: nat, hash: Hash) {
    && e.str + |e.v| < |base| && base[e.str..e.str + |e.v|] == e.v && base[e.str + |e.v|] == 0
    && (extra > 0 ==> WORD <= e.str && Load(base, e.str - WORD) == hash(e.v))
  }

  // A link cell continues with the previous entry of the same bucket.
  ghost predicate Linked(base: seq<byte>, es: seq<Entry>, i: nat, hash: Hash)
    requires i < |es|
  {
    es[i].small ==> es[i].link + WORD <= |base|
                    && Load(base, es[i].link) == LinkOf(es, LastIn(es, i, hash, Bucket(hash, es[i].v)))
  }

  // Everything behind the bucket table.
  ghost predicate Body(base: seq<byte>, free: nat, es: seq<Entry>, extra: nat, hash: Hash) {
    && (extra == 0 || extra == WORD) && Placed(es, extra)
    && free == EndOf(es, |es|) <= |base|
    && (forall i :: 0 <= i < |es| ==> Written(base, es[i], extra, hash))
    && (forall i :: 0 <= i < |es| ==> Linked(base, es, i, hash))
  }

  // The bucket table points, for each bucket, to one of its entries or to nothing.
  ghost predicate Table(base: seq<byte>, es: seq<Entry>, heads: seq<int>, hash: Hash) {
    && |base| >= HASH_SIZE && |heads| == BUCKETS
    && (forall b :: 0 <= b < BUCKETS ==> -1 <= heads[b] < |es| && (heads[b] >= 0 ==> Bucket(hash, es[heads[b]].v) == b))
    && (forall b :: 0 <= b < BUCKETS ==> Load(base, WORD * b) == LinkOf(es, heads[b]))
  }

  // It points to the last entry of each bucket among the first n.
  ghost predicate HeadsAt(es: seq<Entry>, heads: seq<int>, n: nat, hash: Hash)
    requires n <= |es|
  {
    |heads| == BUCKETS && forall b :: 0 <= b < BUCKETS ==> heads[b] == LastIn(es, n, hash, b)
  }

  // ---- changes elsewhere do not matter ----

  lemma WrittenFrame(base: seq<byte>, base': seq<byte>, es: seq<Entry>, i: nat, extra: nat, hash: Hash)
    requires (extra == 0 || extra == WORD) && Placed(es, extra) && i < |es|
    requires SameBytes(base, base', HASH_SIZE, EndOf(es, |es|)) && Written(base, es[i], extra, hash)
    ensures Written(base', es[i], extra, hash)
  {
    hide LittleEndian;
    EntryRange(es, extra, i);
    var e := es[i];
    assert base'[e.str + |e.v|] == base[e.str + |e.v|];
    SameSlice(base, base', HASH_SIZE, EndOf(es, |es|), e.str, e.str + |e.v|);
    if extra > 0 {
      SameSlice(base, base', HASH_SIZE, EndOf(es, |es|), e.str - WORD, e.str);
    }
  }

  lemma LinkedFrame(base: seq<byte>, base': seq<byte>, es: seq<Entry>, i: nat, extra: nat, hash: Hash)
    requires (extra == 0 || extra == WORD) && Placed(es, extra) && i < |es|
    requires SameBytes(base, base', HASH_SIZE, EndOf(es, |es|)) && Linked(base, es, i, hash)
    ensures Linked(base', es, i, hash)
  {
    EntryRange(es, extra, i);
    if es[i].small {
      SameSlice(base, base', HASH_SIZE, EndOf(es, |es|), es[i].link, es[i].link + WORD);
    }
  }

  lemma BodyFrame(base: seq<byte>, base': seq<byte>, free: nat, es: seq<Entry>, extra: nat, hash: Hash)
    requires Body(base, free, es, extra, hash) && SameBytes(base, base', HASH_SIZE, free)
    ensures Body(base', free, es, extra, hash)
  {
    forall i | 0 <= i < |es| ensures Written(base', es[i], extra, hash) && Linked(base', es, i, hash) {
      WrittenFrame(base, base', es, i, extra, hash);
      LinkedFrame(base, base', es, i, extra, hash);
    }
  }

  lemma TableFrame(base: seq<byte>, base': seq<byte>, es: seq<Entry>, heads: seq<int>, hash: Hash)
    requires Table(base, es, heads, hash) && SameBytes(base, base', 0, HASH_SIZE)
    ensures Table(base', es, heads, hash)
  {
    forall b | 0 <= b < BUCKETS ensures Load(base', WORD * b) == LinkOf(es, heads[b]) {
      SameSlice(base, base', 0, HASH_SIZE, WORD * b, WORD * b + WORD);
    }
  }

  // ---- comparing ----

  // Comparing with a stored string is comparing the strings.
  lemma SameIsEqual(base: seq<byte>, e: Entry, extra: nat, hash: Hash, v: seq<byte>)
    requires Written(base, e, extra, hash) && Proper(e.v) && Proper(v)
    ensures Same(base, e.str, v) <==> v == e.v
  {
    hide LittleEndian;
    BytesOf(base, e.str, e.v);
    if v == [] || v[0] != NIL_BYTE {
      if Same(base, e.str, v) {
        BytesOf(base, e.str, v);
      }
    }
  }

  lemma BytesOf(base: seq<byte>, pos: nat, s: seq<byte>)
    requires pos + |s| <= |base| && base[pos..pos + |s|] == s
    ensures forall i :: pos <= i < pos + |s| ==> base[i] == s[i - pos]
  {
    forall i | pos <= i < pos + |s| ensures base[i] == s[i - pos] {
      assert base[pos..pos + |s|][i - pos] == base[i];
    }
  }

  // The heap keeps a copy of v at pos, as the comparison sees it.
  ghost predicate Denotes(base: seq<byte>, free: nat, pos: nat, v: seq<byte>) {
    HASH_SIZE <= pos && pos + |v| < free <= |base| && Same(base, pos, v)
  }

  // Bytes in front of a terminator that compare equal to v really lie in front of it.
  lemma SameBeforeEnd(base: seq<byte>, free: nat, pos: nat, end: nat, v: seq<byte>)
    requires Proper(v) && Same(base, pos, v) && HASH_SIZE <= pos <= end < free <= |base| && base[end] == 0
    ensures Denotes(base, free, pos, v)
  {
    if v == [] || v[0] != NIL_BYTE {
      BytesOf(base, pos, v);
    }
  }

  lemma DenotesFrame(base: seq<byte>, free: nat, base': seq<byte>, free': nat, pos: nat, v: seq<byte>)
    requires Denotes(base, free, pos, v) && SameBytes(base, base', HASH_SIZE, free) && free <= free' <= |base'|
    ensures Denotes(base', free', pos, v)
  {
    SameSlice(base, base', HASH_SIZE, free, pos, pos + |v|);
  }

  lemma EntryDenotes(base: seq<byte>, free: nat, es: seq<Entry>, extra: nat, hash: Hash, i: nat)
    requires Body(base, free, es, extra, hash) && i < |es|
    ensures Denotes(base, free, es[i].str, es[i].v)
  {
    EntryRange(es, extra, i);
    SameIsEqual(base, es[i], extra, hash, es[i].v);
  }

  // ---- appending ----

  lemma {:induction false} EndOfAppend(es: seq<Entry>, e: Entry, n: nat)
    requires n <= |es|
    ensures EndOf(es + [e], n) == EndOf(es, n)
  {
  }

  lemma PlacedAppend(es: seq<Entry>, extra: nat, v: seq<byte>)
    requires Placed(es, extra) && Proper(v)
    ensures Placed(es + [Place(EndOf(es, |es|), extra, v)], extra)
  {
    hide Place;
    var e := Place(EndOf(es, |es|), extra, v);
    PlacedSame(e, EndOf(es, |es|), extra, v);
    forall i | 0 <= i < |es| + 1 ensures PlacedAt(es + [e], extra, i) {
      EndOfAppend(es, e, i);
      if i < |es| {
        assert PlacedAt(es, extra, i);
      }
    }
  }

  lemma PlacedSame(e: Entry, free: nat, extra: nat, v: seq<byte>)
    requires e == Place(free, extra, v)
    ensures e.v == v
  {
  }

  // A new string behind the others, with its hash word and link cell written.
  lemma BodyAppend(base: seq<byte>, es: seq<Entry>, extra: nat, hash: Hash, v: seq<byte>)
    requires Body(base, EndOf(es, |es|), es, extra, hash) && Proper(v)
    requires var e := Place(EndOf(es, |es|), extra, v);
             && Written(base, e, extra, hash)
             && (e.small ==> e.link + WORD <= |base|
                             && Load(base, e.link) == LinkOf(es, LastIn(es, |es|, hash, Bucket(hash, v))))
    ensures var es' := es + [Place(EndOf(es, |es|), extra, v)]; Body(base, EndOf(es', |es'|), es', extra, hash)
  {
    hide Place;
    hide Written;
    hide LittleEndian;
    var e := Place(EndOf(es, |es|), extra, v);
    PlacedSame(e, EndOf(es, |es|), extra, v);
    var es' := es + [e];
    PlacedAppend(es, extra, v);
    WrittenEnds(base, e, extra, hash);
    forall i | 0 <= i < |es'| ensures Linked(base, es', i, hash) {
      LastInAppend(es, e, i, hash, Bucket(hash, es'[i].v));
      if i < |es| {
        assert Linked(base, es, i, hash);
      }
    }
  }

  lemma WrittenEnds(base: seq<byte>, e: Entry, extra: nat, hash: Hash)
    requires Written(base, e, extra, hash)
    ensures e.str + |e.v| < |base|
  {
  }

  // The table after the new entry became the head of its bucket.
  lemma TableAppend(base: seq<byte>, base': seq<byte>, es: seq<Entry>, heads: seq<int>, hash: Hash, e: Entry, b: nat)
    requires Table(base, es, heads, hash) && b == Bucket(hash, e.v)
    requires |base'| >= HASH_SIZE && Load(base', WORD * b) == e.link
    requires forall i :: 0 <= i < HASH_SIZE && !(WORD * b <= i < WORD * b + WORD) ==> base'[i] == base[i]
    ensures Table(base', es + [e], heads[b := |es|], hash)
  {
    hide LittleEndian;
    var es' := es + [e];
    var heads' := heads[b := |es|];
    forall c | 0 <= c < BUCKETS ensures Load(base', WORD * c) == LinkOf(es', heads'[c]) {
      if c != b {
        assert base'[WORD * c..WORD * c + WORD] == base[WORD * c..WORD * c + WORD];
      }
    }
  }

  lemma HeadsAppend(es: seq<Entry>, heads: seq<int>, hash: Hash, e: Entry)
    requires HeadsAt(es, heads, |es|, hash)
    ensures HeadsAt(es + [e], heads[Bucket(hash, e.v) := |es|], |es| + 1, hash)
  {
    var heads' := heads[Bucket(hash, e.v) := |es|];
    forall b | 0 <= b < BUCKETS ensures heads'[b] == LastIn(es + [e], |es| + 1, hash, b) {
      LastInAppend(es, e, |es|, hash, b);
    }
  }

  // ---- the writes of one insertion ----

  // The string with its terminator, then the hash word in front of it.
  function WithString(base: seq<byte>, e: Entry, extra: nat, hash: Hash): (r: seq<byte>)
    requires e.str + |e.v| + 1 <= |base| && (extra > 0 ==> WORD <= e.str)
    ensures |r| == |base|
    ensures forall i :: 0 <= i < |base| && (i + (if extra > 0 then WORD else 0) < e.str || e.str + |e.v| < i) ==> r[i] == base[i]
  {
    var base1 := Write(base, e.str, e.v + [0]);
    if extra > 0 then Store(base1, e.str - WORD, hash(e.v)) else base1
  }

  lemma StringWritten(base: seq<byte>, e: Entry, extra: nat, hash: Hash)
    requires (extra == 0 || extra == WORD) && e.str + |e.v| + 1 <= |base| && (extra > 0 ==> WORD <= e.str)
    ensures Written(WithString(base, e, extra, hash), e, extra, hash)
  {
    hide LittleEndian;
    hide LeBytes;
    var base1 := Write(base, e.str, e.v + [0]);
    var r := WithString(base, e, extra, hash);
    BytesOf(base1, e.str, e.v + [0]);
    assert r[e.str..e.str + |e.v|] == e.v;
    if extra > 0 {
      LoadStored(base1, e.str - WORD, hash(e.v));
    }
  }

  // A store elsewhere leaves an entry's own bytes alone.
  lemma WrittenKept(base: seq<byte>, base': seq<byte>, e: Entry, extra: nat, hash: Hash, lo: nat)
    requires (extra == 0 || extra == WORD) && Written(base, e, extra, hash)
    requires lo + extra <= e.str && SameBytes(base, base', lo, e.str + |e.v| + 1)
    ensures Written(base', e, extra, hash)
  {
    hide LittleEndian;
    SameSlice(base, base', lo, e.str + |e.v| + 1, e.str, e.str + |e.v|);
    if extra > 0 {
      SameSlice(base, base', lo, e.str + |e.v| + 1, e.str - WORD, e.str);
    }
    assert base'[e.str + |e.v|] == base[e.str + |e.v|];
  }

  function WithLink(base: seq<byte>, e: Entry, cell: word): (r: seq<byte>)
    requires e.small ==> e.link + WORD <= |base|
    ensures |r| == |base|
    ensures forall i :: 0 <= i < |base| && !(e.link <= i < e.link + WORD) ==> r[i] == base[i]
  {
    if e.small then Store(base, e.link, cell) else base
  }

  // Everything one insertion writes behind the old strings and into the table.
  function Inserted(base: seq<byte>, e: Entry, extra: nat, hash: Hash, cell: word): (r: seq<byte>)
    requires e.str + |e.v| + 1 <= |base| && (extra > 0 ==> WORD <= e.str)
    requires (e.small ==> e.link + WORD <= |base|) && |base| >= HASH_SIZE && e.link < 0x1_0000_0000_0000_0000
    ensures |r| == |base|
  {
    Store(WithLink(WithString(base, e, extra, hash), e, cell), WORD * Bucket(hash, e.v), e.link)
  }

  // The cells of a new entry lie behind free, in the order link, hash word, string.
  ghost predicate Behind(free: nat, e: Entry, extra: nat) {
    && (extra == 0 || extra == WORD) && HASH_SIZE <= free <= e.link < 0x1_0000_0000_0000_0000
    && e.link + (if e.small then WORD else 0) + extra <= e.str
  }

  lemma InsertedString(base: seq<byte>, free: nat, e: Entry, extra: nat, hash: Hash, cell: word)
    requires Behind(free, e, extra) && e.str + |e.v| + 1 <= |base|
    ensures Written(Inserted(base, e, extra, hash, cell), e, extra, hash)
    ensures SameBytes(base, Inserted(base, e, extra, hash, cell), HASH_SIZE, free)
  {
    hide LeBytes;
    hide Written;
    hide Store;
    var base2 := WithString(base, e, extra, hash);
    StringWritten(base, e, extra, hash);
    var base3 := WithLink(base2, e, cell);
    WrittenKept(base2, base3, e, extra, hash, if e.small then e.link + WORD else e.link);
    WrittenKept(base3, Inserted(base, e, extra, hash, cell), e, extra, hash, HASH_SIZE);
  }

  lemma InsertedCells(base: seq<byte>, free: nat, e: Entry, extra: nat, hash: Hash, cell: word)
    requires Behind(free, e, extra) && e.str + |e.v| + 1 <= |base|
    ensures var (r, b) := (Inserted(base, e, extra, hash, cell), Bucket(hash, e.v));
            && Load(r, WORD * b) == e.link && (e.small ==> Load(r, e.link) == cell)
            && (forall i :: 0 <= i < HASH_SIZE && !(WORD * b <= i < WORD * b + WORD) ==> r[i] == base[i])
  {
    hide LeBytes;
    hide LittleEndian;
    hide Store;
    var base2 := WithString(base, e, extra, hash);
    var base3 := WithLink(base2, e, cell);
    LoadStored(base3, WORD * Bucket(hash, e.v), e.link);
    if e.small {
      LoadStored(base2, e.link, cell);
      SameSlice(base3, Inserted(base, e, extra, hash, cell), HASH_SIZE, |base|, e.link, e.link + WORD);
    }
  }

  // After the writes the new string is in place, linked and at the head of its bucket.
  lemma InsertedOk(base: seq<byte>, free: nat, es: seq<Entry>, heads: seq<int>, extra: nat, hash: Hash, e: Entry, cell: word)
    requires Body(base, free, es, extra, hash) && Table(base, es, heads, hash) && Proper(e.v)
    requires e == Place(free, extra, e.v) && Behind(free, e, extra) && e.str + |e.v| + 1 <= |base|
    requires cell == Load(base, WORD * Bucket(hash, e.v))
    requires e.small ==> heads[Bucket(hash, e.v)] == LastIn(es, |es|, hash, Bucket(hash, e.v))
    ensures var base' := Inserted(base, e, extra, hash, cell);
            && Body(base', EndOf(es + [e], |es| + 1), es + [e], extra, hash)
            && Table(base', es + [e], heads[Bucket(hash, e.v) := |es|], hash)
            && SameBytes(base, base', HASH_SIZE, free)
  {
    hide LittleEndian;
    hide Place;
    hide Written;
    hide Inserted;
    var base' := Inserted(base, e, extra, hash, cell);
    InsertedString(base, free, e, extra, hash, cell);
    InsertedCells(base, free, e, extra, hash, cell);
    BodyFrame(base, base', free, es, extra, hash);
    BodyAppend(base', es, extra, hash, e.v);
    TableAppend(base, base', es, heads, hash, e, Bucket(hash, e.v));
  }

  lemma PlaceBehind(es: seq<Entry>, extra: nat, v: seq<byte>)
    requires (extra == 0 || extra == WORD) && Placed(es, extra)
    requires Place(EndOf(es, |es|), extra, v).link < 0x1_0000_0000_0000_0000
    ensures Behind(EndOf(es, |es|), Place(EndOf(es, |es|), extra, v), extra)
  {
    hide Place;
    PlaceBounds(EndOf(es, |es|), extra, v);
    EndMonotone(es, extra, 0, |es|);
  }
}
