// The block stream: bytes are sent in blocks behind a two-byte header whose lowest bit marks a
// flush, and read back in pieces of any size with one empty read for every flush.
module BlockStream {
  import opened Bits
  import opened Bytes
  import opened Sequences

  const BLOCK: nat := 8190

  // What a reader can meet: a byte, a flush, bytes of a block that are missing, or a bad header.
  datatype Event = Byte(b: byte) | End | Short | Bad

  function Data(bytes: seq<byte>): (e: seq<Event>)
    ensures |e| == |bytes|
  {
    seq(|bytes|, i requires 0 <= i < |bytes| => Byte(bytes[i]))
  }

  // What the flushed blocks sound like on the other side.
  function Transcript(blocks: seq<seq<byte>>): seq<Event> {
    if blocks == [] then [] else Transcript(blocks[..|blocks| - 1]) + Data(blocks[|blocks| - 1]) + [End]
  }

  // ------------------------------------------------------------------------------------------
  // The wire.

  function Header(wire: seq<byte>): nat
    requires |wire| >= 2
  {
    LittleEndian(wire[..2])
  }

  // A sequence of whole blocks; a header is a positive 16-bit number.
  predicate Framed(wire: seq<byte>) {
    wire == [] || (|wire| >= 2 && Header(wire) < 0x8000 && 2 + Header(wire) / 2 <= |wire| && Framed(wire[2 + Header(wire) / 2..]))
  }

  function Mark(last: bool): seq<Event> {
    if last then [End] else []
  }

  // What any sequence of bytes says; it ends with what is not a whole block.
  function Parse(wire: seq<byte>): seq<Event> {
    if |wire| < 2 then []
    else if Header(wire) >= 0x8000 then [Bad]
    else
      var size := Header(wire) / 2;
      if |wire| < 2 + size then Data(wire[2..]) + [Short]
      else Data(wire[2..2 + size]) + Mark(Header(wire) % 2 == 1) + Parse(wire[2 + size..])
  }

  function Frame(data: seq<byte>, last: bool): seq<byte> {
    LeBytes(2 * |data| + (if last then 1 else 0), 2) + data
  }

  lemma FrameHeader(data: seq<byte>, last: bool, rest: seq<byte>)
    requires |data| <= BLOCK
    ensures var w := Frame(data, last) + rest;
            && Header(w) == 2 * |data| + (if last then 1 else 0)
            && w[2..2 + |data|] == data && w[2 + |data|..] == rest
  {
    var h: nat := 2 * |data| + (if last then 1 else 0);
    Pow2Byte(0);
    Pow2Byte(8);
    StoreLoad(h, 2);
    assert (Frame(data, last) + rest)[..2] == LeBytes(h, 2);
  }

  lemma ParseFrame(data: seq<byte>, last: bool, rest: seq<byte>)
    requires |data| <= BLOCK && Framed(rest)
    ensures Framed(Frame(data, last) + rest)
    ensures Parse(Frame(data, last) + rest) == Data(data) + Mark(last) + Parse(rest)
  {
    FrameHeader(data, last, rest);
  }

  // The first block of a wire and the rest of it.
  lemma ParseFirst(wire: seq<byte>, rest: seq<byte>)
    requires |wire| >= 2 && Header(wire) < 0x8000 && |wire| == 2 + Header(wire) / 2 && Framed(rest)
    ensures Framed(wire + rest)
    ensures Parse(wire + rest) == Data(wire[2..]) + Mark(Header(wire) % 2 == 1) + Parse(rest)
  {
    var n := |wire|;
    assert (wire + rest)[..2] == wire[..2];
    assert (wire + rest)[n..] == rest;
    assert (wire + rest)[2..n] == wire[2..];
  }

  // Sending one more block appends its events.
  lemma {:induction false} ParseAppend(wire: seq<byte>, data: seq<byte>, last: bool)
    requires Framed(wire) && |data| <= BLOCK
    ensures Framed(wire + Frame(data, last))
    ensures Parse(wire + Frame(data, last)) == Parse(wire) + (Data(data) + Mark(last))
    decreases |wire|
  {
    hide Data;
    hide Header;
    if wire == [] {
      assert wire + Frame(data, last) == Frame(data, last) + [];
      ParseFrame(data, last, []);
    } else {
      hide Framed;
      hide Parse;
      var first, rest := FirstBlock(wire);
      ParseAppend(rest, data, last);
      AppendBehind(first, rest, Frame(data, last), Data(data) + Mark(last));
    }
  }

  lemma AppendBehind(first: seq<byte>, rest: seq<byte>, f: seq<byte>, e: seq<Event>)
    requires |first| >= 2 && Header(first) < 0x8000 && |first| == 2 + Header(first) / 2
    requires Framed(rest) && Framed(rest + f) && Parse(rest + f) == Parse(rest) + e
    ensures Framed(first + rest) && Framed(first + rest + f)
    ensures Parse(first + rest + f) == Parse(first + rest) + e
  {
    hide Framed;
    hide Parse;
    hide Data;
    ParseFirst(first, rest);
    ParseFirst(first, rest + f);
    assert first + rest + f == first + (rest + f);
    Associate(Data(first[2..]) + Mark(Header(first) % 2 == 1), Parse(rest), e);
  }

  lemma FirstBlock(wire: seq<byte>) returns (first: seq<byte>, rest: seq<byte>)
    requires Framed(wire) && wire != []
    ensures wire == first + rest && |rest| < |wire| && Framed(rest)
    ensures |first| >= 2 && Header(first) < 0x8000 && |first| == 2 + Header(first) / 2
  {
    var n := 2 + Header(wire) / 2;
    first, rest := wire[..n], wire[n..];
    assert first[..2] == wire[..2];
  }

  lemma DataConcat(a: seq<byte>, b: seq<byte>)
    ensures Data(a + b) == Data(a) + Data(b)
  {
  }

  // ------------------------------------------------------------------------------------------
  // The writer.

  // The blocks sent and the bytes buffered are the blocks flushed and the bytes written since.
  ghost predicate Balanced(sent: seq<Event>, buffered: seq<byte>, flushed: seq<Event>, pending: seq<byte>) {
    sent + Data(buffered) == flushed + Data(pending)
  }

  lemma BalancedMore(sent: seq<Event>, buffered: seq<byte>, flushed: seq<Event>, pending: seq<byte>, more: seq<byte>)
    requires Balanced(sent, buffered, flushed, pending)
    ensures Balanced(sent, buffered + more, flushed, pending + more)
  {
    DataConcat(buffered, more);
    DataConcat(pending, more);
    assert sent + (Data(buffered) + Data(more)) == sent + Data(buffered) + Data(more);
  }

  lemma BalancedSent(sent: seq<Event>, buffered: seq<byte>, flushed: seq<Event>, pending: seq<byte>)
    requires Balanced(sent, buffered, flushed, pending)
    ensures Balanced(sent + Data(buffered) + Mark(false), [], flushed, pending)
  {
  }

  class Writer {
    // what the underlying stream has taken
    var wire: seq<byte>
    const buf: array<byte>
    var nr: nat
    // the blocks flushed so far, and what was written after the last flush
    ghost var blocks: seq<seq<byte>>
    ghost var pending: seq<byte>

    ghost predicate Valid()
      reads this, buf
    {
      && buf.Length == BLOCK && nr < BLOCK && Framed(wire)
      && Balanced(Parse(wire), buf[..nr], Transcript(blocks), pending)
    }

    constructor ()
      ensures Valid() && fresh(buf) && wire == [] && blocks == [] && pending == []
    {
      wire, nr, blocks, pending := [], 0, [], [];
      buf := new byte[BLOCK];
    }

    // Stores a piece behind what is buffered already.
    method Fill(piece: seq<byte>)
      requires buf.Length == BLOCK && nr + |piece| <= BLOCK
      modifies this`nr, buf
      ensures nr == old(nr) + |piece| && buf[..nr] == old(buf[..nr]) + piece
    {
      var k := 0;
      var at := nr;
      while k < |piece|
        invariant k <= |piece| && buf[..at + k] == old(buf[..nr]) + piece[..k]
      {
        buf[at + k] := piece[k];
        k := k + 1;
      }
      nr := at + |piece|;
    }

    // Sends the buffered bytes as one block.
    method Send(last: bool)
      requires buf.Length == BLOCK && nr <= BLOCK && Framed(wire)
      modifies this`wire, this`nr
      ensures nr == 0 && Framed(wire)
      ensures Parse(wire) == old(Parse(wire) + Data(buf[..nr])) + Mark(last)
    {
      ParseAppend(wire, buf[..nr], last);
      Associate(Parse(wire), Data(buf[..nr]), Mark(last));
      var blksize := 2 * nr + (if last then 1 else 0);
      wire := wire + (LeBytes(blksize, 2) + buf[..nr]);
      nr := 0;
    }

    method Write(data: seq<byte>) returns (cnt: nat)
      requires Valid()
      modifies this`wire, this`nr, this`pending, buf
      ensures Valid() && cnt == |data| && pending == old(pending) + data
    {
      hide Parse;
      hide Framed;
      hide Transcript;
      hide Balanced;
      var at := 0;
      while at < |data|
        invariant Valid() && at <= |data| && pending == old(pending) + data[..at]
      {
        var n := BLOCK - nr;
        if |data| - at < n {
          n := |data| - at;
        }
        BalancedMore(Parse(wire), buf[..nr], Transcript(blocks), pending, data[at..at + n]);
        Fill(data[at..at + n]);
        pending := pending + data[at..at + n];
        at := at + n;
        if nr == BLOCK {
          BalancedSent(Parse(wire), buf[..nr], Transcript(blocks), pending);
          Send(false);
          assert buf[..nr] == [];
        }
      }
      return |data|;
    }

    method Flush()
      requires Valid()
      modifies this`wire, this`nr, this`blocks, this`pending
      ensures Valid() && blocks == old(blocks) + [old(pending)] && pending == []
      ensures Parse(wire) == Transcript(blocks)
    {
      Send(true);
      blocks, pending := blocks + [pending], [];
      assert blocks[..|blocks| - 1] == old(blocks);
    }
  }

  // ------------------------------------------------------------------------------------------
  // The reader.

  predicate Closed(e: seq<Event>) {
    e != [] ==> e[|e| - 1] == End
  }

  // A stream that was not cut or damaged.
  predicate Sound(e: seq<Event>) {
    Closed(e) && forall i :: 0 <= i < |e| ==> e[i].Byte? || e[i].End?
  }

  lemma {:induction false} TranscriptSound(blocks: seq<seq<byte>>)
    ensures Sound(Transcript(blocks))
  {
    if blocks != [] {
      TranscriptSound(blocks[..|blocks| - 1]);
    }
  }

  // The stream ends inside a block, within the bytes asked for.
  predicate Cut(e: seq<Event>, cnt: nat) {
    |e| <= cnt && forall i :: 0 <= i < |e| ==> e[i].Byte?
  }

  // Within the bytes asked for, the data of a block are missing, or right behind them at the latest
  // there is a bad header.
  ghost predicate Defect(e: seq<Event>, cnt: nat) {
    exists k :: DefectAt(e, cnt, k)
  }

  predicate DefectAt(e: seq<Event>, cnt: nat, k: int) {
    && 0 <= k <= cnt && k < |e| && (forall i :: 0 <= i < k ==> e[i].Byte?)
    && (e[k] == Bad || (e[k] == Short && k < cnt))
  }

  // What a reader in the middle of a block has still to report.
  function Ahead(wire: seq<byte>, itotal: nat, nr: nat): seq<Event> {
    if |wire| < itotal then Data(wire) + [Short]
    else Data(wire[..itotal]) + Mark(nr == 1) + Parse(wire[itotal..])
  }

  // How reading a part of a block went.
  datatype Progress = Going | BlockEnd | StreamEnd | Error

  class Reader {
    // what the underlying stream has still to deliver
    var wire: seq<byte>
    // the bytes of the current block that have not been read
    var itotal: nat
    // whether the end of the current block has still to be returned
    var nr: nat

    ghost predicate Valid()
      reads this
    {
      nr <= 1
    }

    ghost function Events(): seq<Event>
      reads this
    {
      Ahead(wire, itotal, nr)
    }

    constructor (w: seq<byte>)
      ensures Valid() && Events() == Parse(w)
    {
      wire, itotal, nr := w, 0, 0;
      new;
      assert wire[0..] == w;
    }

    // Reads the header of the next block: 1, or 0 when there is none, or -1 when it is negative.
    method ReadHeader() returns (n: int)
      requires Valid() && itotal == 0 && nr == 0
      modifies this
      ensures Valid() && (n == 1 || n == 0 || n == -1)
      ensures n == 1 ==> Events() == old(Events()) && |wire| < |old(wire)|
      ensures n == 0 ==> old(Events()) == [] && wire == old(wire) && itotal == 0 && nr == 0
      ensures n == -1 ==> old(Events()) == [Bad]
    {
      assert wire[0..] == wire;
      if |wire| < 2 {
        return 0;
      }
      ghost var was := wire;
      var blksize := LittleEndian(wire[..2]);
      wire := wire[2..];
      if blksize >= 0x8000 {
        return -1;
      }
      itotal := blksize / 2;
      nr := blksize % 2;
      HeaderRead(was);
      return 1;
    }

    lemma HeaderRead(w: seq<byte>)
      requires |w| >= 2 && Header(w) < 0x8000
      ensures Ahead(w[2..], Header(w) / 2, Header(w) % 2) == Parse(w)
    {
      var size := Header(w) / 2;
      if |w| >= 2 + size {
        assert w[2..2 + size] == w[2..][..size];
        assert w[2 + size..] == w[2..][size..];
      }
    }

    // The underlying read: nothing at the end of the stream, otherwise at least one byte and
    // perhaps fewer than asked for.
    method ReadSome(buf: array<byte>, at: nat, n: nat) returns (m: nat)
      requires Valid() && 0 < n <= itotal && at + n <= buf.Length
      modifies this`wire, this`itotal, buf
      ensures m <= n && itotal == old(itotal) - m && |wire| == old(|wire|) - m
      ensures buf[..at] == old(buf[..at]) && buf[at + m..] == old(buf[at + m..])
      ensures Data(buf[at..at + m]) + Events() == old(Events())
      ensures m == 0 ==> Events() == [Short]
    {
      hide Ahead;
      if wire == [] {
        NothingAhead(itotal, nr);
        assert buf[at..at] == [];
        return 0;
      }
      m :| 1 <= m <= n && m <= |wire|;
      ghost var was := wire;
      var k := 0;
      while k < m
        invariant k <= m && buf[..at] == old(buf[..at]) && buf[at + m..] == old(buf[at + m..])
        invariant wire == was && itotal == old(itotal) && buf[at..at + k] == wire[..k]
      {
        buf[at + k] := wire[k];
        k := k + 1;
      }
      Taken(wire, itotal, nr, m);
      wire, itotal := wire[m..], itotal - m;
    }

    lemma NothingAhead(i: nat, f: nat)
      requires i > 0
      ensures Ahead([], i, f) == [Short] && Data([]) + [Short] == [Short]
    {
    }

    lemma Taken(w: seq<byte>, i: nat, f: nat, m: nat)
      requires m <= i && m <= |w|
      ensures Data(w[..m]) + Ahead(w[m..], i - m, f) == Ahead(w, i, f)
    {
      hide Data;
      if |w| < i {
        assert w == w[..m] + w[m..];
        DataConcat(w[..m], w[m..]);
      } else {
        assert w[m..][i - m..] == w[i..];
        assert w[..i] == w[..m] + w[m..i];
        assert w[m..][..i - m] == w[m..i];
        DataConcat(w[..m], w[m..i]);
      }
    }

    lemma Pieces(b: seq<byte>, at: nat, k: nat, m: nat)
      requires at + k + m <= |b|
      ensures b[at..at + k + m] == b[at..at + k] + b[at + k..at + k + m]
    {
    }

    // A write of m bytes at position at + k changes nothing before it and nothing behind it.
    lemma Untouched(b: seq<byte>, b': seq<byte>, at: nat, k: nat, m: nat, n: nat)
      requires |b| == |b'| && at + n <= |b| && k + m <= n
      requires b'[..at + k] == b[..at + k] && b'[at + k + m..] == b[at + k + m..]
      ensures b'[..at] == b[..at] && b'[at..at + k] == b[at..at + k] && b'[at + n..] == b[at + n..]
    {
      assert b'[..at] == b'[..at + k][..at] && b[..at] == b[..at + k][..at];
      assert b'[at..at + k] == b'[..at + k][at..] && b[at..at + k] == b[..at + k][at..];
      assert b'[at + n..] == b'[at + k + m..][n - k - m..] && b[at + n..] == b[at + k + m..][n - k - m..];
    }

    // Reads n bytes of the current block, however many underlying reads it takes, or fewer when the
    // stream ends inside the block.
    method ReadBytes(buf: array<byte>, at: nat, n: nat) returns (k: nat)
      requires Valid() && n <= itotal && at + n <= buf.Length
      modifies this`wire, this`itotal, buf
      ensures k <= n && itotal == old(itotal) - k && |wire| == old(|wire|) - k
      ensures buf[..at] == old(buf[..at]) && buf[at + n..] == old(buf[at + n..])
      ensures Data(buf[at..at + k]) + Events() == old(Events())
      ensures k < n ==> Events() == [Short]
    {
      hide Ahead;
      hide Data;
      k := 0;
      assert buf[at..at] == [];
      NothingSplit(Events());
      while k < n
        invariant k <= n && itotal == old(itotal) - k && |wire| == old(|wire|) - k
        invariant buf[..at] == old(buf[..at]) && buf[at + n..] == old(buf[at + n..])
        invariant Split(old(Events()), buf[at..at + k], Events())
      {
        ghost var was, ahead, b := buf[at..at + k], Events(), buf[..];
        var m := ReadSome(buf, at + k, n - k);
        Untouched(b, buf[..], at, k, m, n);
        if m == 0 {
          return;
        }
        SplitMore(old(Events()), was, ahead, buf[at + k..at + k + m], Events());
        Pieces(buf[..], at, k, m);
        k := k + m;
      }
    }

    // Reads what the current block still has of the bytes asked for.  When that exhausts the
    // block it stops there if the block was flushed, and looks ahead to the next header if not.
    method ReadPart(buf: array<byte>, at: nat, cnt: nat) returns (r: nat, p: Progress, ghost rest: seq<Event>)
      requires Valid() && at < cnt <= buf.Length
      modifies this, buf
      ensures Valid() && at <= r <= cnt
      ensures buf[..at] == old(buf[..at]) && buf[cnt..] == old(buf[cnt..])
      ensures Data(buf[at..r]) + rest == old(Events())
      ensures match p
              case Going => rest == Events() && |wire| < old(|wire|)
              case BlockEnd => rest == Events() && itotal == 0 && nr == 1
              case StreamEnd => rest == Events() == []
              case Error => (rest == [Short] && r < cnt) || rest == [Bad]
    {
      hide Ahead;
      var n := if cnt - at < itotal then cnt - at else itotal;
      var k := ReadBytes(buf, at, n);
      r, rest := at + k, Events();
      assert buf[cnt..] == buf[at + n..][cnt - (at + n)..];
      if k < n {
        p := Error;
      } else if itotal > 0 {
        p := Going;
      } else if nr == 1 {
        p := BlockEnd;
      } else {
        var h := ReadHeader();
        p := if h == 1 then Going else if h == 0 then StreamEnd else Error;
      }
    }

    // Reads at most cnt bytes.  The bytes are the next ones of the current block, all that were
    // asked for unless the block ends before; an empty result consumes exactly one block end.  A
    // stream that ends inside a block gives an empty result too, and its last bytes are lost.
    method Read(buf: array<byte>, cnt: nat) returns (r: int)
      requires Valid() && cnt <= buf.Length
      modifies this, buf
      ensures Valid() && -1 <= r <= cnt && buf[cnt..] == old(buf[cnt..])
      ensures r > 0 ==> old(Events()) == Data(buf[..r]) + Events()
      ensures 0 < r < cnt ==> Events() != [] && Events()[0] == End
      ensures r == 0 && cnt > 0 ==> old(Events()) == [End] + Events() || (Cut(old(Events()), cnt) && Events() == [])
      ensures r == 0 && cnt == 0 ==> old(Events()) == Events() || old(Events()) == [End] + Events()
      ensures r == -1 ==> Defect(old(Events()), cnt)
    {
      hide Ahead;
      hide Defect;
      hide Cut;
      hide Split;
      if itotal == 0 {
        if nr == 1 {
          EndDue(wire);
          nr := 0;
          return 0;
        }
        NothingSplit(old(Events()));
        var h := ReadHeader();
        if h == 0 {
          NothingSplit([]);
          CutIs([], [], cnt);
          return 0;
        } else if h == -1 {
          DefectIs(old(Events()), [], [Bad], cnt);
          return -1;
        }
      }
      r := 0;
      var p := Going;
      NothingSplit(Events());
      assert buf[..0] == [];
      while r < cnt && p == Going
        invariant Valid() && 0 <= r <= cnt && buf[cnt..] == old(buf[cnt..])
        invariant p == Going || p == BlockEnd
        invariant Split(old(Events()), buf[..r], Events())
        invariant p == BlockEnd ==> itotal == 0 && nr == 1
        decreases p == Going, |wire|
      {
        ghost var was, ahead, at := buf[..r], Events(), r;
        ghost var rest;
        var next;
        next, p, rest := ReadPart(buf, r, cnt);
        r := next;
        SplitMore(old(Events()), was, ahead, buf[at..r], rest);
        assert buf[..r] == was + buf[at..r];
        if p == StreamEnd {
          CutIs(old(Events()), buf[..r], cnt);
          return 0;
        } else if p == Error {
          DefectIs(old(Events()), buf[..r], rest, cnt);
          return -1;
        }
      }
      SplitIs(old(Events()), buf[..r], Events());
      if r < cnt {
        EndDue(wire);
        if r == 0 {
          nr := 0;
        }
      }
    }

    lemma EndDue(w: seq<byte>)
      ensures Ahead(w, 0, 1) == [End] + Ahead(w, 0, 0)
    {
      hide Parse;
      assert w[..0] == [] && Data([]) == [];
      assert Data([]) + Mark(true) == [End] && Data([]) + Mark(false) == [];
      assert [] + Parse(w[0..]) == Parse(w[0..]);
    }
  }

  lemma NothingSplit(e: seq<Event>)
    ensures Split(e, [], e)
  {
  }

  lemma SplitIs(total: seq<Event>, got: seq<byte>, ahead: seq<Event>)
    requires Split(total, got, ahead)
    ensures total == Data(got) + ahead && (got == [] ==> total == ahead)
  {
  }

  lemma CutIs(total: seq<Event>, got: seq<byte>, cnt: nat)
    requires Split(total, got, []) && |got| <= cnt
    ensures Cut(total, cnt)
  {
  }

  lemma DefectIs(total: seq<Event>, got: seq<byte>, rest: seq<Event>, cnt: nat)
    requires Split(total, got, rest) && |got| <= cnt
    requires (rest == [Short] && |got| < cnt) || rest == [Bad]
    ensures Defect(total, cnt)
  {
    assert DefectAt(total, cnt, |got|);
  }

  // All that was ahead is what has been read and what is ahead now.
  ghost predicate Split(total: seq<Event>, got: seq<byte>, ahead: seq<Event>) {
    total == Data(got) + ahead
  }

  lemma SplitMore(total: seq<Event>, got: seq<byte>, ahead: seq<Event>, more: seq<byte>, ahead': seq<Event>)
    requires Split(total, got, ahead) && ahead == Data(more) + ahead'
    ensures Split(total, got + more, ahead')
  {
    DataConcat(got, more);
  }

  // ------------------------------------------------------------------------------------------
  // Whole conversations.

  // What a series of reads reports.
  function Heard(results: seq<seq<byte>>): seq<Event> {
    if results == [] then []
    else
      var last := results[|results| - 1];
      Heard(results[..|results| - 1]) + (if last == [] then [End] else Data(last))
  }

  // The blocks that a reader puts together: an empty read ends one.
  function Assembled(results: seq<seq<byte>>): (r: (seq<seq<byte>>, seq<byte>)) {
    if results == [] then ([], [])
    else
      var (blocks, open) := Assembled(results[..|results| - 1]);
      var last := results[|results| - 1];
      if last == [] then (blocks + [open], []) else (blocks, open + last)
  }

  lemma {:induction false} AssembledHeard(results: seq<seq<byte>>)
    ensures Heard(results) == Transcript(Assembled(results).0) + Data(Assembled(results).1)
  {
    if results == [] {
    } else {
      var (blocks, open) := Assembled(results[..|results| - 1]);
      var last := results[|results| - 1];
      AssembledHeard(results[..|results| - 1]);
      if last == [] {
        assert (blocks + [open])[..|blocks|] == blocks;
      } else {
        DataConcat(open, last);
        Associate(Transcript(blocks), Data(open), Data(last));
      }
    }
  }

  // Behind a closed beginning the bytes come after every end.
  lemma EndBefore(b: seq<Event>, y: seq<byte>, i: nat)
    requires i < |b| + |y| && (b + Data(y))[i] == End
    ensures i < |b|
  {
  }

  lemma SameTail(a: seq<Event>, b: seq<Event>, x: seq<byte>, y: seq<byte>)
    requires Closed(a) && Closed(b) && a + Data(x) == b + Data(y)
    ensures a == b && x == y
  {
    var t := a + Data(x);
    if a != [] {
      assert t[|a| - 1] == End;
      EndBefore(b, y, |a| - 1);
    }
    if b != [] {
      assert t[|b| - 1] == End;
      EndBefore(a, x, |b| - 1);
    }
    SameLength(a, b, x, y);
  }

  lemma SameLength(a: seq<Event>, b: seq<Event>, x: seq<byte>, y: seq<byte>)
    requires |a| == |b| && a + Data(x) == b + Data(y)
    ensures a == b && x == y
  {
    var t := a + Data(x);
    assert a == t[..|a|] && b == t[..|a|];
    assert |t| == |a| + |x| == |a| + |y|;
    forall i | 0 <= i < |x| ensures x[i] == y[i] {
      assert t[|a| + i] == Byte(x[i]) && t[|a| + i] == Byte(y[i]);
    }
  }

  // A transcript tells the blocks.
  lemma {:induction false} TranscriptInjective(a: seq<seq<byte>>, b: seq<seq<byte>>)
    requires Transcript(a) == Transcript(b)
    ensures a == b
    decreases |a|
  {
    hide Transcript;
    hide Data;
    hide Sound;
    if a == [] || b == [] {
      NoBlocks(a);
      NoBlocks(b);
    } else {
      var (a', x, b', y) := (a[..|a| - 1], a[|a| - 1], b[..|b| - 1], b[|b| - 1]);
      TranscriptSound(a');
      TranscriptSound(b');
      LastBlock(a);
      LastBlock(b);
      SameTail(Transcript(a'), Transcript(b'), x, y);
      TranscriptInjective(a', b');
      assert a == a' + [x] && b == b' + [y];
    }
  }

  lemma NoBlocks(a: seq<seq<byte>>)
    ensures Transcript(a) == [] <==> a == []
  {
  }

  lemma LastBlock(a: seq<seq<byte>>)
    requires a != []
    ensures Transcript(a) != []
    ensures Transcript(a)[..|Transcript(a)| - 1] == Transcript(a[..|a| - 1]) + Data(a[|a| - 1])
  {
  }

  // Reads that report the transcript of some blocks put together exactly these blocks.
  lemma BlocksRecovered(results: seq<seq<byte>>, blocks: seq<seq<byte>>)
    requires Heard(results) == Transcript(blocks)
    ensures Assembled(results) == (blocks, [])
  {
    var (assembled, open) := Assembled(results);
    AssembledHeard(results);
    TranscriptSound(assembled);
    TranscriptSound(blocks);
    assert Transcript(blocks) + Data([]) == Transcript(blocks);
    SameTail(Transcript(assembled), Transcript(blocks), open, []);
    TranscriptInjective(assembled, blocks);
  }

  // A series of reads of any sizes reports, in order and once each, events of the stream; only at
  // the end of the stream do empty reads report nothing.
  method Listen(r: Reader, buf: array<byte>, sizes: seq<nat>) returns (results: seq<seq<byte>>, ghost n: nat)
    requires r.Valid() && Sound(r.Events()) && forall i :: 0 <= i < |sizes| ==> 0 < sizes[i] <= buf.Length
    modifies r, buf
    ensures r.Valid() && |results| == |sizes| && n <= |results|
    ensures old(r.Events()) == Heard(results[..n]) + r.Events()
    ensures n < |results| ==> r.Events() == [] && forall i :: n <= i < |results| ==> results[i] == []
  {
    hide Reader.Events;
    hide Heard;
    hide Sound;
    hide Data;
    hide Defect;
    hide Cut;
    results, n := [], 0;
    NothingHeard();
    var k := 0;
    while k < |sizes|
      invariant r.Valid() && Sound(r.Events()) && k == |results| && k <= |sizes| && n <= k
      invariant old(r.Events()) == Heard(results[..n]) + r.Events()
      invariant n < k ==> r.Events() == [] && forall i :: n <= i < k ==> results[i] == []
    {
      ghost var was := r.Events();
      var m := r.Read(buf, sizes[k]);
      SoundRead(was, buf[..if m < 0 then 0 else m], r.Events(), sizes[k], m);
      if was != [] {
        assert results[..n] == results;
        HeardMore(results, buf[..m], r.Events());
      }
      results, n := results + [buf[..m]], if was != [] then k + 1 else n;
      k := k + 1;
      assert results[..k] == results;
      assert was == [] ==> results[..n] == results[..k - 1][..n];
    }
  }

  lemma SoundNoDefect(e: seq<Event>, cnt: nat)
    requires Sound(e)
    ensures !Defect(e, cnt)
  {
  }

  // On a sound stream a read neither fails nor loses anything.
  lemma SoundRead(was: seq<Event>, got: seq<byte>, now: seq<Event>, cnt: nat, m: int)
    requires Sound(was) && cnt > 0 && -1 <= m <= cnt && |got| == if m < 0 then 0 else m
    requires m > 0 ==> was == Data(got) + now
    requires m == 0 ==> was == [End] + now || (Cut(was, cnt) && now == [])
    requires m == -1 ==> Defect(was, cnt)
    ensures m >= 0 && Sound(now)
    ensures was == [] ==> m == 0 && now == []
    ensures was != [] ==> was == (if m == 0 then [End] else Data(got)) + now
  {
    SoundNoDefect(was, cnt);
    if Cut(was, cnt) {
      SoundNotCut(was, cnt);
    }
    hide Sound;
    hide Defect;
    hide Cut;
    hide Data;
    if m > 0 {
      SoundRest(was, Data(got), now);
    } else if was != [] {
      SoundRest(was, [End], now);
    } else {
      assert now == [];
    }
  }

  lemma SoundNotCut(e: seq<Event>, cnt: nat)
    requires Sound(e) && Cut(e, cnt)
    ensures e == []
  {
  }

  lemma SoundRest(e: seq<Event>, front: seq<Event>, rest: seq<Event>)
    requires Sound(e) && e == front + rest
    ensures Sound(rest)
  {
    assert forall i :: 0 <= i < |rest| ==> rest[i] == e[|front| + i];
  }

  lemma NothingHeard()
    ensures forall e: seq<Event> :: Heard([]) + e == e
  {
  }

  lemma HeardMore(results: seq<seq<byte>>, x: seq<byte>, ahead: seq<Event>)
    ensures Heard(results) + ((if x == [] then [End] else Data(x)) + ahead) == Heard(results + [x]) + ahead
  {
    assert (results + [x])[..|results|] == results;
  }

  function Join(pieces: seq<seq<byte>>): seq<byte> {
    if pieces == [] then [] else Join(pieces[..|pieces| - 1]) + pieces[|pieces| - 1]
  }

  function JoinAll(pieces: seq<seq<seq<byte>>>): seq<seq<byte>> {
    if pieces == [] then [] else JoinAll(pieces[..|pieces| - 1]) + [Join(pieces[|pieces| - 1])]
  }

  lemma JoinMore(pieces: seq<seq<byte>>, j: nat)
    requires j < |pieces|
    ensures Join(pieces[..j + 1]) == Join(pieces[..j]) + pieces[j]
  {
    assert pieces[..j + 1][..j] == pieces[..j];
  }

  lemma JoinAllMore(pieces: seq<seq<seq<byte>>>, k: nat)
    requires k < |pieces|
    ensures JoinAll(pieces[..k + 1]) == JoinAll(pieces[..k]) + [Join(pieces[k])]
  {
    assert pieces[..k + 1][..k] == pieces[..k];
  }

  // Writes the pieces of one block and flushes.
  method Say(w: Writer, pieces: seq<seq<byte>>)
    requires w.Valid() && w.pending == []
    modifies w, w.buf
    ensures w.Valid() && w.pending == [] && w.blocks == old(w.blocks) + [Join(pieces)]
    ensures Parse(w.wire) == Transcript(w.blocks)
  {
    hide Writer.Valid;
    hide Join;
    var j := 0;
    assert Join([]) == [] by { JoinNone(); }
    while j < |pieces|
      invariant j <= |pieces| && w.Valid() && w.blocks == old(w.blocks) && w.pending == Join(pieces[..j])
    {
      var _ := w.Write(pieces[j]);
      JoinMore(pieces, j);
      j := j + 1;
    }
    assert pieces[..j] == pieces;
    w.Flush();
  }

  lemma JoinNone()
    ensures Join([]) == []
  {
  }

  // Sends the given blocks, each in pieces of any length.
  method SayAll(pieces: seq<seq<seq<byte>>>) returns (w: Writer)
    ensures fresh(w) && w.Valid() && w.blocks == JoinAll(pieces) && Parse(w.wire) == Transcript(w.blocks)
  {
    w := new Writer();
    var k := 0;
    while k < |pieces|
      invariant k <= |pieces| && w.Valid() && fresh(w) && fresh(w.buf)
      invariant w.blocks == JoinAll(pieces[..k]) && w.pending == []
      invariant Parse(w.wire) == Transcript(w.blocks)
    {
      Say(w, pieces[k]);
      JoinAllMore(pieces, k);
      k := k + 1;
    }
    assert pieces[..k] == pieces;
  }

  // Sends blocks and reads them back with requests of any sizes.  What has been read is a part of
  // the blocks' transcript; once the stream is exhausted the reader has put together the blocks.
  method Converse(pieces: seq<seq<seq<byte>>>, buf: array<byte>, sizes: seq<nat>)
    returns (results: seq<seq<byte>>, ghost n: nat, ghost rest: seq<Event>)
    requires forall i :: 0 <= i < |sizes| ==> 0 < sizes[i] <= buf.Length
    modifies buf
    ensures n <= |results| == |sizes| && Transcript(JoinAll(pieces)) == Heard(results[..n]) + rest
    ensures rest == [] ==> Assembled(results[..n]) == (JoinAll(pieces), [])
    ensures n < |results| ==> rest == [] && forall i :: n <= i < |results| ==> results[i] == []
  {
    hide Assembled;
    hide Heard;
    hide JoinAll;
    hide Parse;
    hide Transcript;
    hide Reader.Events;
    var w := SayAll(pieces);
    TranscriptSound(w.blocks);
    var r := new Reader(w.wire);
    results, n := Listen(r, buf, sizes);
    rest := r.Events();
    if rest == [] {
      assert Heard(results[..n]) + [] == Heard(results[..n]);
      BlocksRecovered(results[..n], w.blocks);
    }
  }
}
