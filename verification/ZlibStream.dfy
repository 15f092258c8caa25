// The whole decompressor: the loop over blocks, and the zlib framing of RFC 1950 around it.
module ZlibStream {
  import opened Bits
  import opened HuffmanTrie
  import opened HuffmanTable
  import opened Bytes
  import opened BitReader
  import opened Window
  import opened Inflate
  import opened DeflateSpec
  import opened Deflate
  import opened Straying
  import Adler32

  // The stream cannot be read to its end within limit bits.
  ghost predicate NoStream(w: nat, start: nat, limit: nat) {
    forall at: nat, out: seq<byte>, stray: bool :: Reads(w, start, at, out, stray) ==> at > limit
  }

  // Whatever is read from the stream, it starts with part.
  ghost predicate CertainOutput(w: nat, start: nat, part: seq<byte>) {
    forall at: nat, out: seq<byte>, stray: bool :: Reads(w, start, at, out, stray) ==> part <= out
  }

  ghost predicate StreamLeft(status: Status, w: nat, start: nat, at: nat, out: seq<byte>, stray: bool, wrapping: bool, limit: nat) {
    match status
    case Continue => false
    case Done => Reads(w, start, at, out, stray)
    case HasMoreOutput => CertainOutput(w, start, out)
    case Failed => NoStream(w, start, limit)
    case Unspecified => Outside(w, start, wrapping)
  }

  lemma BlockAppended(w: nat, start: nat, k: nat, a: nat, o: seq<byte>, s: bool, final: bool, at: nat, out: seq<byte>, here: bool)
    requires Blocks(w, start, [], k, a, o, false, s) && BlockRead(w, a, o, final, at, out, here)
    ensures Blocks(w, start, [], k + 1, at, out, final, s || here)
  {
    hide BlockRead;
    assert Either(s, here, s || here);
  }

  // What a block that is not read to its end leaves behind decides about the stream.
  lemma BlockDecides(status: Status, w: nat, start: nat, k: nat, a: nat, o: seq<byte>, s: bool, final: bool,
                     at: nat, out: seq<byte>, stray: bool, wrapping: bool, limit: nat)
    requires Blocks(w, start, [], k, a, o, false, s)
    requires BlockLeft(status, w, a, o, final, at, out, stray, wrapping, limit) && status != Done
    ensures StreamLeft(status, w, start, at, out, stray, wrapping, limit)
  {
    hide Blocks;
    hide BlockRead;
    hide BlockOutside;
    forall at': nat, out': seq<byte>, any: bool | Reads(w, start, at', out', any)
      ensures (status == Failed ==> at' > limit) && (status == HasMoreOutput ==> out <= out')
    {
      var j: nat :| Blocks(w, start, [], j, at', out', true, any);
      var f, at1, out1, here := NextBlock(w, start, [], k, a, o, s, j, at', out', any);
      if status == HasMoreOutput {
        PrefixTransitive(out, out1, out');
      }
    }
  }

  lemma {:induction false} ShrSmaller(x: nat, n: nat)
    requires x > 0 && n > 0
    ensures Shr(x, n) < x
  {
    if n > 1 {
      ShrSmaller(x, n - 1);
    }
  }

  lemma StreamShrinks(w: nat, at: nat, at': nat)
    requires Shr(w, at) > 0 && at' > at
    ensures Shr(w, at') < Shr(w, at)
  {
    ShrShr(w, at, at' - at);
    ShrSmaller(Shr(w, at), at' - at);
  }

  // All blocks up to the final one: what is read from the stream, all of it when done, its beginning
  // when the caller does not come back for more.
  method InflateAll(d: Decompressor, r: Reader, o: Out) returns (status: Status, ghost stray: bool)
    requires r.Valid() && r.numBits <= 61 && WindowOk(o) && o.flat == []
    requires d.Valid() && d.Footprint() && r !in d.Repr && d.Apart(o)
    modifies r, o, o.buf, d.Repr
    ensures r.Valid() && r.numBits <= 61 && WindowOk(o) && (o.buf == old(o.buf) || fresh(o.buf)) && d.Apart(o)
    ensures StreamLeft(status, r.whole, old(r.taken), r.taken, o.flat, stray, o.wrapping, 8 * r.total)
    ensures status == HasMoreOutput ==> o.resumes == 0 && o.cur == o.buf.Length
  {
    hide TrieOk;
    hide Shr;
    hide Pending;
    hide BlockLeft;
    hide Blocks;
    hide StreamLeft;
    ghost var start, k: nat := r.taken, 0;
    stray := false;
    BlocksNone(r.whole, start);
    while true
      invariant r.Valid() && r.numBits <= 61 && WindowOk(o) && d.Apart(o)
      invariant o.buf == old(o.buf) || fresh(o.buf)
      invariant Blocks(r.whole, start, [], k, r.taken, o.flat, false, stray)
      decreases r.Stream()
    {
      ghost var a, out, here := r.taken, o.flat, false;
      var final;
      status, final, here := d.Block(r, o);
      if status != Done {
        BlockDecides(status, r.whole, start, k, a, out, stray, final, r.taken, o.flat, here, o.wrapping, 8 * r.total);
        stray := here;
        return;
      }
      BlockDone(r.whole, start, k, a, out, stray, final, r.taken, o.flat, here, o.wrapping, 8 * r.total);
      stray, k := stray || here, k + 1;
      if final {
        return;
      }
      StreamShrinks(r.whole, a, r.taken);
    }
  }

  lemma BlocksNone(w: nat, start: nat)
    ensures Blocks(w, start, [], 0, start, [], false, false)
  {
  }

  lemma BlockDone(w: nat, start: nat, k: nat, a: nat, o: seq<byte>, s: bool, final: bool,
                  at: nat, out: seq<byte>, here: bool, wrapping: bool, limit: nat)
    requires Blocks(w, start, [], k, a, o, false, s) && BlockLeft(Done, w, a, o, final, at, out, here, wrapping, limit)
    ensures Blocks(w, start, [], k + 1, at, out, final, s || here)
    ensures final ==> StreamLeft(Done, w, start, at, out, s || here, wrapping, limit)
  {
    hide Blocks;
    hide BlockRead;
    BlockAppended(w, start, k, a, o, s, final, at, out, here);
  }

  // ---- from chunks of input to pieces of output ----

  // Everything handed out and still waiting in the buffer.
  function Produced(o: Out): seq<byte>
    requires o.Valid()
    reads o, o.buf
  {
    o.delivered + o.buf[o.from..o.cur]
  }

  // What may come out of a stream from which out is read up to position at, limit being the end of
  // the input: all of it when done, its beginning while the caller has no more room.
  ghost predicate Agrees(status: Status, got: seq<byte>, at: nat, out: seq<byte>, limit: nat) {
    match status
    case Continue => false
    case Done => got == out
    case HasMoreOutput => got <= out
    case Failed => at > limit
    case Unspecified => false
  }

  // Done is right about the meaning exactly where the stream does not stray; where the model stops, the
  // stream takes the code outside the definition and means nothing.
  ghost predicate RightIff(status: Status, w: nat, start: nat, got: seq<byte>, wrapping: bool) {
    && (status == Unspecified ==> Outside(w, start, wrapping))
    && (status == Done || status == Unspecified ==> (Meant(w, start, got) <==> !Strays(w, start) && !Outside(w, start, wrapping)))
  }

  // The outcome of InflateAll in terms of the stream.
  lemma LeftAgrees(status: Status, w: nat, start: nat, end: nat, got: seq<byte>, stray: bool, wrapping: bool, limit: nat)
    requires StreamLeft(status, w, start, end, got, stray, wrapping, limit)
    ensures forall at: nat, out: seq<byte>, s: bool :: Reads(w, start, at, out, s) ==> Agrees(status, got, at, out, limit)
    ensures RightIff(status, w, start, got, wrapping)
  {
    hide Reads;
    hide Meant;
    hide Strays;
    hide Outside;
    forall at: nat, out: seq<byte>, s: bool | Reads(w, start, at, out, s) ensures Agrees(status, got, at, out, limit) {
      if status == Done {
        ReadOnce(w, start, end, got, stray, at, out, s);
      } else if status == Unspecified {
        OutsideStream(w, start, wrapping, at, out, s);
      }
    }
    if status == Done {
      StrayIff(w, start, end, got, stray);
    }
    if Outside(w, start, wrapping) {
      OutsideMeant(w, start, got, wrapping, end, stray);
    }
  }

  lemma OutsideMeant(w: nat, start: nat, got: seq<byte>, wrapping: bool, end: nat, stray: bool)
    requires Outside(w, start, wrapping)
    ensures !Meant(w, start, got) && !Reads(w, start, end, got, stray)
  {
    hide Outside;
    hide Reads;
    OutsideStream(w, start, wrapping, end, got, stray);
    forall at: nat ensures !Means(w, start, at, got) {
      OutsideStream(w, start, wrapping, at, got, false);
    }
  }

  // Enough room for the output makes the stream run to its end.
  lemma RoomAgrees(status: Status, got: seq<byte>, room: nat, at: nat, out: seq<byte>, limit: nat)
    requires Agrees(status, got, at, out, limit) && at <= limit && |out| < room
    requires status == HasMoreOutput ==> |got| == room
    ensures status == Done && got == out
  {
  }

  // What is read ends within the input if some of it is left over.
  ghost predicate ReadsWithin(w: nat, start: nat, got: seq<byte>, unread: nat, limit: nat) {
    exists at: nat, stray: bool :: Reads(w, start, at, got, stray) && (unread > 0 ==> at + 8 * unread <= limit)
  }

  // Raw DEFLATE data, in any chunks, into a flat or circular buffer of any size that the caller
  // comes back to any number of times: the result is what is read from the stream, all of it unless the
  // room runs out, and its meaning if and only if the stream never strays.
  method Decompress(chunks: seq<seq<byte>>, size: nat, wrapping: bool, rounds: nat)
    returns (status: Status, got: seq<byte>, unread: nat)
    requires size > 0 && (wrapping ==> size >= 32768)
    ensures var (w, limit) := (LittleEndian(Flatten(chunks)), 8 * |Flatten(chunks)|);
            && (forall at: nat, out: seq<byte>, stray: bool :: Reads(w, 0, at, out, stray) ==> Agrees(status, got, at, out, limit))
            && (forall at: nat, out: seq<byte>, stray: bool ::
                  Reads(w, 0, at, out, stray) && at <= limit && |out| < Capacity(wrapping, size, rounds) ==> status == Done && got == out)
            && (status == Done ==> ReadsWithin(w, 0, got, unread, limit))
            && RightIff(status, w, 0, got, wrapping)
    ensures status == HasMoreOutput ==> |got| == Capacity(wrapping, size, rounds)
  {
    hide TrieOk;
    hide Reads;
    hide Agrees;
    hide RightIff;
    hide NoStream;
    hide Outside;
    hide CertainOutput;
    hide Out.ValidAt;
    hide Reader.Rest;
    hide Flatten;
    hide Shr;
    hide Pending;
    var r := new Reader(chunks);
    var o := new Out(size, wrapping, rounds);
    var d := new Decompressor();
    ghost var stray;
    status, stray := InflateAll(d, r, o);
    o.Conserved();
    got := Produced(o);
    unread := r.Unread();
    LeftAgrees(status, r.whole, 0, r.taken, got, stray, wrapping, 8 * r.total);
    if status == HasMoreOutput {
      o.Full();
    }
    forall at: nat, out: seq<byte>, s: bool | Reads(r.whole, 0, at, out, s) && at <= 8 * r.total && |out| < Capacity(wrapping, size, rounds)
      ensures status == Done && got == out
    {
      RoomAgrees(status, got, Capacity(wrapping, size, rounds), at, out, 8 * r.total);
    }
  }

  // ---- the zlib format, section 2.2 of RFC 1950 ----

  // Check bits, no preset dictionary, method 8; a circular buffer must hold the declared window.
  predicate HeaderOk(cmf: nat, flg: nat, size: nat, wrapping: bool) {
    && (cmf * 256 + flg) % 31 == 0 && (flg / 32) % 2 == 0 && cmf % 16 == 8
    && (wrapping ==> Pow2(8 + cmf / 16) <= 32768 && Pow2(8 + cmf / 16) <= size)
  }

  ghost predicate FramedOk(w: nat, size: nat, wrapping: bool) {
    HeaderOk(Shr(w, 0) % 256, Shr(w, 8) % 256, size, wrapping)
  }

  // n bytes at position a, most significant first.
  ghost function BigEndian(w: nat, a: nat, n: nat): nat {
    if n == 0 then 0 else BigEndian(w, a, n - 1) * 256 + Shr(w, a + 8 * (n - 1)) % 256
  }

  function AdlerOf(out: seq<byte>): nat {
    Adler32.Pack(Adler32.Adler(Adler32.Sums(1, 0), out))
  }

  datatype ZStatus = ZDone | ZMismatch | ZMore | ZFailed | ZUnspecified

  // Agreement for a framed stream: done exactly on a matching checksum.
  ghost predicate ZAgrees(status: ZStatus, got: seq<byte>, w: nat, at: nat, out: seq<byte>, limit: nat) {
    match status
    case ZDone => got == out && BigEndian(w, Aligned(at), 4) == AdlerOf(out)
    case ZMismatch => got == out && BigEndian(w, Aligned(at), 4) != AdlerOf(out)
    case ZMore => got <= out
    case ZFailed => at > limit
    case ZUnspecified => false
  }

  // The framed data mean out, and the stored checksum behind them is its checksum or is not.
  ghost predicate Framed(w: nat, out: seq<byte>, same: bool) {
    exists at: nat :: Means(w, 16, at, out) && (same <==> BigEndian(w, Aligned(at), 4) == AdlerOf(out))
  }

  // A verdict is right exactly where the stream neither strays nor takes the code outside the definition.
  ghost predicate ZRightIff(status: ZStatus, w: nat, got: seq<byte>, wrapping: bool) {
    && (status == ZUnspecified ==> Outside(w, 16, wrapping))
    && (status == ZDone || status == ZMismatch || status == ZUnspecified ==>
          (Framed(w, got, status == ZDone) <==> !Strays(w, 16) && !Outside(w, 16, wrapping)))
  }

  // Skips to a byte boundary and reads the stored checksum.
  method ReadTrailer(r: Reader) returns (z: nat)
    requires r.Valid() && r.numBits <= 61
    modifies r
    ensures z == BigEndian(r.whole, Aligned(old(r.taken)), 4)
  {
    hide Shr;
    hide Pending;
    AlignedTaken(r.taken, r.numBits);
    r.Drop(r.numBits % 8);
    ghost var a := r.taken;
    z := 0;
    var counter := 0;
    while counter < 4
      invariant 0 <= counter <= 4 && r.Valid() && r.numBits <= 61 && r.numBits % 8 == 0
      invariant r.taken == a + 8 * counter
      invariant z == BigEndian(r.whole, a, counter)
    {
      var s: nat;
      s := RawByte(r);
      z := z * 256 + s;
      counter := counter + 1;
    }
  }

  // The status of the block loop, once the checksum of everything produced is compared.
  lemma FramedAgrees(status: Status, zstatus: ZStatus, got: seq<byte>, w: nat, end: nat, stray: bool, wrapping: bool, limit: nat, z: nat)
    requires StreamLeft(status, w, 16, end, got, stray, wrapping, limit)
    requires status == Done ==> z == BigEndian(w, Aligned(end), 4) && zstatus == (if z == AdlerOf(got) then ZDone else ZMismatch)
    requires status != Done ==> zstatus == (if status == HasMoreOutput then ZMore else if status == Failed then ZFailed else ZUnspecified)
    ensures forall at: nat, out: seq<byte>, s: bool :: Reads(w, 16, at, out, s) ==> ZAgrees(zstatus, got, w, at, out, limit)
    ensures ZRightIff(zstatus, w, got, wrapping)
  {
    hide Reads;
    hide Strays;
    hide Outside;
    hide BigEndian;
    LeftAgrees(status, w, 16, end, got, stray, wrapping, limit);
    forall at: nat, out: seq<byte>, s: bool | Reads(w, 16, at, out, s) ensures ZAgrees(zstatus, got, w, at, out, limit) {
      assert Agrees(status, got, at, out, limit);
      if status == Done {
        ReadOnce(w, 16, end, got, stray, at, out, s);
      }
    }
    if status == Done && Meant(w, 16, got) {
      var at: nat :| Means(w, 16, at, got);
      ReadOnce(w, 16, end, got, stray, at, got, false);
    }
  }

  // The DEFLATE data and the stored checksum after them.
  method UncompressBody(r: Reader, size: nat, wrapping: bool, rounds: nat) returns (zstatus: ZStatus, got: seq<byte>)
    requires r.Valid() && r.numBits <= 61 && r.taken == 16 && size > 0 && (wrapping ==> size >= 32768)
    modifies r
    ensures forall at: nat, out: seq<byte>, s: bool :: Reads(r.whole, 16, at, out, s) ==> ZAgrees(zstatus, got, r.whole, at, out, 8 * r.total)
    ensures ZRightIff(zstatus, r.whole, got, wrapping)
    ensures zstatus == ZMore ==> |got| == Capacity(wrapping, size, rounds)
  {
    hide TrieOk;
    hide Reads;
    hide ZAgrees;
    hide ZRightIff;
    hide StreamLeft;
    hide BigEndian;
    hide Shr;
    hide Pending;
    hide AdlerOf;
    var o := new Out(size, wrapping, rounds);
    var d := new Decompressor();
    var status;
    ghost var stray;
    status, stray := InflateAll(d, r, o);
    o.Conserved();
    got := Produced(o);
    ghost var end := r.taken;
    if status == HasMoreOutput {
      o.Full();
    }
    var z := 0;
    if status == Done {
      z := ReadTrailer(r);
      var matches := ChecksumMatches(got, z);
      zstatus := if matches then ZDone else ZMismatch;
    } else {
      zstatus := if status == HasMoreOutput then ZMore else if status == Failed then ZFailed else ZUnspecified;
    }
    FramedAgrees(status, zstatus, got, r.whole, end, stray, wrapping, 8 * r.total, z);
  }

  method ChecksumMatches(got: seq<byte>, z: nat) returns (same: bool)
    ensures same <==> z == AdlerOf(got)
  {
    var check := Adler32.Checksum(1, got);
    same := check == z;
  }

  // A zlib stream: rejected on a bad header; otherwise it agrees with what is read from the DEFLATE
  // data, and is done exactly when the stored checksum is the checksum of that output.
  method Uncompress(chunks: seq<seq<byte>>, size: nat, wrapping: bool, rounds: nat)
    returns (zstatus: ZStatus, got: seq<byte>)
    requires size > 0 && (wrapping ==> size >= 32768)
    ensures var (w, limit) := (LittleEndian(Flatten(chunks)), 8 * |Flatten(chunks)|);
            if FramedOk(w, size, wrapping)
            then
              && (forall at: nat, out: seq<byte>, s: bool :: Reads(w, 16, at, out, s) ==> ZAgrees(zstatus, got, w, at, out, limit))
              && ZRightIff(zstatus, w, got, wrapping)
            else zstatus == ZFailed && got == []
    ensures zstatus == ZMore ==> |got| == Capacity(wrapping, size, rounds)
  {
    hide Reads;
    hide ZRightIff;
    hide ZAgrees;
    hide Shr;
    hide Pending;
    hide HeaderOk;
    hide Reader.Rest;
    hide Flatten;
    var r := new Reader(chunks);
    var cmf, flg: nat;
    cmf := r.TakeByte();
    flg := r.TakeByte();
    if !HeaderOk(cmf, flg, size, wrapping) {
      return ZFailed, [];
    }
    zstatus, got := UncompressBody(r, size, wrapping, rounds);
  }
}
