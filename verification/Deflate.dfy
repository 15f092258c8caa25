// The decompressor above the compressed block: stored blocks, code tables from the fixed and
// dynamic headers, and the loop over blocks.
module Deflate {
  import opened Arithmetic
  import opened Bits
  import opened HuffmanCode
  import opened HuffmanTrie
  import opened HuffmanTable
  import opened Bytes
  import opened Sequences
  import opened BitReader
  import opened Window
  import opened Inflate
  import opened DeflateSpec
  import opened DynamicBlock

  // ---- bytes in the stream ----

  lemma Pow2Bytes()
    ensures Pow2(8) == 256 && Pow2(16) == 65536
  {
    Pow2Table();
    Pow2Byte(8);
  }

  lemma ShrByte(x: nat)
    ensures Shr(x, 8) == x / 256
  {
    DivMod(x, 8);
    Pow2Bytes();
  }

  lemma Low16(x: nat)
    ensures x % 65536 == x % 256 + 256 * ((x / 256) % 256)
  {
    var y := x / 256;
    assert x == 256 * y + x % 256 && y == 256 * (y / 256) + y % 256;
    DivisionIs(x, 65536, y / 256);
  }

  lemma TwoBytes(w: nat, at: nat)
    ensures Field(w, at, 16) == Shr(w, at) % 256 + 256 * (Shr(w, at + 8) % 256)
  {
    hide Shr;
    hide Pow2;
    ShrShr(w, at, 8);
    ShrByte(Shr(w, at));
    Low16(Shr(w, at));
    Pow2Bytes();
  }

  lemma AlignedTaken(taken: nat, numBits: nat)
    requires (taken + numBits) % 8 == 0
    ensures taken + numBits % 8 == Aligned(taken)
  {
  }

  lemma StillAligned(taken: nat, n: nat, n': nat)
    requires (taken + n) % 8 == 0 && n % 8 == 0 && (taken + 8 + n') % 8 == 0
    ensures n' % 8 == 0
  {
  }

  // One raw byte: from the bit buffer while it holds any, straight from the input otherwise.
  method RawByte(r: Reader) returns (c: byte)
    requires r.Valid() && r.numBits <= 61 && r.numBits % 8 == 0
    modifies r
    ensures r.Valid() && r.numBits <= 61 && r.numBits % 8 == 0
    ensures c == Shr(r.whole, old(r.taken)) % 256 && r.taken == old(r.taken) + 8
  {
    hide Pow2;
    hide Shr;
    hide Pending;
    hide Reader.Rest;
    if r.numBits > 0 {
      Pow2Bytes();
      ghost var (at, n) := (r.taken, r.numBits);
      c := r.GetBits(8);
      StillAligned(at, n, r.numBits);
    } else {
      c := r.TakeByte();
    }
  }

  method RawHeader(r: Reader) returns (len: nat, check: nat)
    requires r.Valid() && r.numBits <= 61 && r.numBits % 8 == 0
    modifies r
    ensures r.Valid() && r.numBits <= 61 && r.numBits % 8 == 0
    ensures len == Field(r.whole, old(r.taken), 16) && check == Field(r.whole, old(r.taken) + 16, 16)
    ensures r.taken == old(r.taken) + 32
  {
    hide Shr;
    hide Pending;
    hide Field;
    TwoBytes(r.whole, r.taken);
    TwoBytes(r.whole, r.taken + 16);
    var b0: nat, b1: nat, b2: nat, b3: nat;
    b0 := RawByte(r);
    b1 := RawByte(r);
    b2 := RawByte(r);
    b3 := RawByte(r);
    len, check := b0 + 256 * b1, b2 + 256 * b3;
  }

  // ---- stored blocks ----

  // done bytes of the stored data at position a are out.
  ghost predicate StoredAt(w: nat, a: nat, out0: seq<byte>, done: nat, at: nat, out: seq<byte>) {
    at == a + 8 * done && out == out0 + BytesAt(w, a, done)
  }

  lemma StoredNone(w: nat, a: nat, out0: seq<byte>)
    ensures StoredAt(w, a, out0, 0, a, out0)
  {
  }

  lemma StoredNext(w: nat, a: nat, out0: seq<byte>, done: nat, at: nat, out: seq<byte>)
    requires StoredAt(w, a, out0, done, at, out)
    ensures StoredAt(w, a, out0, done + 1, at + 8, out + [Shr(w, at) % 256])
  {
    assert out0 + (BytesAt(w, a, done) + [Shr(w, at) % 256]) == out + [Shr(w, at) % 256];
  }

  lemma StoredIs(w: nat, a: nat, out0: seq<byte>, done: nat, at: nat, out: seq<byte>)
    requires StoredAt(w, a, out0, done, at, out)
    ensures out == out0 + BytesAt(w, a, done)
  {
  }

  lemma StoredPrefix(w: nat, a: nat, out0: seq<byte>, done: nat, len: nat, at: nat, out: seq<byte>)
    requires StoredAt(w, a, out0, done, at, out) && done <= len
    ensures out <= out0 + BytesAt(w, a, len)
  {
    BytesAtPrefix(w, a, done, len);
  }

  // A byte that is already taken from the input goes out, when there is room.
  method OutputByte(o: Out, b: byte) returns (ok: bool)
    requires o.Valid()
    modifies o, o.buf
    ensures o.Valid() && (o.buf == old(o.buf) || fresh(o.buf)) && o.buf.Length >= old(o.buf.Length)
    ensures if ok then o.flat == old(o.flat) + [b]
            else o.flat == old(o.flat) && o.resumes == 0 && o.cur == o.buf.Length
  {
    o.Produced();
    if o.cur >= o.buf.Length {
      ok := o.MakeRoom();
      if !ok {
        return;
      }
    }
    o.PutByte(b);
    ok := true;
  }

  // The part of the stored data that is still in the bit buffer.
  method StoredFromBuffer(r: Reader, o: Out, len: nat) returns (ok: bool, counter: nat)
    requires r.Valid() && r.numBits <= 61 && r.numBits % 8 == 0 && WindowOk(o)
    modifies r, o, o.buf
    ensures r.Valid() && r.numBits <= 61 && WindowOk(o) && (o.buf == old(o.buf) || fresh(o.buf))
    ensures counter <= len && r.taken >= old(r.taken)
    ensures ok ==> StoredAt(r.whole, old(r.taken), old(o.flat), len - counter, r.taken, o.flat)
                   && (counter == 0 || r.numBits == 0)
    ensures !ok ==> o.resumes == 0 && o.cur == o.buf.Length
                    && o.flat == old(o.flat) + BytesAt(r.whole, old(r.taken), len - counter)
  {
    hide Shr;
    hide Pending;
    hide StoredAt;
    hide BytesAt;
    hide Reader.Rest;
    hide Out.ValidAt;
    ghost var a, out0 := r.taken, o.flat;
    counter := len;
    StoredNone(r.whole, a, out0);
    while counter > 0 && r.numBits > 0
      invariant r.Valid() && r.numBits <= 61 && r.numBits % 8 == 0 && WindowOk(o)
      invariant o.buf == old(o.buf) || fresh(o.buf)
      invariant counter <= len && StoredAt(r.whole, a, out0, len - counter, r.taken, o.flat)
      invariant r.taken >= a
    {
      StoredNext(r.whole, a, out0, len - counter, r.taken, o.flat);
      StoredIs(r.whole, a, out0, len - counter, r.taken, o.flat);
      var b := RawByte(r);
      ok := OutputByte(o, b);
      if !ok {
        return;
      }
      counter := counter - 1;
    }
    ok := true;
  }

  // The rest, copied in runs as long as input, output room and the block allow.
  method StoredFromInput(r: Reader, o: Out, len: nat) returns (status: Status, counter: nat)
    requires r.Valid() && r.numBits == 0 && WindowOk(o)
    modifies r, o, o.buf
    ensures r.Valid() && r.numBits == 0 && WindowOk(o) && (o.buf == old(o.buf) || fresh(o.buf))
    ensures counter <= len && StoredAt(r.whole, old(r.taken), old(o.flat), len - counter, r.taken, o.flat)
    ensures status == Done || status == HasMoreOutput || status == Failed
    ensures status == Done ==> counter == 0
    ensures status == HasMoreOutput ==> o.resumes == 0 && o.cur == o.buf.Length
    ensures status == Failed ==> r.taken >= 8 * r.total && counter > 0
  {
    hide Shr;
    hide Pending;
    hide StoredAt;
    hide Out.ValidAt;
    ghost var a, out0 := r.taken, o.flat;
    counter := len;
    StoredNone(r.whole, a, out0);
    while counter > 0
      invariant r.Valid() && r.numBits == 0 && WindowOk(o)
      invariant o.buf == old(o.buf) || fresh(o.buf)
      invariant counter <= len && StoredAt(r.whole, a, out0, len - counter, r.taken, o.flat)
    {
      o.Produced();
      if o.cur >= o.buf.Length {
        var ok := o.MakeRoom();
        if !ok {
          return HasMoreOutput, counter;
        }
      }
      var more := r.MoreInput();
      if !more {
        return Failed, counter;
      }
      var n := Min(Min(o.buf.Length - o.cur, |r.chunk| - r.pos), counter);
      CopyRun(r, o, n, a, out0, len - counter);
      counter := counter - n;
    }
    status := Done;
  }

  // A memcpy of n bytes from the input chunk to the output buffer.
  method CopyRun(r: Reader, o: Out, n: nat, ghost a: nat, ghost out0: seq<byte>, ghost done: nat)
    requires r.Valid() && r.numBits == 0 && o.Valid()
    requires n <= o.buf.Length - o.cur && n <= |r.chunk| - r.pos
    requires StoredAt(r.whole, a, out0, done, r.taken, o.flat)
    modifies r, o.buf, o`flat, o`cur
    ensures r.Valid() && r.numBits == 0 && o.Valid()
    ensures StoredAt(r.whole, a, out0, done + n, r.taken, o.flat)
  {
    hide Shr;
    hide Pending;
    hide StoredAt;
    var i := 0;
    while i < n
      invariant 0 <= i <= n && r.Valid() && r.numBits == 0 && o.Valid()
      invariant n - i <= o.buf.Length - o.cur
      invariant StoredAt(r.whole, a, out0, done + i, r.taken, o.flat)
    {
      StoredNext(r.whole, a, out0, done + i, r.taken, o.flat);
      var b := r.TakeByte();
      o.PutByte(b);
      i := i + 1;
    }
  }

  // ---- what a block leaves behind ----

  // A failure is a block that cannot be read within the input; output handed over before the end is
  // certain; the model stops where a block takes the code outside the definition.
  ghost predicate BlockLeft(status: Status, w: nat, at0: nat, out0: seq<byte>, final: bool,
                            at: nat, out: seq<byte>, stray: bool, wrapping: bool, limit: nat) {
    match status
    case Continue => false
    case Done => BlockRead(w, at0, out0, final, at, out, stray) && at > at0
    case HasMoreOutput => Certain(w, at0, out0, out)
    case Failed => Unreadable(w, at0, out0, limit)
    case Unspecified => BlockOutside(w, at0, out0, wrapping)
  }

  lemma StoredLeft(w: nat, at0: nat, out0: seq<byte>, a: nat, done: nat, part: seq<byte>)
    requires Field(w, at0 + 1, 2) == 0 && a == Aligned(at0 + 3)
    requires part == out0 + BytesAt(w, a + 32, done) && done <= Field(w, a, 16)
    ensures Certain(w, at0, out0, part)
  {
    hide Field;
    hide BytesAt;
    hide Shr;
    hide CompressedRead;
    hide DynamicRead;
    forall final: bool, at': nat, out': seq<byte>, stray: bool | BlockRead(w, at0, out0, final, at', out', stray) ensures part <= out' {
      StoredPrefix(w, a + 32, out0, done, Field(w, a, 16), a + 32 + 8 * done, part);
    }
  }

  // Skips to a byte boundary and reads the length and its complement.
  method StoredHeader(r: Reader) returns (len: nat, check: nat, ghost a: nat)
    requires r.Valid() && r.numBits <= 61
    modifies r
    ensures r.Valid() && r.numBits <= 61 && r.numBits % 8 == 0
    ensures a == Aligned(old(r.taken)) >= old(r.taken) && r.taken == a + 32
    ensures len == Field(r.whole, a, 16) && check == Field(r.whole, a + 16, 16)
  {
    hide Shr;
    hide Pending;
    hide Field;
    AlignedTaken(r.taken, r.numBits);
    r.Drop(r.numBits % 8);
    a := r.taken;
    len, check := RawHeader(r);
  }

  // The data of a stored block: done of its len bytes are out.
  method StoredData(r: Reader, o: Out, len: nat) returns (status: Status, ghost done: nat)
    requires r.Valid() && r.numBits <= 61 && r.numBits % 8 == 0 && WindowOk(o)
    modifies r, o, o.buf
    ensures r.Valid() && r.numBits <= 61 && WindowOk(o) && (o.buf == old(o.buf) || fresh(o.buf))
    ensures r.taken >= old(r.taken)
    ensures done <= len && o.flat == old(o.flat) + BytesAt(r.whole, old(r.taken), done)
    ensures status == Done || status == HasMoreOutput || status == Failed
    ensures status == Done ==> done == len && r.taken == old(r.taken) + 8 * len
    ensures status == HasMoreOutput ==> o.resumes == 0 && o.cur == o.buf.Length
    ensures status == Failed ==> old(r.taken) + 8 * len > 8 * r.total
  {
    hide Shr;
    hide Pending;
    hide BytesAt;
    hide Out.ValidAt;
    hide Reader.Rest;
    ghost var w, a, out0 := r.whole, r.taken, o.flat;
    var ok, counter := StoredFromBuffer(r, o, len);
    done := len - counter;
    if !ok {
      return HasMoreOutput, done;
    }
    if counter == 0 {
      return Done, done;
    }
    var left := counter;
    status, counter := StoredFromInput(r, o, left);
    BytesAtSplit(w, a, len - left, left - counter);
    Associate(out0, BytesAt(w, a, len - left), BytesAt(w, a + 8 * (len - left), left - counter));
    done := len - counter;
  }

  // What is left of a stored block with valid length fields.
  lemma StoredOutcome(w: nat, at0: nat, out0: seq<byte>, final: bool, status: Status, done: nat,
                      at: nat, out: seq<byte>, wrapping: bool, limit: nat)
    requires Field(w, at0 + 1, 2) == 0 && (final <==> Shr(w, at0) % 2 == 1)
    requires var a := Aligned(at0 + 3); var len := Field(w, a, 16);
             && len + Field(w, a + 16, 16) == 65535
             && done <= len && out == out0 + BytesAt(w, a + 32, done)
             && (status == Done ==> done == len && at == a + 32 + 8 * len)
             && (status == Failed ==> a + 32 + 8 * len > limit)
    requires status == Done || status == HasMoreOutput || status == Failed
    ensures BlockLeft(status, w, at0, out0, final, at, out, false, wrapping, limit)
  {
    hide Shr;
    hide Field;
    hide BytesAt;
    StoredLeft(w, at0, out0, Aligned(at0 + 3), done, out);
  }

  lemma StoredMismatch(w: nat, at0: nat, final: bool, at: nat, out0: seq<byte>, wrapping: bool, limit: nat)
    requires Field(w, at0 + 1, 2) == 0
    requires var a := Aligned(at0 + 3); Field(w, a, 16) + Field(w, a + 16, 16) != 65535
    ensures BlockLeft(Failed, w, at0, out0, final, at, out0, false, wrapping, limit)
  {
  }

  // A stored block, from the length fields on; the three header bits are consumed.
  method StoredBlock(r: Reader, o: Out, final: bool) returns (status: Status)
    requires r.Valid() && r.numBits <= 61 && WindowOk(o) && r.taken >= 3
    requires Field(r.whole, r.taken - 2, 2) == 0 && (final <==> Shr(r.whole, r.taken - 3) % 2 == 1)
    modifies r, o, o.buf
    ensures r.Valid() && r.numBits <= 61 && WindowOk(o) && (o.buf == old(o.buf) || fresh(o.buf))
    ensures BlockLeft(status, r.whole, old(r.taken) - 3, old(o.flat), final, r.taken, o.flat, false, o.wrapping, 8 * r.total)
    ensures Shr(r.whole, old(r.taken)) == 0 ==> status == Failed
    ensures r.taken >= old(r.taken)
    ensures status == HasMoreOutput ==> o.resumes == 0 && o.cur == o.buf.Length
  {
    hide Shr;
    hide Pending;
    hide Field;
    hide BlockRead;
    hide BlockLeft;
    hide Unreadable;
    hide Aligned;
    hide BytesAt;
    hide Out.ValidAt;
    hide Reader.Rest;
    ghost var at0 := r.taken - 3;
    ghost var a;
    var len, check;
    len, check, a := StoredHeader(r);
    // check must be the complement of len in 16 bits
    if len + check != 65535 {
      StoredMismatch(r.whole, at0, final, r.taken, o.flat, o.wrapping, 8 * r.total);
      return Failed;
    }
    NotAllZero(r.whole, at0 + 3, a);
    ghost var done;
    status, done := StoredData(r, o, len);
    StoredOutcome(r.whole, at0, old(o.flat), final, status, done, r.taken, o.flat, o.wrapping, 8 * r.total);
  }

  lemma {:induction false} BytesAtSplit(w: nat, at: nat, m: nat, n: nat)
    ensures BytesAt(w, at, m + n) == BytesAt(w, at, m) + BytesAt(w, at + 8 * m, n)
  {
    if n > 0 {
      BytesAtSplit(w, at, m, n - 1);
    }
  }

  // Valid length fields are not all zero.
  lemma NotAllZero(w: nat, at: nat, a: nat)
    requires at <= a && Field(w, a, 16) + Field(w, a + 16, 16) == 65535
    ensures Shr(w, at) != 0
  {
    if Shr(w, at) == 0 {
      ShrShr(w, at, a - at);
      ShrShr(w, at, a + 16 - at);
      ShrZero(a - at);
      ShrZero(a + 16 - at);
      assert false;
    }
  }

  // ---- one block of any kind ----

  // What the compressed data behind the header are read as, the block is.
  ghost predicate DataAt(w: nat, at0: nat, out0: seq<byte>, final: bool, lit: Sizes, dist: Sizes, at1: nat, here: bool) {
    forall f: bool, at': nat, out': seq<byte>, stray: bool :: BlockRead(w, at0, out0, f, at', out', stray) <==>
      f == final && exists there: bool ::
        CompressedRead(lit, dist, w, at1, out0, at', out', there) && Either(here, there, stray)
  }

  // The compressed data of a block with these tables, in terms of the block.
  lemma CompressedLeft(lit: Sizes, dist: Sizes, w: nat, at1: nat, at0: nat, out0: seq<byte>, n: nat, here: bool,
                       status: Status, at: nat, out: seq<byte>, wrapping: bool, final: bool, limit: nat)
    returns (stray: bool)
    requires Codes(lit, dist) && DataAt(w, at0, out0, final, lit, dist, at1, here)
    requires CodesOutside(lit, dist, w, at1, out0, wrapping) ==> BlockOutside(w, at0, out0, wrapping)
    requires BlockResult(lit, dist, w, at1, out0, n, status, at, out, wrapping)
    requires at > at0
    ensures BlockLeft(status, w, at0, out0, final, at, out, stray, wrapping, limit)
  {
    hide BlockRead;
    hide BlockOutside;
    hide Run;
    var r := Run(lit, dist, w, at1, out0, n);
    stray := here;
    if status == Done {
      stray := here || r.stray;
      assert CompressedRead(lit, dist, w, at1, out0, at, out, r.stray) && Either(here, r.stray, stray);
    } else if status == Unspecified {
      assert OutsideAt(r, wrapping);
    } else {
      forall f: bool, at': nat, out': seq<byte>, any: bool | BlockRead(w, at0, out0, f, at', out', any)
        ensures status == HasMoreOutput && out <= out'
      {
        var there: bool :| CompressedRead(lit, dist, w, at1, out0, at', out', there) && Either(here, there, any);
        if status == Failed {
          RunUnreadable(lit, dist, w, at1, out0, n, at', out', there);
          assert false;
        }
        RunCertain(lit, dist, w, at1, out0, n, out, at', out', there);
      }
    }
  }

  lemma FixedData(w: nat, at: nat, out: seq<byte>, final: bool, wrapping: bool)
    requires Field(w, at + 1, 2) == 1 && (final <==> Shr(w, at) % 2 == 1)
    ensures DataAt(w, at, out, final, FixedLit(), FixedDist(), at + 3, false)
    ensures CodesOutside(FixedLit(), FixedDist(), w, at + 3, out, wrapping) ==> BlockOutside(w, at, out, wrapping)
  {
    hide CompressedRead;
    hide CodesOutside;
    forall f: bool, at': nat, out': seq<byte>, stray: bool
      ensures BlockRead(w, at, out, f, at', out', stray) <==>
                f == final && exists there: bool ::
                  CompressedRead(FixedLit(), FixedDist(), w, at + 3, out, at', out', there) && Either(false, there, stray)
    {
      assert Either(false, stray, stray);
    }
  }

  lemma DynamicData(w: nat, at: nat, out: seq<byte>, final: bool, lit: Sizes, dist: Sizes, at1: nat, here: bool, wrapping: bool)
    requires Field(w, at + 1, 2) == 2 && (final <==> Shr(w, at) % 2 == 1) && HeaderRead(w, at + 3, lit, dist, at1, here)
    ensures DataAt(w, at, out, final, lit, dist, at1, here)
    ensures CodesOutside(lit, dist, w, at1, out, wrapping) ==> BlockOutside(w, at, out, wrapping)
  {
    hide HeaderRead;
    hide CompressedRead;
    hide CodesOutside;
    forall f: bool, at': nat, out': seq<byte>, stray: bool | BlockRead(w, at, out, f, at', out', stray)
      ensures f == final && exists there: bool :: CompressedRead(lit, dist, w, at1, out, at', out', there) && Either(here, there, stray)
    {
      var lit2: Sizes, dist2: Sizes, a: nat, h: bool, t: bool :|
        HeaderRead(w, at + 3, lit2, dist2, a, h) && CompressedRead(lit2, dist2, w, a, out, at', out', t) && Either(h, t, stray);
      HeaderUnique(w, at + 3, lit, dist, at1, here, lit2, dist2, a, h);
      assert CompressedRead(lit, dist, w, at1, out, at', out', t) && Either(here, t, stray);
    }
  }

  lemma NoCodesUnreadable(w: nat, at: nat, out: seq<byte>, limit: nat)
    requires Field(w, at + 1, 2) == 2 && NoCodes(w, at + 3)
    ensures Unreadable(w, at, out, limit)
  {
    hide HeaderRead;
    hide Codes;
  }

  lemma HeaderBits(w: nat, at: nat, header: nat)
    requires header == Shr(w, at) % Pow2(3)
    ensures header < 8 && header % 2 == Shr(w, at) % 2 && header / 2 == Field(w, at + 1, 2)
  {
    assert Pow2(3) == 8 && Pow2(2) == 4;
    assert Shr(w, at + 1) == Shr(w, at) / 2;
    ThreeBits(Shr(w, at), header);
  }

  lemma ThreeBits(x: nat, h: nat)
    requires h == x % 8
    ensures h < 8 && h % 2 == x % 2 && h / 2 == x / 2 % 4
  {
    var q := x / 8;
    assert x == 8 * q + h;
    DivisionIs(x, 2, 4 * q + h / 2);
    DivisionIs(x / 2, 4, q);
  }

  lemma ZeroStream(w: nat, at: nat, n: nat)
    ensures Shr(w, at) == 0 ==> Shr(w, at + n) == 0
  {
    ShrShr(w, at, n);
    if Shr(w, at) == 0 {
      ShrZero(n);
    }
  }

  lemma ReservedType(w: nat, at: nat, out: seq<byte>, limit: nat)
    requires Field(w, at + 1, 2) == 3
    ensures Unreadable(w, at, out, limit)
  {
  }

  // The decoding tables and the length array that the decompressor keeps between calls.
  class Decompressor {
    const lit: Table
    const dist: Table
    const cl: Table
    const lenCodes: array<nat>

    ghost predicate Valid() {
      && TableSet(lit, dist, cl) && lenCodes.Length == LEN_CODES_SIZE
      && (forall t :: t in {lit, dist, cl} ==> lenCodes as object != t.lookUp && lenCodes as object != t.tree)
    }

    ghost const Repr: set<object>

    ghost predicate Footprint() {
      Repr == {lit, lit.lookUp, lit.tree, dist, dist.lookUp, dist.tree, cl, cl.lookUp, cl.tree, lenCodes}
    }

    ghost predicate Apart(o: Out)
      reads o
    {
      o !in Repr && o.buf !in Repr
    }

    constructor ()
      ensures Valid() && Footprint() && fresh(Repr)
    {
      var l := new Table();
      var d := new Table();
      var c := new Table();
      var a := new nat[LEN_CODES_SIZE];
      lit, dist, cl, lenCodes := l, d, c, a;
      Repr := {l, l.lookUp, l.tree, d, d.lookUp, d.tree, c, c.lookUp, c.tree, a};
    }

    // The tables of a compressed block, fixed or dynamic; the data start behind them.
    method PrepareTables(r: Reader, fixed: bool, ghost at0: nat, ghost out0: seq<byte>, ghost final: bool, ghost wrapping: bool)
      returns (ok: bool, ghost here: bool)
      requires r.Valid() && r.numBits <= 61 && Valid() && Footprint() && r !in Repr
      requires r.taken == at0 + 3 && (final <==> Shr(r.whole, at0) % 2 == 1)
      requires Field(r.whole, at0 + 1, 2) == if fixed then 1 else 2
      modifies r, Repr
      ensures r.Valid() && r.numBits <= 61 && r.taken >= old(r.taken)
      ensures ok ==> TablesReady(lit, dist)
      ensures ok ==> DataAt(r.whole, at0, out0, final, lit.sizes, dist.sizes, r.taken, here)
      ensures ok ==> CodesOutside(lit.sizes, dist.sizes, r.whole, r.taken, out0, wrapping) ==> BlockOutside(r.whole, at0, out0, wrapping)
      ensures !ok ==> Unreadable(r.whole, at0, out0, 8 * r.total)
    {
      hide TrieOk;
      hide Shr;
      hide Pending;
      hide Field;
      hide BlockRead;
      hide BlockOutside;
      hide CodesOutside;
      hide DataAt;
      hide Unreadable;
      here := false;
      if fixed {
        FixedCodesComplete();
        ok := dist.Build(FixedDist());
        ok := lit.Build(FixedLit());
        FixedData(r.whole, at0, out0, final, wrapping);
      } else {
        ok, here := DynamicTables(r, lit, dist, cl, lenCodes);
        if ok {
          DynamicData(r.whole, at0, out0, final, lit.sizes, dist.sizes, r.taken, here, wrapping);
        } else {
          NoCodesUnreadable(r.whole, at0, out0, 8 * r.total);
        }
      }
    }

    // A block with codes, behind its header bits.
    method CodedBlock(r: Reader, o: Out, fixed: bool, ghost at0: nat, final: bool) returns (status: Status, ghost stray: bool)
      requires r.Valid() && r.numBits <= 61 && WindowOk(o)
      requires Valid() && Footprint() && r !in Repr && Apart(o)
      requires r.taken == at0 + 3 && (final <==> Shr(r.whole, at0) % 2 == 1)
      requires Field(r.whole, at0 + 1, 2) == if fixed then 1 else 2
      modifies r, o, o.buf, Repr
      ensures r.Valid() && r.numBits <= 61 && r.taken >= old(r.taken) && WindowOk(o)
      ensures (o.buf == old(o.buf) || fresh(o.buf)) && Apart(o)
      ensures BlockLeft(status, r.whole, at0, old(o.flat), final, r.taken, o.flat, stray, o.wrapping, 8 * r.total)
      ensures status == HasMoreOutput ==> o.resumes == 0 && o.cur == o.buf.Length
    {
      hide TrieOk;
      hide Shr;
      hide Pending;
      hide BlockRead;
      hide BlockOutside;
      hide CodesOutside;
      hide DataAt;
      hide Reader.Rest;
      hide Reader.Stream;
      hide BlockResult;
      hide Field;
      hide Out.ValidAt;
      ghost var out0 := o.flat;
      var ok;
      ok, stray := PrepareTables(r, fixed, at0, out0, final, o.wrapping);
      if !ok {
        return Failed, stray;
      }
      ghost var at1, n := r.taken, 0;
      status, n := CompressedBlock(r, o, lit, dist);
      stray := CompressedLeft(lit.sizes, dist.sizes, r.whole, at1, at0, out0, n, stray, status, r.taken, o.flat, o.wrapping, final, 8 * r.total);
    }

    // One block: header bits, then by type.
    method Block(r: Reader, o: Out) returns (status: Status, final: bool, ghost stray: bool)
      requires r.Valid() && r.numBits <= 61 && WindowOk(o)
      requires Valid() && Footprint() && r !in Repr && Apart(o)
      modifies r, o, o.buf, Repr
      ensures r.Valid() && r.numBits <= 61 && r.taken >= old(r.taken) + 3 && WindowOk(o)
      ensures (o.buf == old(o.buf) || fresh(o.buf)) && Apart(o)
      ensures BlockLeft(status, r.whole, old(r.taken), old(o.flat), final, r.taken, o.flat, stray, o.wrapping, 8 * r.total)
      ensures status == HasMoreOutput ==> o.resumes == 0 && o.cur == o.buf.Length
      ensures old(r.Stream()) == 0 ==> status == Failed
    {
      hide TrieOk;
      hide Shr;
      hide Pending;
      hide BlockRead;
      hide BlockOutside;
      hide Reader.Rest;
      hide Reader.Stream;
      hide Field;
      hide Out.ValidAt;
      ghost var at0, out0 := r.taken, o.flat;
      var header := r.GetBits(3);
      HeaderBits(r.whole, at0, header);
      final, stray := header % 2 == 1, false;
      var blockType := header / 2;
      if blockType == 0 {
        ZeroStream(r.whole, at0, 3);
        status := StoredBlock(r, o, final);
        return status, final, stray;
      }
      if blockType == 3 {
        ReservedType(r.whole, at0, out0, 8 * r.total);
        return Failed, final, stray;
      }
      status, stray := CodedBlock(r, o, blockType == 1, at0, final);
    }
  }
}
