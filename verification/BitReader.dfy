// The input side of the decompressor: a bit buffer refilled from input that arrives in
// caller-sized chunks.  A call that runs out of its chunk while more is promised suspends and
// resumes with the next one; after the last chunk the reader supplies zero bytes.
module BitReader {
  import opened Arithmetic
  import opened Bits
  import opened Bytes
  import opened HuffmanCode
  import opened HuffmanTrie
  import opened HuffmanTable

  function Flatten(chunks: seq<seq<byte>>): seq<byte> {
    if chunks == [] then [] else chunks[0] + Flatten(chunks[1..])
  }

  // Everything not consumed yet: the buffered bits, then the unread bytes, then zeros.
  function Pending(bitBuf: nat, numBits: nat, rest: seq<byte>): nat {
    bitBuf + Pow2(numBits) * LittleEndian(rest)
  }

  lemma ByteBelow(lo: nat, c: nat, p: nat)
    requires lo < p && c < 256
    ensures lo + c * p < p * 256
  {
    MulLe(c, 255, p);
  }

  lemma Refill(bitBuf: nat, numBits: nat, c: byte, rest: seq<byte>)
    requires bitBuf < Pow2(numBits)
    ensures bitBuf + c * Pow2(numBits) < Pow2(numBits + 8)
    ensures Pending(bitBuf + c * Pow2(numBits), numBits + 8, rest) == Pending(bitBuf, numBits, [c] + rest)
  {
    hide Pow2;
    hide LittleEndian;
    Pow2Byte(numBits);
    LittleEndianCons(c, rest);
    ByteBelow(bitBuf, c, Pow2(numBits));
    RefillArithmetic(Pow2(numBits), c, LittleEndian(rest));
  }

  lemma RefillArithmetic(p: nat, c: nat, r: nat)
    ensures c * p + (p * 256) * r == p * (c + 256 * r)
  {
    assert p * (c + 256 * r) == p * c + p * (256 * r);
    assert (p * 256) * r == p * (256 * r);
  }

  // A byte supplied after the end of the input is zero and changes nothing.
  lemma RefillPastEnd(bitBuf: nat, numBits: nat)
    requires bitBuf < Pow2(numBits)
    ensures bitBuf < Pow2(numBits + 8)
    ensures Pending(bitBuf, numBits + 8, []) == Pending(bitBuf, numBits, [])
  {
    hide Pow2;
    Pow2Byte(numBits);
  }

  lemma Consume(bitBuf: nat, numBits: nat, rest: seq<byte>, n: nat)
    requires bitBuf < Pow2(numBits) && n <= numBits
    ensures Shr(bitBuf, n) < Pow2(numBits - n)
    ensures Pending(Shr(bitBuf, n), numBits - n, rest) == Shr(Pending(bitBuf, numBits, rest), n)
    ensures First(Pending(bitBuf, numBits, rest), n) == First(bitBuf, n)
    ensures Pending(bitBuf, numBits, rest) % Pow2(n) == bitBuf % Pow2(n)
  {
    ShrAddHigh(bitBuf, LittleEndian(rest), numBits, n);
    ShrBound(bitBuf, n, numBits - n);
    FirstAddHigh(bitBuf, LittleEndian(rest), numBits, n);
    FirstEqualsMod(Pending(bitBuf, numBits, rest), bitBuf, n);
  }

  // Once the buffered bits settle the walk, it finds what the whole stream starts with.
  lemma SettledStream(t: Table, bitBuf: nat, numBits: nat, rest: seq<byte>)
    requires t.Ready() && Settled(t.sizes, t.nodes, bitBuf, numBits)
    ensures var x := Pending(bitBuf, numBits, rest);
            && (Decodable(t.sizes, x) <==> Decodable(t.sizes, bitBuf))
            && SymbolOf(t.sizes, x) == SymbolOf(t.sizes, bitBuf)
    ensures Decodable(t.sizes, bitBuf) ==> t.sizes[SymbolOf(t.sizes, bitBuf)] <= numBits
    ensures !Decodable(t.sizes, bitBuf) ==> forall len: nat :: DeadEnd(t.nodes, bitBuf, len) ==>
              len <= numBits && len == Skipped(t.sizes, Pending(bitBuf, numBits, rest))
  {
    SettledForAll(t.sizes, |t.sizes|, t.nodes, bitBuf, numBits, LittleEndian(rest));
    forall len: nat | !Decodable(t.sizes, bitBuf) && DeadEnd(t.nodes, bitBuf, len)
      ensures len == Skipped(t.sizes, Pending(bitBuf, numBits, rest))
    {
      DeadEndForAll(t.sizes, t.nodes, bitBuf, numBits, LittleEndian(rest), len);
      DeadEndIs(t.sizes, t.nodes, Pending(bitBuf, numBits, rest), len);
    }
  }

  lemma EmptyBuffer(bitBuf: nat)
    requires bitBuf < Pow2(0)
    ensures bitBuf == 0
  {
  }

  lemma {:induction false} ShrZero(n: nat)
    ensures Shr(0, n) == 0
  {
    if n > 0 {
      ShrZero(n - 1);
    }
  }

  lemma PendingByte(c: byte, rest: seq<byte>)
    ensures Pending(0, 0, [c] + rest) % 256 == c
    ensures Shr(Pending(0, 0, [c] + rest), 8) == Pending(0, 0, rest)
  {
    LittleEndianCons(c, rest);
    var r := LittleEndian(rest);
    assert Pow2(0) == 1 && Pow2(8) == 256;
    assert Pending(0, 0, [c] + rest) == c + 256 * r;
    DivMod(c + 256 * r, 8);
    assert (c + 256 * r) % 256 == c;
  }

  // A byte taken straight from the input, or a zero after its end.
  lemma TakenByte(whole: nat, taken: nat, c: byte, rest: seq<byte>, rest': seq<byte>)
    requires Pending(0, 0, rest) == Shr(whole, taken)
    requires if rest == [] then c == 0 && rest' == [] else c == rest[0] && rest' == rest[1..]
    ensures Shr(whole, taken) % 256 == c && Pending(0, 0, rest') == Shr(whole, taken + 8)
  {
    ShrShr(whole, taken, 8);
    if rest == [] {
      assert Pending(0, 0, []) == 0;
      ShrZero(8);
    } else {
      assert rest == [c] + rest';
      PendingByte(c, rest');
    }
  }

  class Reader {
    var chunk: seq<byte>
    var pos: nat
    var later: seq<seq<byte>>
    var bitBuf: nat
    var numBits: nat
    // The whole input as a bit stream, its length in bytes, and how many of its bits are consumed.
    ghost const whole: nat
    ghost const total: nat
    ghost var taken: nat

    ghost predicate Valid()
      reads this
    {
      && pos <= |chunk| && numBits <= 64 && bitBuf < Pow2(numBits)
      && Stream() == Shr(whole, taken) && (taken + numBits) % 8 == 0
      && taken + numBits + 8 * |Rest()| >= 8 * total && (Rest() != [] ==> taken + numBits + 8 * |Rest()| == 8 * total)
    }

    ghost function Rest(): seq<byte>
      requires pos <= |chunk|
      reads this
    {
      chunk[pos..] + Flatten(later)
    }

    ghost function Stream(): nat
      requires pos <= |chunk|
      reads this
    {
      Pending(bitBuf, numBits, Rest())
    }

    constructor (chunks: seq<seq<byte>>)
      ensures Valid() && numBits == 0 && taken == 0
      ensures whole == LittleEndian(Flatten(chunks)) && total == |Flatten(chunks)|
    {
      chunk, pos, later := [], 0, chunks;
      bitBuf, numBits := 0, 0;
      whole, total, taken := LittleEndian(Flatten(chunks)), |Flatten(chunks)|, 0;
      new;
      assert Rest() == Flatten(chunks);
    }

    // The next input byte, across as many suspensions as it takes; zero once all input is used.
    method GetByte() returns (c: byte)
      requires pos <= |chunk|
      modifies this`chunk, this`pos, this`later
      ensures pos <= |chunk|
      ensures old(Rest()) == [] ==> c == 0 && Rest() == []
      ensures old(Rest()) != [] ==> c == old(Rest())[0] && Rest() == old(Rest())[1..]
    {
      while pos >= |chunk| && later != []
        invariant pos <= |chunk| && Rest() == old(Rest())
        decreases |later|
      {
        chunk, pos, later := later[0], 0, later[1..];
      }
      if pos >= |chunk| {
        c := 0;
      } else {
        c := chunk[pos];
        pos := pos + 1;
      }
    }

    // bit_buf |= c << num_bits for one more byte.
    method AppendByte()
      requires Valid() && numBits <= 56
      modifies this`chunk, this`pos, this`later, this`bitBuf, this`numBits
      ensures Valid() && numBits == old(numBits) + 8 && Stream() == old(Stream())
    {
      hide Pow2;
      hide Pending;
      hide Shr;
      hide Flatten;
      ghost var rest := Rest();
      var c := GetByte();
      if rest == [] {
        RefillPastEnd(bitBuf, numBits);
      } else {
        Refill(bitBuf, numBits, c, Rest());
        assert [c] + Rest() == rest;
      }
      EightMore(taken + numBits);
      bitBuf := bitBuf + c * Pow2(numBits);
      numBits := numBits + 8;
    }

    lemma EightMore(n: nat)
      requires n % 8 == 0
      ensures (n + 8) % 8 == 0
    {
    }

    method NeedBits(n: nat)
      requires Valid() && numBits < n <= 32
      modifies this`chunk, this`pos, this`later, this`bitBuf, this`numBits
      ensures Valid() && n <= numBits < n + 8 && Stream() == old(Stream())
    {
      AppendByte();
      while numBits < n
        invariant Valid() && numBits < n + 8 && Stream() == old(Stream())
        decreases n + 8 - numBits
      {
        AppendByte();
      }
    }

    method Drop(n: nat)
      requires Valid() && n <= numBits
      modifies this`bitBuf, this`numBits, this`taken
      ensures Valid() && numBits == old(numBits) - n
      ensures Stream() == Shr(old(Stream()), n) && taken == old(taken) + n
    {
      hide Flatten;
      hide LittleEndian;
      hide Pending;
      hide Pow2;
      Consume(bitBuf, numBits, Rest(), n);
      ShrShr(whole, taken, n);
      bitBuf := Shr(bitBuf, n);
      numBits := numBits - n;
      taken := taken + n;
    }

    // The next n bits as a number, first bit least significant.
    method GetBits(n: nat) returns (b: nat)
      requires Valid() && n <= 32 && numBits <= 61
      modifies this
      ensures Valid() && numBits <= 61 && b == old(Stream()) % Pow2(n)
      ensures Stream() == Shr(old(Stream()), n) && taken == old(taken) + n
    {
      if numBits < n {
        NeedBits(n);
      }
      Consume(bitBuf, numBits, Rest(), n);
      b := bitBuf % Pow2(n);
      Drop(n);
    }

    // The next input byte, when no bits are buffered.
    method TakeByte() returns (c: byte)
      requires Valid() && numBits == 0
      modifies this
      ensures Valid() && numBits == 0 && c == old(Stream()) % 256 && taken == old(taken) + 8
      ensures old(Rest()) != [] ==> Rest() == old(Rest())[1..]
    {
      hide Pending;
      hide Pow2;
      hide Shr;
      ghost var rest := Rest();
      EmptyBuffer(bitBuf);
      c := GetByte();
      TakenByte(whole, taken, c, rest, Rest());
      taken := taken + 8;
    }

    // Some input is at hand, waiting for further chunks if need be; false once all is used.
    method MoreInput() returns (more: bool)
      requires Valid()
      modifies this`chunk, this`pos, this`later
      ensures Valid() && Rest() == old(Rest())
      ensures if more then pos < |chunk| else Rest() == []
    {
      while pos >= |chunk| && later != []
        invariant pos <= |chunk| && Rest() == old(Rest())
        decreases |later|
      {
        chunk, pos, later := later[0], 0, later[1..];
      }
      more := pos < |chunk|;
    }

    // The input bytes not taken yet; while there are any, no bit behind the input was consumed.
    method Unread() returns (n: nat)
      requires Valid()
      ensures n == |Rest()| && (n > 0 ==> taken + numBits + 8 * n == 8 * total)
    {
      n := |chunk| - pos + |Flatten(later)|;
    }

    // Byte at a time until the buffer settles the next symbol; stops as soon as it does.
    method HuffFill(t: Table)
      requires Valid() && t.Ready() && numBits < MAX_BITS
      modifies this`chunk, this`pos, this`later, this`bitBuf, this`numBits
      ensures Valid() && Stream() == old(Stream()) && numBits < MAX_BITS + 8
      ensures Settled(t.sizes, t.nodes, bitBuf, numBits)
    {
      while true
        invariant Valid() && Stream() == old(Stream()) && numBits < MAX_BITS
        decreases MAX_BITS - numBits
      {
        var enough := t.Sufficient(bitBuf, numBits);
        if enough {
          return;
        }
        AppendByte();
        if numBits >= MAX_BITS {
          return;
        }
      }
    }

    method TopUp(t: Table)
      requires Valid() && t.Ready() && numBits <= 61
      modifies this`chunk, this`pos, this`later, this`bitBuf, this`numBits
      ensures Valid() && Stream() == old(Stream()) && numBits <= 61
      ensures Settled(t.sizes, t.nodes, bitBuf, numBits)
    {
      if numBits < MAX_BITS {
        if |chunk| - pos < 2 {
          HuffFill(t);
        } else {
          AppendByte();
          AppendByte();
        }
      }
    }

    // One walk on a settled buffer.
    method TakeEntry(t: Table) returns (entry: nat)
      requires Valid() && t.Ready() && Settled(t.sizes, t.nodes, bitBuf, numBits)
      modifies this`bitBuf, this`numBits, this`taken
      ensures Valid() && numBits <= old(numBits) <= numBits + MAX_BITS
      ensures taken == old(taken) + Taken(t.sizes, old(Stream()))
      ensures entry == if Decodable(t.sizes, old(Stream())) then RawEntry(t.sizes, SymbolOf(t.sizes, old(Stream()))) else 0
    {
      hide TrieOk;
      SettledStream(t, bitBuf, numBits, Rest());
      var codeLen;
      entry, codeLen := t.Walk(bitBuf);
      Drop(codeLen);
    }

    // The symbol at the head of the stream, however the input was chunked.
    method HuffDecode(t: Table) returns (sym: nat)
      requires Valid() && t.Ready() && numBits <= 61
      modifies this
      ensures Valid() && numBits <= 61
      ensures sym == SymbolOf(t.sizes, old(Stream())) && taken == old(taken) + Taken(t.sizes, old(Stream()))
    {
      hide TrieOk;
      TopUp(t);
      var entry := TakeEntry(t);
      sym := entry % 512;
    }
  }
}
