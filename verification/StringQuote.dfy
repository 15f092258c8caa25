// Printing a string: escaping it between quotes, within a length computed beforehand, so that
// parsing the result gives the string back.
module StringQuote {
  import opened Arithmetic
  import opened Bytes
  import opened Utf8
  import opened StringText

  predicate Printable(c: nat) {
    32 <= c <= 126 || c >= 128
  }

  // Position i starts a control character of the range U+0080 to U+009F.
  predicate ControlAt(src: seq<byte>, i: nat) {
    i + 1 < |src| && src[i] == 0xC2 && 0x80 <= src[i + 1] <= 0x9F
  }

  predicate Hidden(src: seq<byte>, i: nat)
    requires i < |src|
  {
    !Printable(src[i]) || ControlAt(src, i) || (i > 0 && ControlAt(src, i - 1))
  }

  // The letter of a two-character escape, zero if there is none.
  function Letter(c: byte): byte {
    if c == 9 then 116 else if c == 10 then 110 else if c == 13 then 114 else if c == 12 then 102 else 0
  }

  function OctalDigits(c: byte): seq<byte> {
    [48 + c / 64, 48 + c / 8 % 8, 48 + c % 8]
  }

  // How byte i of the string is printed.
  function EscapedByte(src: seq<byte>, i: nat, quote: byte): (e: seq<byte>)
    requires i < |src|
    ensures 1 <= |e| <= 4
  {
    var c := src[i];
    if Hidden(src, i) then [BACKSLASH] + if Letter(c) != 0 then [Letter(c)] else OctalDigits(c)
    else if c == BACKSLASH || c == quote then [BACKSLASH, c]
    else [c]
  }

  // The first i bytes printed.
  function EscapedUpto(src: seq<byte>, i: nat, quote: byte): seq<byte>
    requires i <= |src|
  {
    if i == 0 then [] else EscapedUpto(src, i - 1, quote) + EscapedByte(src, i - 1, quote)
  }

  function Escaped(src: seq<byte>, quote: byte): seq<byte> {
    EscapedUpto(src, |src|, quote)
  }

  lemma {:induction false} EscapedPrefix(src: seq<byte>, i: nat, j: nat, quote: byte)
    requires i <= j <= |src|
    ensures EscapedUpto(src, i, quote) <= EscapedUpto(src, j, quote)
    decreases j
  {
    if i < j {
      EscapedPrefix(src, i, j - 1, quote);
    }
  }

  // ------------------------------------------------------------------------------------------
  // The length counted beforehand.

  function CountedByte(src: seq<byte>, i: nat, quote: byte): nat
    requires i < |src|
  {
    if src[i] == BACKSLASH || src[i] == quote then 2
    else if ControlAt(src, i) then 7
    else if !Printable(src[i]) then 4
    else 1
  }

  function CountedUpto(src: seq<byte>, i: nat, quote: byte): nat
    requires i <= |src|
  {
    if i == 0 then 0 else CountedUpto(src, i - 1, quote) + CountedByte(src, i - 1, quote)
  }

  predicate NulFree(src: seq<byte>) {
    forall i :: 0 <= i < |src| ==> src[i] != 0
  }

  // The quotes for which the counted length is enough; no quote at all is the quote zero.
  predicate SafeQuote(quote: byte) {
    quote == 0 || Letter(quote) != 0 || (Printable(quote) && quote != 0xC2)
  }

  // The seven counted for the first byte of a control character lend three to the second.
  lemma {:induction false} CountCovers(src: seq<byte>, i: nat, quote: byte)
    requires NulFree(src) && SafeQuote(quote) && i <= |src|
    ensures |EscapedUpto(src, i, quote)| + (if i > 0 && ControlAt(src, i - 1) then 3 else 0) <= CountedUpto(src, i, quote)
  {
    if i > 0 {
      CountCovers(src, i - 1, quote);
    }
  }

  predicate Covered(src: seq<byte>, quote: byte) {
    |Escaped(src, quote)| <= CountedUpto(src, |src|, quote)
  }

  // The counted length is enough for every string exactly when the quote is a safe one.
  lemma CountCoversIff(quote: byte)
    ensures (forall src: seq<byte> :: NulFree(src) ==> Covered(src, quote)) <==> SafeQuote(quote)
  {
    if SafeQuote(quote) {
      forall src: seq<byte> | NulFree(src) ensures Covered(src, quote) {
        CountCovers(src, |src|, quote);
      }
    } else {
      var src: seq<byte> := if quote == 0xC2 then [0xC2, 0x80] else [quote];
      if quote == 0xC2 {
        assert CountedUpto(src, 2, quote) == CountedUpto(src, 1, quote) + 1;
        assert CountedUpto(src, 1, quote) == 2;
        assert |EscapedUpto(src, 2, quote)| == |EscapedUpto(src, 1, quote)| + 4;
      } else {
        assert CountedUpto(src, 1, quote) == 2;
        assert |EscapedUpto(src, 1, quote)| == 4;
      }
      assert NulFree(src) && !Covered(src, quote);
    }
  }

  method EscapedStrlen(src: seq<byte>, quote: byte) returns (sz: nat)
    requires NulFree(src)
    ensures sz == CountedUpto(src, |src|, quote)
    ensures SafeQuote(quote) ==> |Escaped(src, quote)| <= sz
  {
    sz := 0;
    var end := 0;
    while end < |src|
      invariant end <= |src| && sz == CountedUpto(src, end, quote)
    {
      if src[end] == BACKSLASH || src[end] == quote {
        sz := sz + 2;
      } else if ControlAt(src, end) {
        sz := sz + 7;
      } else if !Printable(src[end]) {
        sz := sz + 4;
      } else {
        sz := sz + 1;
      }
      end := end + 1;
    }
    if SafeQuote(quote) {
      CountCovers(src, |src|, quote);
    }
  }

  // ------------------------------------------------------------------------------------------
  // Printing into a buffer.

  // Prints src into the dstlen bytes of dst from off on, with a terminating zero.
  method EscapedStr(dst: array<byte>, off: nat, dstlen: nat, src: seq<byte>, quote: byte) returns (l: nat)
    requires NulFree(src) && off + dstlen <= dst.Length && |Escaped(src, quote)| < dstlen
    modifies dst
    ensures l == |Escaped(src, quote)|
    ensures dst[off..off + l] == Escaped(src, quote) && dst[off + l] == 0
    ensures dst[..off] == old(dst[..off]) && dst[off + dstlen..] == old(dst[off + dstlen..])
  {
    hide EscapedByte;
    hide EscapedUpto;
    NothingEscaped(src, quote);
    var cur := 0;
    l := 0;
    while cur < |src| && l < dstlen
      invariant cur <= |src| && l == |EscapedUpto(src, cur, quote)| <= |Escaped(src, quote)|
      invariant dst[off..off + l] == EscapedUpto(src, cur, quote)
      invariant dst[..off] == old(dst[..off]) && dst[off + dstlen..] == old(dst[off + dstlen..])
      decreases |src| - cur
    {
      EscapedPrefix(src, cur + 1, |src|, quote);
      EscapedNext(src, cur, quote);
      ghost var b := dst[..];
      var n := PrintByte(dst, off + l, src, cur, quote);
      Appended(b, dst[..], off, l, n, dstlen, EscapedUpto(src, cur, quote), EscapedByte(src, cur, quote));
      l, cur := l + n, cur + 1;
    }
    dst[off + l] := 0;
  }

  lemma NothingEscaped(src: seq<byte>, quote: byte)
    ensures EscapedUpto(src, 0, quote) == []
  {
  }

  lemma EscapedNext(src: seq<byte>, i: nat, quote: byte)
    requires i < |src|
    ensures EscapedUpto(src, i + 1, quote) == EscapedUpto(src, i, quote) + EscapedByte(src, i, quote)
  {
  }

  // n more bytes behind the l there are, and one that may be overwritten.
  lemma Appended(b: seq<byte>, b': seq<byte>, off: nat, l: nat, n: nat, dstlen: nat, text: seq<byte>, e: seq<byte>)
    requires |b| == |b'| && off + dstlen <= |b| && l + n < dstlen && b[off..off + l] == text
    requires b'[..off + l] == b[..off + l] && b'[off + l..off + l + n] == e && b'[off + l + n + 1..] == b[off + l + n + 1..]
    ensures b'[off..off + l + n] == text + e && b'[..off] == b[..off] && b'[off + dstlen..] == b[off + dstlen..]
  {
    assert b'[..off] == b'[..off + l][..off] && b[..off] == b[..off + l][..off];
    assert b'[off..off + l] == b'[..off + l][off..] && b[off..off + l] == b[..off + l][off..];
    assert b'[off + dstlen..] == b'[off + l + n + 1..][dstlen - l - n - 1..];
    assert b[off + dstlen..] == b[off + l + n + 1..][dstlen - l - n - 1..];
  }

  // A backslash, three octal digits and a zero.
  method PrintOctal(dst: array<byte>, at: nat, c: byte)
    requires at + 4 < dst.Length
    modifies dst
    ensures dst[at..at + 4] == [BACKSLASH, 48 + c / 64, 48 + c / 8 % 8, 48 + c % 8]
    ensures dst[..at] == old(dst[..at]) && dst[at + 5..] == old(dst[at + 5..])
  {
    dst[at], dst[at + 1], dst[at + 2], dst[at + 3], dst[at + 4] := BACKSLASH, 48 + c / 64, 48 + c / 8 % 8, 48 + c % 8, 0;
  }

  method PrintPair(dst: array<byte>, at: nat, c: byte)
    requires at + 2 < dst.Length
    modifies dst
    ensures dst[at..at + 2] == [BACKSLASH, c]
    ensures dst[..at] == old(dst[..at]) && dst[at + 3..] == old(dst[at + 3..])
  {
    dst[at], dst[at + 1] := BACKSLASH, c;
  }

  method PrintPlain(dst: array<byte>, at: nat, c: byte)
    requires at + 1 < dst.Length
    modifies dst
    ensures dst[at..at + 1] == [c]
    ensures dst[..at] == old(dst[..at]) && dst[at + 2..] == old(dst[at + 2..])
  {
    dst[at] := c;
  }

  // One byte of the string, printed; an octal escape leaves a zero behind it.
  method PrintByte(dst: array<byte>, at: nat, src: seq<byte>, cur: nat, quote: byte) returns (n: nat)
    requires cur < |src| && at + |EscapedByte(src, cur, quote)| < dst.Length
    modifies dst
    ensures n == |EscapedByte(src, cur, quote)|
    ensures dst[..at] == old(dst[..at]) && dst[at..at + n] == EscapedByte(src, cur, quote)
    ensures dst[at + n + 1..] == old(dst[at + n + 1..])
  {
    hide Letter;
    hide Hidden;
    var c := src[cur];
    if Hidden(src, cur) {
      if Letter(c) != 0 {
        PrintPair(dst, at, Letter(c));
        n := 2;
      } else {
        PrintOctal(dst, at, c);
        n := 4;
      }
    } else if c == BACKSLASH || c == quote {
      PrintPair(dst, at, c);
      n := 2;
    } else {
      PrintPlain(dst, at, c);
      n := 1;
    }
  }

  // ------------------------------------------------------------------------------------------
  // strToStr.

  predicate NilString(src: seq<byte>) {
    src != [] && src[0] == NIL_BYTE
  }

  function Printed(src: seq<byte>): seq<byte> {
    if NilString(src) then [110, 105, 108] else [QUOTE] + Escaped(src, QUOTE) + [QUOTE]
  }

  method StrToStr(src: seq<byte>, buf: array<byte>) returns (l: nat, dst: array<byte>)
    requires NulFree(src)
    modifies buf
    ensures dst == buf || fresh(dst)
    ensures l == |Printed(src)| < dst.Length && dst[..l] == Printed(src) && dst[l] == 0
  {
    dst := buf;
    if NilString(src) {
      if dst.Length < 4 {
        dst := new byte[4];
      }
      dst[0], dst[1], dst[2], dst[3] := 110, 105, 108, 0;
      l := 3;
    } else {
      assert SafeQuote(QUOTE);
      hide Escaped;
      hide CountedUpto;
      var sz := EscapedStrlen(src, QUOTE);
      if dst.Length < sz + 3 {
        dst := new byte[sz + 3];
      }
      l := Quoted(dst, src);
    }
  }

  // The escaped string between quotes, and a zero.
  method Quoted(dst: array<byte>, src: seq<byte>) returns (l: nat)
    requires NulFree(src) && |Escaped(src, QUOTE)| + 2 < dst.Length
    modifies dst
    ensures l == |Escaped(src, QUOTE)| + 2 && dst[..l] == [QUOTE] + Escaped(src, QUOTE) + [QUOTE] && dst[l] == 0
  {
    hide Escaped;
    l := EscapedStr(dst, 1, dst.Length - 1, src, QUOTE);
    ghost var text := dst[1..1 + l];
    l := l + 1;
    dst[0], dst[l], dst[l + 1] := QUOTE, QUOTE, 0;
    assert dst[1..l] == text;
    l := l + 1;
  }

  // ------------------------------------------------------------------------------------------
  // Parsing what was printed.

  // The decoder reads a printed byte as that byte and goes on behind it.
  lemma ByteBack(mem: seq<byte>, pos: nat, end: nat, src: seq<byte>, i: nat)
    requires NulFree(src) && i < |src| && pos + |EscapedByte(src, i, QUOTE)| <= end < |mem|
    requires mem[pos..pos + |EscapedByte(src, i, QUOTE)|] == EscapedByte(src, i, QUOTE)
    ensures var next := pos + |EscapedByte(src, i, QUOTE)|;
            && Unescaped(mem, pos, end) == [src[i]] + Unescaped(mem, next, end)
            && Closing(mem, pos, false) == Closing(mem, next, false)
  {
    hide Unescaped;
    hide Closing;
    var e := EscapedByte(src, i, QUOTE);
    var c := src[i];
    assert mem[pos] == mem[pos..pos + |e|][0];
    if !Hidden(src, i) && c != BACKSLASH && c != QUOTE {
      assert e == [c];
      PlainBack(mem, pos, end);
    } else if !Hidden(src, i) || Letter(c) != 0 {
      assert e == [BACKSLASH, if Hidden(src, i) then Letter(c) else c];
      assert mem[pos + 1] == mem[pos..pos + |e|][1];
      PairBack(mem, pos, end);
    } else {
      assert e == [BACKSLASH, 48 + c / 64, 48 + c / 8 % 8, 48 + c % 8];
      assert mem[pos + 1] == mem[pos..pos + |e|][1];
      assert mem[pos + 2] == mem[pos..pos + |e|][2];
      assert mem[pos + 3] == mem[pos..pos + |e|][3];
      OctalBack(mem, pos, end, c);
    }
  }

  lemma PlainBack(mem: seq<byte>, pos: nat, end: nat)
    requires pos < end < |mem| && mem[pos] != BACKSLASH && mem[pos] != QUOTE && mem[pos] != 0
    ensures Unescaped(mem, pos, end) == [mem[pos]] + Unescaped(mem, pos + 1, end)
    ensures Closing(mem, pos, false) == Closing(mem, pos + 1, false)
  {
  }

  lemma PairBack(mem: seq<byte>, pos: nat, end: nat)
    requires pos + 1 < end < |mem| && mem[pos] == BACKSLASH
    requires !Octal(mem[pos + 1]) && mem[pos + 1] != 120 && mem[pos + 1] != 0
    ensures Unescaped(mem, pos, end) == [Named(mem[pos + 1])] + Unescaped(mem, pos + 2, end)
    ensures Closing(mem, pos, false) == Closing(mem, pos + 2, false)
  {
    assert Closing(mem, pos, false) == Closing(mem, pos + 1, true);
  }

  lemma OctalBack(mem: seq<byte>, pos: nat, end: nat, c: byte)
    requires pos + 3 < end < |mem| && mem[pos] == BACKSLASH
    requires mem[pos + 1] == 48 + c / 64 && mem[pos + 2] == 48 + c / 8 % 8 && mem[pos + 3] == 48 + c % 8
    ensures Unescaped(mem, pos, end) == [c] + Unescaped(mem, pos + 4, end)
    ensures Closing(mem, pos, false) == Closing(mem, pos + 4, false)
  {
    hide Closing;
    OctalUnit(mem, pos, c);
    ClosingPair(mem, pos);
    PlainClosing(mem, pos + 2);
    PlainClosing(mem, pos + 3);
  }

  lemma OctalUnit(mem: seq<byte>, pos: nat, c: byte)
    requires pos + 4 < |mem|
    requires mem[pos + 1] == 48 + c / 64 && mem[pos + 2] == 48 + c / 8 % 8 && mem[pos + 3] == 48 + c % 8
    ensures Escape(mem, pos + 1) == Unit(c, pos + 4)
  {
    hide OctalRun;
    hide OctalNumber;
    DigitsOfByte(c);
    OctalRunOf(mem, pos + 1);
    ThreeDigits(mem, pos + 1);
  }

  lemma DigitsOfByte(c: byte)
    ensures c / 64 < 4 && c / 8 % 8 < 8 && c % 8 < 8 && 64 * (c / 64) + 8 * (c / 8 % 8) + c % 8 == c as int
  {
    var y: nat := c / 8;
    assert c == 8 * y + c % 8 && y == 8 * (y / 8) + y % 8;
    DivisionIs(c, 64, y / 8);
  }

  lemma ClosingPair(mem: seq<byte>, pos: nat)
    requires pos + 1 < |mem| && mem[pos] == BACKSLASH && mem[pos + 1] != 0
    ensures Closing(mem, pos, false) == Closing(mem, pos + 2, false)
  {
    assert Closing(mem, pos, false) == Closing(mem, pos + 1, true);
  }

  lemma PlainClosing(mem: seq<byte>, pos: nat)
    requires pos < |mem| && mem[pos] != BACKSLASH && mem[pos] != QUOTE && mem[pos] != 0
    ensures Closing(mem, pos, false) == Closing(mem, pos + 1, false)
  {
  }

  ghost predicate PrintedIn(mem: seq<byte>, src: seq<byte>, end: nat) {
    end == 1 + |Escaped(src, QUOTE)| && end < |mem| && mem[end] == QUOTE && mem[1..end] == Escaped(src, QUOTE)
  }

  lemma {:induction false} TextBack(mem: seq<byte>, end: nat, src: seq<byte>, i: nat)
    requires NulFree(src) && i <= |src| && PrintedIn(mem, src, end)
    ensures 1 + |EscapedUpto(src, i, QUOTE)| <= end
    ensures Unescaped(mem, 1 + |EscapedUpto(src, i, QUOTE)|, end) == src[i..]
    ensures Closing(mem, 1 + |EscapedUpto(src, i, QUOTE)|, false) == end
    decreases |src| - i
  {
    hide EscapedByte;
    hide Unescaped;
    hide Closing;
    var pos := 1 + |EscapedUpto(src, i, QUOTE)|;
    EscapedPrefix(src, i, |src|, QUOTE);
    if i == |src| {
      AtTheEnd(mem, end);
    } else {
      TextBack(mem, end, src, i + 1);
      EscapedPrefix(src, i + 1, |src|, QUOTE);
      BlockAt(mem, end, src, i);
      ByteBack(mem, pos, end, src, i);
      assert src[i..] == [src[i]] + src[i + 1..];
    }
  }

  lemma AtTheEnd(mem: seq<byte>, end: nat)
    requires end < |mem| && mem[end] == QUOTE
    ensures Unescaped(mem, end, end) == [] && Closing(mem, end, false) == end
  {
  }

  lemma BlockAt(mem: seq<byte>, end: nat, src: seq<byte>, i: nat)
    requires i < |src| && PrintedIn(mem, src, end) && EscapedUpto(src, i + 1, QUOTE) <= Escaped(src, QUOTE)
    ensures var pos := 1 + |EscapedUpto(src, i, QUOTE)|;
            && pos + |EscapedByte(src, i, QUOTE)| <= end
            && mem[pos..pos + |EscapedByte(src, i, QUOTE)|] == EscapedByte(src, i, QUOTE)
  {
    hide Escaped;
    hide EscapedByte;
    SliceInside(mem, end, EscapedUpto(src, i, QUOTE), EscapedByte(src, i, QUOTE));
  }

  lemma SliceInside(mem: seq<byte>, end: nat, a: seq<byte>, e: seq<byte>)
    requires 1 <= end <= |mem| && a + e <= mem[1..end]
    ensures 1 + |a| + |e| <= end && mem[1 + |a|..1 + |a| + |e|] == e
  {
    assert a + e == mem[1..end][..|a + e|];
    assert (a + e)[|a|..] == e;
    assert mem[1 + |a|..1 + |a| + |e|] == mem[1..end][..|a + e|][|a|..];
  }

  // Printing and parsing is the identity on nil and on every well-formed string, and parsing
  // refuses what was printed from any other string.
  lemma RoundTrip(src: seq<byte>)
    requires NulFree(src)
    ensures ParseString(Printed(src) + [0]) ==
            if NilString(src) then Nil(3)
            else if WellFormed(src) then Value(src, |Escaped(src, QUOTE)|)
            else Refused
  {
    var mem := Printed(src) + [0];
    if NilString(src) {
      NilBack();
    } else {
      hide Escaped;
      hide Unescaped;
      hide Closing;
      hide WellFormed;
      hide PrintedIn;
      hide ParseString;
      hide Decodable;
      hide EscapedUpto;
      var end := 1 + |Escaped(src, QUOTE)|;
      PrintedShape(src, mem);
      TextBack(mem, end, src, 0);
      assert src[0..] == src;
      BytesDecodable(src);
      ParseQuoted(mem, end);
    }
  }

  lemma ParseQuoted(mem: seq<byte>, end: nat)
    requires NulEnded(mem) && mem[0] == QUOTE && Closing(mem, 1, false) == end
    ensures ParseString(mem) == if Decodable(Unescaped(mem, 1, end)) then Value(Unescaped(mem, 1, end), end - 1) else Refused
  {
    hide Closing;
    hide Unescaped;
    hide Decodable;
  }

  lemma BytesDecodable(src: seq<byte>)
    ensures Decodable(src) <==> WellFormed(src)
  {
  }

  lemma NilBack()
    ensures ParseString([110, 105, 108] + [0]) == Nil(3)
  {
    var mem: seq<byte> := [110, 105, 108] + [0];
    assert SkipSpaces(mem, 0) == 0;
    assert [110, 105, 108] <= mem[0..];
  }

  lemma PrintedShape(src: seq<byte>, mem: seq<byte>)
    requires mem == [QUOTE] + Escaped(src, QUOTE) + [QUOTE] + [0]
    ensures PrintedIn(mem, src, 1 + |Escaped(src, QUOTE)|) && mem[0] == QUOTE && SkipSpaces(mem, 0) == 0
    ensures |EscapedUpto(src, 0, QUOTE)| == 0
  {
    hide Escaped;
  }
}
