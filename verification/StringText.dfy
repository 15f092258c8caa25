// Strings as text: unescaping and validating a quoted string, and quoting one for printing.
module StringText {
  import opened Bytes
  import opened Utf8

  const QUOTE: byte := 34
  const BACKSLASH: byte := 92

  // ------------------------------------------------------------------------------------------
  // The escapes.

  predicate Octal(c: nat) {
    48 <= c <= 55
  }

  predicate Hex(c: nat) {
    48 <= c <= 57 || 97 <= c <= 102 || 65 <= c <= 70
  }

  function OctalValue(c: nat): (v: nat)
    requires Octal(c)
    ensures v < 8
  {
    c - 48
  }

  function HexValue(c: nat): (v: nat)
    requires Hex(c)
    ensures v < 16
  {
    if 97 <= c then c - 87 else if 65 <= c then c - 55 else c - 48
  }

  // How many bytes from i on, at most max, are octal digits; likewise for hexadecimal ones.
  function OctalRun(mem: seq<byte>, i: nat, max: nat): (k: nat)
    ensures k <= max && (k > 0 ==> i + k <= |mem|)
    ensures forall j :: i <= j < i + k ==> Octal(mem[j])
    decreases max
  {
    if max == 0 || i >= |mem| || !Octal(mem[i]) then 0 else 1 + OctalRun(mem, i + 1, max - 1)
  }

  function HexRun(mem: seq<byte>, i: nat, max: nat): (k: nat)
    ensures k <= max && (k > 0 ==> i + k <= |mem|)
    ensures forall j :: i <= j < i + k ==> Hex(mem[j])
    decreases max
  {
    if max == 0 || i >= |mem| || !Hex(mem[i]) then 0 else 1 + HexRun(mem, i + 1, max - 1)
  }

  function OctalNumber(digits: seq<byte>): nat
    requires forall j :: 0 <= j < |digits| ==> Octal(digits[j])
  {
    if digits == [] then 0 else 8 * OctalNumber(digits[..|digits| - 1]) + OctalValue(digits[|digits| - 1])
  }

  function HexNumber(digits: seq<byte>): nat
    requires forall j :: 0 <= j < |digits| ==> Hex(digits[j])
  {
    if digits == [] then 0 else 16 * HexNumber(digits[..|digits| - 1]) + HexValue(digits[|digits| - 1])
  }

  // \a \b \f \n \r \t stand for control characters, a backslash before the end of the string for
  // itself, and before any other character for that character.
  function Named(c: byte): byte {
    if c == 97 then 7 else if c == 98 then 8 else if c == 102 then 12 else if c == 110 then 10
    else if c == 114 then 13 else if c == 116 then 9 else if c == 0 then BACKSLASH else c
  }

  // What the escape whose backslash precedes position i stands for, and where it ends.
  datatype Unit = Unit(value: nat, next: nat)

  function Escape(mem: seq<byte>, i: nat): (u: Unit)
    requires i < |mem|
    ensures i < u.next <= |mem|
  {
    var d := OctalRun(mem, i, 3);
    if d > 0 then Unit(OctalNumber(mem[i..i + d]), i + d)
    else if mem[i] == 120 then
      var h := HexRun(mem, i + 1, 2);
      if h > 0 then Unit(HexNumber(mem[i + 1..i + 1 + h]), i + 1 + h) else Unit(120, i + 1)
    else Unit(Named(mem[i]), i + 1)
  }

  // The text from i up to end with its escapes replaced.  An escape of three octal digits can be
  // a number that is no byte.
  function Unescaped(mem: seq<byte>, i: nat, end: nat): seq<nat>
    requires end < |mem|
    decreases |mem| - i
  {
    if i >= end then []
    else if mem[i] == BACKSLASH then
      var u := Escape(mem, i + 1);
      [u.value] + Unescaped(mem, u.next, end)
    else [mem[i]] + Unescaped(mem, i + 1, end)
  }

  predicate InRange(s: seq<nat>) {
    forall i :: 0 <= i < |s| ==> s[i] < 256
  }

  predicate NulEnded(mem: seq<byte>) {
    mem != [] && mem[|mem| - 1] == 0
  }

  lemma OneDigit(mem: seq<byte>, i: nat)
    requires i < |mem| && Octal(mem[i])
    ensures OctalNumber(mem[i..i + 1]) == OctalValue(mem[i])
  {
    var d := mem[i..i + 1];
    assert d[..0] == [];
  }

  lemma TwoDigits(mem: seq<byte>, i: nat)
    requires i + 1 < |mem| && Octal(mem[i]) && Octal(mem[i + 1])
    ensures OctalNumber(mem[i..i + 2]) == 8 * OctalValue(mem[i]) + OctalValue(mem[i + 1])
  {
    OneDigit(mem, i);
    assert mem[i..i + 2][..1] == mem[i..i + 1];
  }

  lemma ThreeDigits(mem: seq<byte>, i: nat)
    requires i + 2 < |mem| && Octal(mem[i]) && Octal(mem[i + 1]) && Octal(mem[i + 2])
    ensures OctalNumber(mem[i..i + 3]) == 64 * OctalValue(mem[i]) + 8 * OctalValue(mem[i + 1]) + OctalValue(mem[i + 2])
  {
    TwoDigits(mem, i);
    assert mem[i..i + 3][..2] == mem[i..i + 2];
  }

  lemma OctalRunOf(mem: seq<byte>, i: nat)
    requires i + 2 < |mem|
    ensures OctalRun(mem, i, 3) ==
            if !Octal(mem[i]) then 0 else if !Octal(mem[i + 1]) then 1 else if !Octal(mem[i + 2]) then 2 else 3
  {
    assert OctalRun(mem, i + 1, 2) == if !Octal(mem[i + 1]) then 0 else 1 + OctalRun(mem, i + 2, 1);
    assert OctalRun(mem, i + 2, 1) == if !Octal(mem[i + 2]) then 0 else 1 + OctalRun(mem, i + 3, 0);
  }

  // The octal escape: at most three digits, refused when the third would pass 0377.
  method OctalEscape(mem: seq<byte>, i: nat) returns (ok: bool, c: nat, next: nat)
    requires NulEnded(mem) && i < |mem| && Octal(mem[i])
    ensures ok <==> Escape(mem, i).value < 256
    ensures ok ==> Unit(c, next) == Escape(mem, i)
  {
    ok, c, next := true, OctalValue(mem[i]), i + 1;
    OneDigit(mem, i);
    if Octal(mem[i + 1]) {
      TwoDigits(mem, i);
      OctalRunOf(mem, i);
      c, next := c * 8 + OctalValue(mem[i + 1]), i + 2;
      if Octal(mem[i + 2]) {
        ThreeDigits(mem, i);
        if c > 31 {
          ok := false;
          return;
        }
        c, next := c * 8 + OctalValue(mem[i + 2]), i + 3;
      }
    } else {
      assert OctalRun(mem, i, 3) == 1 + OctalRun(mem, i + 1, 2);
    }
  }

  // The hexadecimal escape: one or two digits; without any, the letter itself.
  method HexEscape(mem: seq<byte>, i: nat) returns (c: nat, next: nat)
    requires NulEnded(mem) && i < |mem| && mem[i] == 120
    ensures Unit(c, next) == Escape(mem, i) && c < 256
  {
    c, next := 120, i + 1;
    assert HexRun(mem, i + 1, 2) == if !Hex(mem[i + 1]) then 0 else 1 + HexRun(mem, i + 2, 1);
    if Hex(mem[i + 1]) {
      c, next := HexValue(mem[i + 1]), i + 2;
      assert mem[i + 1..i + 2][..0] == [];
      assert HexNumber(mem[i + 1..i + 2]) == c;
      assert HexRun(mem, i + 2, 1) == if !Hex(mem[i + 2]) then 0 else 1 + HexRun(mem, i + 3, 0);
      if Hex(mem[i + 2]) {
        assert mem[i + 1..i + 3][..1] == mem[i + 1..i + 2];
        c, next := c * 16 + HexValue(mem[i + 2]), i + 3;
        assert HexNumber(mem[i + 1..i + 3]) == c;
      }
    }
  }

  method EscapedUnit(mem: seq<byte>, i: nat) returns (ok: bool, c: nat, next: nat)
    requires NulEnded(mem) && i < |mem|
    ensures ok <==> Escape(mem, i).value < 256
    ensures ok ==> Unit(c, next) == Escape(mem, i)
  {
    if Octal(mem[i]) {
      ok, c, next := OctalEscape(mem, i);
    } else if mem[i] == 120 {
      c, next := HexEscape(mem, i);
      ok := true;
    } else {
      ok, c, next := true, Named(mem[i]), i + 1;
    }
  }

  // ------------------------------------------------------------------------------------------
  // GDKstrFromStr.

  // What is still to be decoded when cur is reached, just after a backslash or not.
  function Remaining(mem: seq<byte>, cur: nat, end: nat, escaped: bool): seq<nat>
    requires end < |mem| && (escaped ==> cur < |mem|)
  {
    if escaped then
      var u := Escape(mem, cur);
      [u.value] + Unescaped(mem, u.next, end)
    else Unescaped(mem, cur, end)
  }

  ghost predicate Decodable(text: seq<nat>) {
    InRange(text) && WellFormed(text)
  }

  predicate NilText(mem: seq<byte>, from: nat, end: nat)
    requires from <= end < |mem|
  {
    end - from >= 2 && mem[from] == NIL_BYTE && mem[from + 1] == 0
  }

  // The first p bytes of the text have passed the validator, the first d of them as whole
  // characters.
  ghost predicate Passed(text: seq<nat>, d: nat, p: nat, st: State) {
    d <= p <= |text| && WellFormed(text[..d]) && Pending(text[d..p], st)
  }

  // The next byte of the text through the validator; a byte it refuses spoils the whole text.
  method Validate(st: State, c: byte, ghost text: seq<nat>, ghost d: nat, ghost p: nat)
    returns (ok: bool, st': State, ghost d': nat)
    requires Passed(text, d, p, st) && p < |text| && text[p] == c
    ensures if ok then Passed(text, d', p + 1, st') else !WellFormed(text)
  {
    hide WellFormed;
    hide Pending;
    hide CharLen;
    ghost var (done, part, rest) := (text[..d], text[d..p], text[p + 1..]);
    ok, st' := Step(st, c, part);
    d' := if st'.n == 0 then p + 1 else d;
    assert text[d..p + 1] == part + [c];
    assert text == done + (part + [c] + rest);
    if !ok {
      NoCharacter(part + [c] + rest);
      WellFormedConcat(done, part + [c] + rest);
    } else if st'.n == 0 {
      Completed(done, part + [c]);
      assert text[..p + 1] == done + (part + [c]);
      assert text[p + 1..p + 1] == [];
    }
  }

  lemma NoCharacter(s: seq<nat>)
    requires s != [] && CharLen(s) == 0
    ensures !WellFormed(s)
  {
  }

  lemma Completed(done: seq<nat>, last: seq<nat>)
    requires WellFormed(done) && last != [] && CharLen(last) == |last|
    ensures WellFormed(done + last)
  {
    WellFormedConcat(done, last);
  }

  lemma CutShort(text: seq<nat>, d: nat, st: State)
    requires Passed(text, d, |text|, st)
    ensures WellFormed(text) <==> st.n == 0
  {
    assert text == text[..d] + text[d..|text|];
    WellFormedConcat(text[..d], text[d..|text|]);
    if st.n > 0 {
      Incomplete(text[d..|text|], st);
    }
  }

  // The decoder's step: the unit that starts at cur, and what remains after it.
  method NextUnit(mem: seq<byte>, cur: nat, end: nat, escaped: bool) returns (ok: bool, c: nat, next: nat)
    requires NulEnded(mem) && end < |mem| && cur < |mem| && (!escaped ==> cur < end && mem[cur] != BACKSLASH)
    ensures Remaining(mem, cur, end, escaped) != []
    ensures ok <==> Remaining(mem, cur, end, escaped)[0] < 256
    ensures ok ==> cur < next <= |mem| && Remaining(mem, cur, end, escaped) == [c] + Remaining(mem, next, end, false)
  {
    if escaped {
      ok, c, next := EscapedUnit(mem, cur);
    } else {
      ok, c, next := true, mem[cur], cur + 1;
    }
  }

  // Decodes mem[from..end] into dst.  It succeeds exactly when the escapes are bytes and the
  // bytes are well-formed UTF-8, writes them and a terminating zero, and writes nothing further.
  method Decode(dst: array<byte>, mem: seq<byte>, from: nat, end: nat) returns (r: int)
    requires NulEnded(mem) && from <= end < |mem|
    requires |Unescaped(mem, from, end)| < dst.Length
    modifies dst
    ensures NilText(mem, from, end) ==> dst.Length >= 2 && r == 1 && dst[..2] == [NIL_BYTE, 0]
    ensures !NilText(mem, from, end) ==>
              var text := Unescaped(mem, from, end);
              && r == (if Decodable(text) then end - from else -1)
              && (Decodable(text) ==> dst[..|text|] == text && dst[|text|] == 0)
    ensures forall k :: |Unescaped(mem, from, end)| < k < dst.Length ==> dst[k] == old(dst[k])
  {
    hide Unescaped;
    hide Decodable;
    if NilText(mem, from, end) {
      NilLength(mem, from, end);
      dst[0], dst[1] := NIL_BYTE, 0;
      return 1;
    }
    r := DecodeText(dst, mem, from, end);
  }

  // The decoding loop.
  method DecodeText(dst: array<byte>, mem: seq<byte>, from: nat, end: nat) returns (r: int)
    requires NulEnded(mem) && from <= end < |mem|
    requires |Unescaped(mem, from, end)| < dst.Length
    modifies dst
    ensures var text := Unescaped(mem, from, end);
            && r == (if Decodable(text) then end - from else -1)
            && (Decodable(text) ==> dst[..|text|] == text && dst[|text|] == 0)
    ensures forall k :: |Unescaped(mem, from, end)| < k < dst.Length ==> dst[k] == old(dst[k])
  {
    hide Passed;
    hide WellFormed;
    hide Unescaped;
    hide Remaining;
    ghost var text := Unescaped(mem, from, end);
    var cur, p, escaped := from, 0, false;
    var st := State(0, Mask(1, 1), 0);
    ghost var d := 0;
    NothingPassed(text, st);
    Whole(mem, from, end);
    while cur < end || escaped
      invariant cur <= |mem| && (escaped ==> cur < |mem|)
      invariant p <= |text| && text[p..] == Remaining(mem, cur, end, escaped)
      invariant Passed(text, d, p, st)
      invariant dst[..p] == text[..p]
      invariant forall k :: |text| < k < dst.Length ==> dst[k] == old(dst[k])
      decreases |mem| - cur
    {
      if !escaped && mem[cur] == BACKSLASH {
        AfterBackslash(mem, cur, end);
        escaped, cur := true, cur + 1;
        continue;
      }
      var ok, c, next := NextUnit(mem, cur, end, escaped);
      assert text[p] == text[p..][0];
      if !ok {
        return -1;
      }
      ok, st, d := Validate(st, c, text, d, p);
      if !ok {
        return -1;
      }
      dst[p] := c;
      assert text[p + 1..] == text[p..][1..];
      p, cur, escaped := p + 1, next, false;
    }
    NothingLeft(mem, cur, end);
    CutShort(text, d, st);
    if st.n > 0 {
      return -1;
    }
    WellFormedBytes(text);
    dst[p] := 0;
    return end - from;
  }

  lemma Whole(mem: seq<byte>, from: nat, end: nat)
    requires end < |mem|
    ensures Remaining(mem, from, end, false) == Unescaped(mem, from, end)
  {
  }

  lemma AfterBackslash(mem: seq<byte>, cur: nat, end: nat)
    requires cur < end < |mem| && mem[cur] == BACKSLASH
    ensures Remaining(mem, cur, end, false) == Remaining(mem, cur + 1, end, true)
  {
  }

  lemma NothingLeft(mem: seq<byte>, cur: nat, end: nat)
    requires end <= cur && end < |mem|
    ensures Remaining(mem, cur, end, false) == []
  {
  }

  lemma NothingPassed(text: seq<nat>, st: State)
    requires st.n == 0
    ensures Passed(text, 0, 0, st)
  {
  }

  lemma NilLength(mem: seq<byte>, from: nat, end: nat)
    requires from <= end < |mem| && NilText(mem, from, end)
    ensures |Unescaped(mem, from, end)| >= 2
  {
    assert Unescaped(mem, from, end) == [mem[from]] + Unescaped(mem, from + 1, end);
  }

  // ------------------------------------------------------------------------------------------
  // strFromStr.

  predicate Space(c: nat) {
    c == 32 || 9 <= c <= 13
  }

  function SkipSpaces(mem: seq<byte>, i: nat): (k: nat)
    requires NulEnded(mem) && i < |mem|
    ensures i <= k < |mem| && !Space(mem[k]) && forall j :: i <= j < k ==> Space(mem[j])
    decreases |mem| - i
  {
    if Space(mem[i]) then SkipSpaces(mem, i + 1) else i
  }

  // The first quote from i on that no escape covers; -1 when the string ends before one.
  function Closing(mem: seq<byte>, i: nat, escaped: bool): (j: int)
    ensures j >= 0 ==> i <= j < |mem| && mem[j] == QUOTE && forall k :: i <= k < j ==> mem[k] != 0
    decreases |mem| - i
  {
    if i >= |mem| then -1
    else if mem[i] == QUOTE && !escaped then i
    else if mem[i] == 0 then -1
    else Closing(mem, i + 1, !escaped && mem[i] == BACKSLASH)
  }

  // The bytes from i to j that do not start an escape.
  function Scouted(mem: seq<byte>, i: nat, j: nat, escaped: bool): nat
    requires j <= |mem|
    decreases j - i
  {
    if i >= j then 0
    else
      var starts := !escaped && mem[i] == BACKSLASH;
      (if starts then 0 else 1) + Scouted(mem, i + 1, j, starts)
  }

  datatype Parse = Nil(count: nat) | Value(text: seq<nat>, count: nat) | Refused

  ghost function ParseString(mem: seq<byte>): Parse
    requires NulEnded(mem)
  {
    if mem[0] == NIL_BYTE then Nil(1)
    else
      var i := SkipSpaces(mem, 0);
      if mem[i] != QUOTE then
        if [110, 105, 108] <= mem[i..] then Nil(i + 3) else Refused
      else
        var j := Closing(mem, i + 1, false);
        if j >= 0 && Decodable(Unescaped(mem, i + 1, j)) then Value(Unescaped(mem, i + 1, j), j - (i + 1))
        else Refused
  }

  // A run of digits neither is a quote nor starts an escape, so each digit was counted.
  lemma {:induction false} ScoutedRun(mem: seq<byte>, i: nat, k: nat, j: nat)
    requires i + k <= j <= |mem| && forall m :: i <= m < i + k ==> mem[m] != BACKSLASH
    ensures Scouted(mem, i, j, false) == k + Scouted(mem, i + k, j, false)
    decreases k
  {
    if k > 0 {
      ScoutedRun(mem, i + 1, k - 1, j);
    }
  }

  lemma {:induction false} ClosingRun(mem: seq<byte>, i: nat, k: nat)
    requires i + k <= |mem| && Closing(mem, i, false) >= 0
    requires forall m :: i <= m < i + k ==> mem[m] != BACKSLASH && mem[m] != QUOTE
    ensures Closing(mem, i + k, false) == Closing(mem, i, false)
    decreases k
  {
    if k > 0 {
      ClosingRun(mem, i + 1, k - 1);
    }
  }

  lemma EscapeStep(mem: seq<byte>, i: nat)
    requires i < |mem| && mem[i] == BACKSLASH && Closing(mem, i, false) >= 0
    ensures i + 2 <= |mem| && Closing(mem, i, false) == Closing(mem, i + 2, false)
    ensures var j := Closing(mem, i, false); Scouted(mem, i, j, false) == 1 + Scouted(mem, i + 2, j, false)
  {
    assert Closing(mem, i, false) == Closing(mem, i + 1, true) == Closing(mem, i + 2, false);
  }

  // An escape ends before the closing quote, and its later bytes are plain.
  lemma EscapeInside(mem: seq<byte>, i: nat)
    requires i < |mem| && mem[i] == BACKSLASH && Closing(mem, i, false) >= 0
    ensures i + 1 < |mem|
    ensures var next := Escape(mem, i + 1).next;
            Closing(mem, next, false) == Closing(mem, i, false)
    ensures var next := Escape(mem, i + 1).next;
            1 + Scouted(mem, next, Closing(mem, i, false), false) <= Scouted(mem, i, Closing(mem, i, false), false)
  {
    hide Closing;
    hide Scouted;
    hide Escape;
    var j := Closing(mem, i, false);
    EscapeStep(mem, i);
    var next := Escape(mem, i + 1).next;
    EscapeTail(mem, i + 1);
    ClosingRun(mem, i + 2, next - (i + 2));
    ScoutedRun(mem, i + 2, next - (i + 2), j);
  }

  lemma EscapeTail(mem: seq<byte>, i: nat)
    requires i < |mem|
    ensures forall m :: i < m < Escape(mem, i).next ==> mem[m] != BACKSLASH && mem[m] != QUOTE
  {
  }

  // The scouted length is room enough: decoding emits at most one byte for each byte counted.
  lemma {:induction false} ScoutedEnough(mem: seq<byte>, i: nat)
    requires Closing(mem, i, false) >= 0
    ensures |Unescaped(mem, i, Closing(mem, i, false))| <= Scouted(mem, i, Closing(mem, i, false), false)
    decreases |mem| - i
  {
    var j := Closing(mem, i, false);
    if i < j {
      if mem[i] == BACKSLASH {
        EscapeInside(mem, i);
        ScoutedEnough(mem, Escape(mem, i + 1).next);
      } else {
        ScoutedEnough(mem, i + 1);
      }
    }
  }

  // The scouting loop.
  method Scout(mem: seq<byte>, start: nat) returns (ok: bool, stop: nat, l: nat)
    requires NulEnded(mem) && start < |mem|
    ensures ok <==> Closing(mem, start, false) >= 0
    ensures ok ==> stop == Closing(mem, start, false) && l == 1 + Scouted(mem, start, stop, false)
  {
    ghost var j := Closing(mem, start, false);
    var cur, escaped := start, false;
    l := 1;
    while mem[cur] != QUOTE || escaped
      invariant start <= cur < |mem| && j == Closing(mem, cur, escaped)
      invariant j >= 0 ==> l + Scouted(mem, cur, j, escaped) == 1 + Scouted(mem, start, j, false)
      decreases |mem| - cur
    {
      if mem[cur] == 0 {
        return false, cur, l;
      } else if mem[cur] == BACKSLASH && !escaped {
        escaped := true;
      } else {
        escaped := false;
        l := l + 1;
      }
      cur := cur + 1;
    }
    return true, cur, l;
  }

  method StoreNil(buf: array<byte>) returns (dst: array<byte>)
    modifies buf
    ensures (dst == buf || fresh(dst)) && dst.Length >= 2 && dst[..2] == [NIL_BYTE, 0]
  {
    dst := buf;
    if dst.Length < 2 {
      dst := new byte[2];
    }
    dst[0], dst[1] := NIL_BYTE, 0;
  }

  // The text behind an opening quote.
  method FromQuoted(mem: seq<byte>, buf: array<byte>, i: nat) returns (r: int, dst: array<byte>)
    requires NulEnded(mem) && i < |mem|
    modifies buf
    ensures dst == buf || fresh(dst)
    ensures var j := Closing(mem, i, false);
            if j < 0 then r == -1
            else
              var text := Unescaped(mem, i, j);
              && r == (if Decodable(text) then j - i else -1)
              && (Decodable(text) ==> |text| < dst.Length && dst[..|text|] == text && dst[|text|] == 0)
  {
    hide Closing;
    hide Scouted;
    hide Unescaped;
    hide Decodable;
    dst := buf;
    var ok, stop, l := Scout(mem, i);
    if !ok {
      return -1, dst;
    }
    if dst.Length < l {
      dst := new byte[l];
    }
    ScoutedEnough(mem, i);
    r := Decode(dst, mem, i, stop);
  }

  // Parses a C string into dst, a buffer of its own unless the one it was given is large enough.
  method StrFromStr(mem: seq<byte>, buf: array<byte>) returns (r: int, dst: array<byte>)
    requires NulEnded(mem)
    modifies buf
    ensures dst == buf || fresh(dst)
    ensures match ParseString(mem)
            case Nil(n) => r == n && dst.Length >= 2 && dst[..2] == [NIL_BYTE, 0]
            case Value(text, n) => r == n && |text| < dst.Length && dst[..|text|] == text && dst[|text|] == 0
            case Refused => r == -1
  {
    hide Closing;
    hide Unescaped;
    hide Decodable;
    var nil := mem[0] == NIL_BYTE;
    var cur := 0;
    if !nil {
      while Space(mem[cur])
        invariant cur < |mem| && SkipSpaces(mem, cur) == SkipSpaces(mem, 0)
        decreases |mem| - cur
      {
        cur := cur + 1;
      }
      nil := mem[cur] != QUOTE && [110, 105, 108] <= mem[cur..];
    }
    if nil {
      dst := StoreNil(buf);
      r := if mem[0] == NIL_BYTE then 1 else cur + 3;
    } else if mem[cur] != QUOTE {
      r, dst := -1, buf;
    } else {
      r, dst := FromQuoted(mem, buf, cur + 1);
    }
  }
}
