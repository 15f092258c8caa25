// UTF-8: the grammar and the encoding of RFC 3629, and the validator that the string decoder
// runs byte by byte.
module Utf8 {
  import opened Bytes

  // ------------------------------------------------------------------------------------------
  // Section 4 of RFC 3629: the syntax of byte sequences.

  predicate Tail(b: nat) {
    0x80 <= b <= 0xBF
  }

  // The length of the character that s starts with, zero if there is none.
  function CharLen(s: seq<nat>): (k: nat)
    ensures k <= 4 && k <= |s|
  {
    if |s| >= 1 && s[0] <= 0x7F then 1
    else if |s| >= 2 && 0xC2 <= s[0] <= 0xDF && Tail(s[1]) then 2
    else if |s| >= 3 && ThreeByteStart(s[0], s[1]) && Tail(s[2]) then 3
    else if |s| >= 4 && FourByteStart(s[0], s[1]) && Tail(s[2]) && Tail(s[3]) then 4
    else 0
  }

  predicate ThreeByteStart(a: nat, b: nat) {
    || (a == 0xE0 && 0xA0 <= b <= 0xBF)
    || (0xE1 <= a <= 0xEC && Tail(b))
    || (a == 0xED && 0x80 <= b <= 0x9F)
    || (0xEE <= a <= 0xEF && Tail(b))
  }

  predicate FourByteStart(a: nat, b: nat) {
    || (a == 0xF0 && 0x90 <= b <= 0xBF)
    || (0xF1 <= a <= 0xF3 && Tail(b))
    || (a == 0xF4 && 0x80 <= b <= 0x8F)
  }

  predicate WellFormed(s: seq<nat>) {
    s == [] || (CharLen(s) > 0 && WellFormed(s[CharLen(s)..]))
  }

  // ------------------------------------------------------------------------------------------
  // Section 3 of RFC 3629: the encoding of a code point.

  predicate Scalar(u: nat) {
    u <= 0x10FFFF && !(0xD800 <= u <= 0xDFFF)
  }

  function Encode(u: nat): (s: seq<nat>)
    requires Scalar(u)
    ensures s != []
  {
    if u < 0x80 then [u]
    else if u < 0x800 then [0xC0 + u / 64, 0x80 + u % 64]
    else if u < 0x10000 then [0xE0 + u / 64 / 64, 0x80 + u / 64 % 64, 0x80 + u % 64]
    else [0xF0 + u / 64 / 64 / 64, 0x80 + u / 64 / 64 % 64, 0x80 + u / 64 % 64, 0x80 + u % 64]
  }

  // The code point of a whole character.
  function Point(s: seq<nat>): nat
    requires CharLen(s) == |s|
  {
    if |s| == 0 then 0
    else if |s| == 1 then s[0]
    else if |s| == 2 then (s[0] - 0xC0) * 64 + (s[1] - 0x80)
    else if |s| == 3 then ((s[0] - 0xE0) * 64 + (s[1] - 0x80)) * 64 + (s[2] - 0x80)
    else (((s[0] - 0xF0) * 64 + (s[1] - 0x80)) * 64 + (s[2] - 0x80)) * 64 + (s[3] - 0x80)
  }

  predicate Scalars(us: seq<nat>) {
    forall i :: 0 <= i < |us| ==> Scalar(us[i])
  }

  function EncodeAll(us: seq<nat>): seq<nat>
    requires Scalars(us)
  {
    if us == [] then [] else Encode(us[0]) + EncodeAll(us[1..])
  }

  lemma EncodeIsChar(u: nat, rest: seq<nat>)
    requires Scalar(u)
    ensures CharLen(Encode(u) + rest) == |Encode(u)|
    ensures CharLen(Encode(u)) == |Encode(u)| && Point(Encode(u)) == u
  {
    hide Encode;
    hide CharLen;
    hide Point;
    hide Scalar;
    LengthOfEncode(u, rest);
    LengthOfEncode(u, []);
    assert Encode(u) + [] == Encode(u);
    PointOfEncode(u);
  }

  lemma LengthOfEncode(u: nat, rest: seq<nat>)
    requires Scalar(u)
    ensures CharLen(Encode(u) + rest) == |Encode(u)|
  {
  }

  lemma PointOfEncode(u: nat)
    requires Scalar(u) && CharLen(Encode(u)) == |Encode(u)|
    ensures Point(Encode(u)) == u
  {
    hide CharLen;
  }

  lemma CharIsEncode(s: seq<nat>)
    requires CharLen(s) > 0 && CharLen(s) == |s|
    ensures Scalar(Point(s)) && Encode(Point(s)) == s
  {
    hide Encode;
    hide Scalar;
    if |s| == 4 {
      EncodeFour(s[0] - 0xF0, s[1] - 0x80, s[2] - 0x80, s[3] - 0x80);
    } else if |s| == 3 {
      EncodeThree(s[0] - 0xE0, s[1] - 0x80, s[2] - 0x80);
    } else {
      EncodeShort(s);
    }
  }

  lemma EncodeShort(s: seq<nat>)
    requires 1 <= |s| <= 2 && CharLen(s) == |s|
    ensures Scalar(Point(s)) && Encode(Point(s)) == s
  {
    if |s| == 2 {
      Digits64(s[0] - 0xC0, s[1] - 0x80);
    }
  }

  lemma EncodeThree(a: nat, b: nat, c: nat)
    requires ThreeByteStart(0xE0 + a, 0x80 + b) && b < 64 && c < 64
    ensures var u := (a * 64 + b) * 64 + c;
            Scalar(u) && Encode(u) == [0xE0 + a, 0x80 + b, 0x80 + c]
  {
    Digits64(a * 64 + b, c);
    Digits64(a, b);
  }

  lemma EncodeFour(a: nat, b: nat, c: nat, d: nat)
    requires FourByteStart(0xF0 + a, 0x80 + b) && b < 64 && c < 64 && d < 64
    ensures var u := ((a * 64 + b) * 64 + c) * 64 + d;
            Scalar(u) && Encode(u) == [0xF0 + a, 0x80 + b, 0x80 + c, 0x80 + d]
  {
    Digits64((a * 64 + b) * 64 + c, d);
    Digits64(a * 64 + b, c);
    Digits64(a, b);
  }

  lemma Digits64(q: nat, r: nat)
    requires r < 64
    ensures (q * 64 + r) / 64 == q && (q * 64 + r) % 64 == r
  {
  }

  lemma CharPrefix(s: seq<nat>, rest: seq<nat>)
    requires CharLen(s) > 0
    ensures CharLen(s + rest) == CharLen(s) && CharLen(s[..CharLen(s)]) == CharLen(s)
  {
  }

  lemma {:induction false} EncodedIsWellFormed(us: seq<nat>)
    requires Scalars(us)
    ensures WellFormed(EncodeAll(us))
  {
    if us == [] {
    } else {
      EncodedIsWellFormed(us[1..]);
      EncodeIsChar(us[0], EncodeAll(us[1..]));
      assert EncodeAll(us)[|Encode(us[0])|..] == EncodeAll(us[1..]);
    }
  }

  // The code points of a well-formed text.
  function Points(s: seq<nat>): seq<nat>
    requires WellFormed(s)
  {
    if s == [] then []
    else
      CharPrefix(s, []);
      [Point(s[..CharLen(s)])] + Points(s[CharLen(s)..])
  }

  lemma EncodeCons(u: nat, us: seq<nat>)
    requires Scalar(u) && Scalars(us)
    ensures Scalars([u] + us) && EncodeAll([u] + us) == Encode(u) + EncodeAll(us)
  {
    assert ([u] + us)[1..] == us;
  }

  lemma {:induction false} WellFormedIsEncoded(s: seq<nat>)
    requires WellFormed(s)
    ensures Scalars(Points(s)) && EncodeAll(Points(s)) == s
  {
    hide Encode;
    hide Point;
    hide CharLen;
    if s == [] {
    } else {
      var k := CharLen(s);
      CharPrefix(s, []);
      CharIsEncode(s[..k]);
      WellFormedIsEncoded(s[k..]);
      EncodeCons(Point(s[..k]), Points(s[k..]));
      assert s == s[..k] + s[k..];
    }
  }

  // The grammar of section 4 describes exactly the encodings of section 3.
  lemma GrammarIsEncoding(s: seq<nat>)
    ensures WellFormed(s) <==>
            exists us: seq<nat> :: Scalars(us) && EncodeAll(us) == s
  {
    if WellFormed(s) {
      WellFormedIsEncoded(s);
    }
    forall us: seq<nat> | Scalars(us) && EncodeAll(us) == s
      ensures WellFormed(s)
    {
      EncodedIsWellFormed(us);
    }
  }

  lemma {:induction false} WellFormedConcat(a: seq<nat>, b: seq<nat>)
    requires WellFormed(a)
    ensures WellFormed(a + b) <==> WellFormed(b)
  {
    if a == [] {
      assert a + b == b;
    } else {
      hide CharLen;
      var k := CharLen(a);
      CharPrefix(a, b);
      WellFormedConcat(a[k..], b);
      assert (a + b)[k..] == a[k..] + b;
    }
  }

  lemma {:induction false} WellFormedBytes(s: seq<nat>)
    requires WellFormed(s)
    ensures forall i :: 0 <= i < |s| ==> s[i] < 256
  {
    if s == [] {
    } else {
      WellFormedBytes(s[CharLen(s)..]);
      assert forall i :: CharLen(s) <= i < |s| ==> s[i] == s[CharLen(s)..][i - CharLen(s)];
    }
  }

  // ------------------------------------------------------------------------------------------
  // The validator of the string decoder.  Its state is the number of bytes still to come, the
  // bits that a shortest encoding must touch, and the code point collected so far.

  // A mask of consecutive bits, from weight low up to weight low * span; a number meets it when
  // the two have a bit in common.
  datatype Mask = Mask(low: nat, span: nat)

  predicate Meets(u: nat, m: Mask)
    requires m.low > 0 && m.span > 0
  {
    u / m.low % m.span != 0
  }

  // utf8chkmsk: bits 7 to 10, 11 to 15 and 16 to 20.
  function CheckMask(n: nat): Mask
    requires 1 <= n <= 3
  {
    if n == 1 then Mask(0x80, 16) else if n == 2 then Mask(0x800, 32) else Mask(0x10000, 32)
  }

  datatype State = State(n: nat, mask: Mask, u: nat)

  // The weight of the bit that ends the run of ones in the lead byte of a character with n tails.
  function LeadSpan(n: nat): (r: nat)
    requires 1 <= n <= 3
    ensures r > 0
  {
    if n == 1 then 32 else if n == 2 then 16 else 8
  }

  // c is a lead byte that announces n tails.
  predicate Leads(c: nat, n: nat) {
    1 <= n <= 3 && c < 256 && c / LeadSpan(n) == 256 / LeadSpan(n) - 2
  }

  // The code point collected from a lead byte with n tails and the tails seen.
  function Collected(part: seq<nat>, n: nat): nat
    requires part != [] && 1 <= n <= 3
  {
    if |part| == 1 then part[0] % LeadSpan(n)
    else Collected(part[..|part| - 1], n) * 64 + part[|part| - 1] % 64
  }

  // part is what has been seen of the current character.
  ghost predicate Pending(part: seq<nat>, st: State) {
    if st.n == 0 then part == []
    else
      && part != [] && 1 <= |part| - 1 + st.n <= 3
      && var total := |part| - 1 + st.n;
        && Leads(part[0], total)
        && (forall i :: 1 <= i < |part| ==> Tail(part[i]))
        && st.mask == CheckMask(total) && st.u == Collected(part, total)
  }

  predicate Rejected(u: nat, m: Mask)
    requires m.low > 0 && m.span > 0
  {
    || !Meets(u, m)
    || u > 0x10FFFF
    || u / 2048 % 16384 == 27
  }

  // The three tests on a collected code point are the restrictions of the grammar.
  lemma LastTail(part: seq<nat>, total: nat, rest: seq<nat>)
    requires 1 <= total <= 3 && |part| == total + 1 && Leads(part[0], total)
    requires forall i :: 1 <= i < |part| ==> Tail(part[i])
    ensures CharLen(part + rest) == if Rejected(Collected(part, total), CheckMask(total)) then 0 else |part|
  {
    hide Collected;
    hide Rejected;
    if total == 1 {
      CollectedTwo(part);
      RejectTwo(part[0], part[1]);
    } else if total == 2 {
      CollectedThree(part);
      RejectThree(part[0], part[1], part[2]);
    } else {
      CollectedFour(part);
      RejectFour(part[0], part[1], part[2], part[3]);
    }
  }

  lemma RejectTwo(a: nat, b: nat)
    requires Leads(a, 1) && Tail(b)
    ensures Rejected(a % 32 * 64 + b % 64, CheckMask(1)) <==> a < 0xC2
  {
  }

  lemma RejectThree(a: nat, b: nat, c: nat)
    requires Leads(a, 2) && Tail(b) && Tail(c)
    ensures Rejected((a % 16 * 64 + b % 64) * 64 + c % 64, CheckMask(2)) <==> !ThreeByteStart(a, b)
  {
    hide Rejected;
    var k, w := (a - 0xE0) * 64 + (b - 0x80), c - 0x80;
    RejectMiddle(k, w);
    assert (a % 16 * 64 + b % 64) * 64 + c % 64 == k * 64 + w;
  }

  lemma RejectMiddle(k: nat, w: nat)
    requires k < 1024 && w < 64
    ensures Rejected(k * 64 + w, CheckMask(2)) <==> k < 32 || 864 <= k < 896
  {
    var u := k * 64 + w;
    assert u / 2048 == k / 32;
  }

  lemma RejectFour(a: nat, b: nat, c: nat, d: nat)
    requires Leads(a, 3) && Tail(b) && Tail(c) && Tail(d)
    ensures Rejected(((a % 8 * 64 + b % 64) * 64 + c % 64) * 64 + d % 64, CheckMask(3)) <==> !FourByteStart(a, b)
  {
    hide Rejected;
    var k, w := (a - 0xF0) * 64 + (b - 0x80), (c - 0x80) * 64 + (d - 0x80);
    RejectTop(k, w);
    TailBits(b);
    TailBits(c);
    TailBits(d);
    assert a % 8 == a - 0xF0;
  }

  lemma TailBits(b: nat)
    requires Tail(b)
    ensures b % 64 == b - 0x80
  {
  }

  lemma RejectTop(k: nat, w: nat)
    requires k < 512 && w < 4096
    ensures Rejected(k * 4096 + w, CheckMask(3)) <==> k < 16 || k >= 272
  {
    var u := k * 4096 + w;
    assert u / 65536 == k / 16;
    assert u / 2048 == 2 * k + w / 2048;
  }

  lemma CollectedTwo(part: seq<nat>)
    requires |part| == 2
    ensures Collected(part, 1) == part[0] % 32 * 64 + part[1] % 64
  {
  }

  lemma CollectedThree(part: seq<nat>)
    requires |part| == 3
    ensures Collected(part, 2) == (part[0] % 16 * 64 + part[1] % 64) * 64 + part[2] % 64
  {
    assert Collected(part[..2], 2) == Collected(part[..1], 2) * 64 + part[1] % 64 by {
      assert part[..2][..1] == part[..1];
    }
  }

  lemma CollectedFour(part: seq<nat>)
    requires |part| == 4
    ensures Collected(part, 3) == ((part[0] % 8 * 64 + part[1] % 64) * 64 + part[2] % 64) * 64 + part[3] % 64
  {
    assert Collected(part[..3], 3) == Collected(part[..2], 3) * 64 + part[2] % 64 by {
      assert part[..3][..2] == part[..2];
    }
    assert Collected(part[..2], 3) == Collected(part[..1], 3) * 64 + part[1] % 64 by {
      assert part[..2][..1] == part[..1];
    }
  }

  // A character is cut short when a byte that is no tail comes where a tail is due.
  lemma MissingTail(part: seq<nat>, n: nat, c: nat, rest: seq<nat>)
    requires 1 <= |part| <= n <= 3 && Leads(part[0], n) && !Tail(c)
    ensures CharLen(part + [c] + rest) == 0
  {
    var s := part + [c] + rest;
    assert s[0] == part[0] && s[|part|] == c;
  }

  lemma NoLead(c: nat, rest: seq<nat>)
    requires 0x80 <= c < 256 && !Leads(c, 1) && !Leads(c, 2) && !Leads(c, 3)
    ensures CharLen([c] + rest) == 0
  {
  }

  lemma Incomplete(part: seq<nat>, st: State)
    requires Pending(part, st) && st.n > 0
    ensures CharLen(part) == 0
  {
  }

  // How many ones follow the first bit of c.
  method CountOnes(c: byte) returns (n: nat)
    requires c >= 0x80
    ensures forall k :: 1 <= k <= 3 ==> (n == k <==> Leads(c, k))
  {
    n := 0;
    var m: nat := 64;
    while m > 0 && c / m % 2 == 1
      invariant n <= 7 && m == [64, 32, 16, 8, 4, 2, 1, 0][n]
      invariant n >= 1 ==> c / 64 == 3
      invariant n >= 2 ==> c / 32 == 7
      invariant n >= 3 ==> c / 16 == 15
      invariant n >= 4 ==> c / 8 == 31
      decreases m
    {
      n, m := n + 1, m / 2;
    }
  }

  // One byte through the validator.  A refusal is final: no continuation could make the bytes
  // seen of this character well-formed.
  method Step(st: State, c: byte, ghost part: seq<nat>) returns (ok: bool, st': State)
    requires Pending(part, st)
    ensures ok ==> Pending(if st'.n == 0 then [] else part + [c], st')
    ensures ok && st'.n == 0 ==> CharLen(part + [c]) == |part| + 1
    ensures !ok ==> forall rest: seq<nat> :: CharLen(part + [c] + rest) == 0
  {
    ok, st' := true, st;
    if st.n > 0 {
      ghost var total := |part| - 1 + st.n;
      if c / 64 != 2 {
        forall rest: seq<nat> ensures CharLen(part + [c] + rest) == 0 {
          MissingTail(part, total, c, rest);
        }
        ok := false;
        return;
      }
      var u := st.u * 64 + c % 64;
      assert (part + [c])[..|part|] == part;
      assert u == Collected(part + [c], total);
      st' := State(st.n - 1, st.mask, u);
      if st'.n == 0 {
        ok := !Rejected(u, st.mask);
        forall rest: seq<nat> ensures CharLen(part + [c] + rest) == if ok then |part| + 1 else 0 {
          LastTail(part + [c], total, rest);
        }
        assert part + [c] + [] == part + [c];
      }
    } else if c >= 0x80 {
      var n := CountOnes(c);
      if n == 0 || n >= 4 {
        forall rest: seq<nat> ensures CharLen(part + [c] + rest) == 0 {
          assert part + [c] + rest == [c] + rest;
          NoLead(c, rest);
        }
        ok := false;
        return;
      }
      st' := State(n, CheckMask(n), c % LeadSpan(n));
    }
  }
}
