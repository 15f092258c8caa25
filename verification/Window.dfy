// The output side of the decompressor: literals and matches written into a buffer that is
// either the caller's flat output or a circular dictionary handed out piece by piece.
module Window {
  import opened Arithmetic
  import opened Bytes

  // Section 3.2.3 of RFC 1951: repeat len times "append the byte dist back".
  function CopyMatch(out: seq<byte>, dist: nat, len: nat): (r: seq<byte>)
    requires 1 <= dist <= |out|
    ensures |r| == |out| + len && r[..|out|] == out
    decreases len
  {
    if len == 0 then out else CopyMatch(out + [out[|out| - dist]], dist, len - 1)
  }

  // An overlapping match repeats the last dist bytes.
  lemma {:induction false} CopyMatchPeriodic(out: seq<byte>, dist: nat, len: nat, i: nat)
    requires 1 <= dist <= |out| && i < len
    ensures CopyMatch(out, dist, len)[|out| + i] == out[|out| - dist + i % dist]
    decreases len
  {
    var out' := out + [out[|out| - dist]];
    var r := CopyMatch(out, dist, len);
    assert r == CopyMatch(out', dist, len - 1);
    if i == 0 {
      assert r[|out|] == r[..|out'|][|out|] == out'[|out|];
    } else {
      CopyMatchPeriodic(out', dist, len - 1, i - 1);
      var m := (i - 1) % dist;
      assert (i - 1) / dist * dist + m == i - 1;
      if m == dist - 1 {
        DivisionIs(i, dist, (i - 1) / dist + 1);
      } else {
        DivisionIs(i, dist, (i - 1) / dist);
      }
    }
  }

  lemma CopyMatchFirst(out: seq<byte>, dist: nat, len: nat)
    requires 1 <= dist <= |out| && len > 0
    ensures CopyMatch(out, dist, len) == CopyMatch(out + [out[|out| - dist]], dist, len - 1)
  {
  }

  lemma {:induction false} CopyMatchSplit(out: seq<byte>, dist: nat, a: nat, b: nat)
    requires 1 <= dist <= |out|
    ensures CopyMatch(out, dist, a + b) == CopyMatch(CopyMatch(out, dist, a), dist, b)
    decreases a
  {
    hide CopyMatch;
    if a == 0 {
      CopyMatchNone(out, dist);
    } else {
      var out' := out + [out[|out| - dist]];
      CopyMatchSplit(out', dist, a - 1, b);
      CopyMatchFirst(out, dist, a);
      CopyMatchFirst(out, dist, a + b);
    }
  }

  lemma CopyMatchNone(out: seq<byte>, dist: nat)
    requires 1 <= dist <= |out|
    ensures CopyMatch(out, dist, 0) == out
  {
  }

  // One more byte of a match that is already k bytes long.
  lemma CopyMatchNext(out: seq<byte>, dist: nat, k: nat)
    requires 1 <= dist <= |out|
    ensures var r := CopyMatch(out, dist, k); CopyMatch(out, dist, k + 1) == r + [r[|r| - dist]]
  {
    CopyMatchSplit(out, dist, k, 1);
    var r := CopyMatch(out, dist, k);
    assert CopyMatch(r, dist, 1) == CopyMatch(r + [r[|r| - dist]], dist, 0);
  }

  // Where the byte dist back from the cursor lies in a buffer of n bytes.
  function SourceIndex(cursor: int, dist: int, n: int): int {
    if cursor >= dist then cursor - dist else cursor - dist + n
  }

  // Masking with a power of two is this remainder, also for a difference that went negative.
  lemma MaskedIndex(cursor: nat, dist: nat, n: nat, wraps: nat)
    requires 1 <= dist <= n && cursor <= n
    ensures (cursor + wraps * n - dist) % n == SourceIndex(cursor, dist, n)
  {
    if cursor >= dist {
      DivisionIs(cursor + wraps * n - dist, n, wraps);
    } else {
      assert (wraps - 1) * n == wraps * n - n;
      DivisionIs(cursor + wraps * n - dist, n, wraps - 1);
    }
  }

  // The buffer holds, back from the cursor, the last bytes of the output: all of it, or as many as
  // the buffer has room for.
  ghost predicate HoldsLast(buf: seq<byte>, cursor: nat, out: seq<byte>) {
    cursor <= |buf| && forall dist :: 1 <= dist <= |out| && dist <= |buf| ==> HoldsAt(buf, cursor, out, dist)
  }

  predicate HoldsAt(buf: seq<byte>, cursor: nat, out: seq<byte>, dist: nat)
    requires 1 <= dist <= |out| && dist <= |buf| && cursor <= |buf|
  {
    buf[SourceIndex(cursor, dist, |buf|)] == out[|out| - dist]
  }

  // Bytes stored at the cursor become the last ones of the output.
  lemma HoldsMore(buf: seq<byte>, buf': seq<byte>, cursor: nat, out: seq<byte>, bytes: seq<byte>)
    requires HoldsLast(buf, cursor, out) && |buf'| == |buf| && cursor + |bytes| <= |buf|
    requires buf'[cursor..cursor + |bytes|] == bytes
    requires forall j :: 0 <= j < |buf| && !(cursor <= j < cursor + |bytes|) ==> buf'[j] == buf[j]
    ensures HoldsLast(buf', cursor + |bytes|, out + bytes)
  {
    var (c, n) := (cursor + |bytes|, |bytes|);
    forall dist | 1 <= dist <= |out + bytes| && dist <= |buf| ensures HoldsAt(buf', c, out + bytes, dist) {
      if dist <= n {
        assert bytes[n - dist] == buf'[cursor..c][n - dist];
      } else {
        assert HoldsAt(buf, cursor, out, dist - n);
      }
    }
  }

  // The end of the buffer is its beginning.
  lemma HoldsWrapped(buf: seq<byte>, out: seq<byte>)
    ensures HoldsLast(buf, |buf|, out) <==> HoldsLast(buf, 0, out)
  {
    forall dist | 1 <= dist <= |out| && dist <= |buf| ensures HoldsAt(buf, |buf|, out, dist) <==> HoldsAt(buf, 0, out, dist) {
    }
  }

  lemma NextLap(wraps: nat, n: nat)
    ensures (wraps + 1) * n == wraps * n + n
  {
  }

  // The output a buffer of len bytes has room for when the caller comes back that many times: a
  // circular one is filled again, a flat one is replaced by one twice its size.
  function Capacity(wrapping: bool, len: nat, rounds: nat): nat
    decreases rounds
  {
    if rounds == 0 then len
    else if wrapping then len + Capacity(wrapping, len, rounds - 1)
    else Capacity(wrapping, 2 * len, rounds - 1)
  }

  class Out {
    var buf: array<byte>
    var cur: nat
    const wrapping: bool
    // How many more times the caller will come back with room for output.
    var resumes: nat
    // Start of the piece the caller has not been given yet, and the pieces it has.
    var from: nat
    var delivered: seq<byte>
    // The unbounded output, and the part of it that earlier rounds through the buffer hold.
    ghost var flat: seq<byte>
    ghost var base: nat
    // All the output that will ever fit.
    ghost const capacity: nat

    // The buffer is right up to position c, which the flat output has reached.
    ghost predicate ValidAt(c: nat)
      reads this, buf
    {
      && buf.Length > 0 && from <= cur <= c <= buf.Length && |flat| == base + c
      && (base == 0 || (wrapping && base >= buf.Length))
      && (forall j :: 0 <= j < c ==> buf[j] == flat[base + j])
      && (base > 0 ==> forall j :: c <= j < buf.Length ==> buf[j] == flat[base - buf.Length + j])
      && |delivered| == base + from && delivered == flat[..|delivered|]
      && base + Capacity(wrapping, buf.Length, resumes) == capacity
    }

    ghost predicate Valid()
      reads this, buf
    {
      ValidAt(cur)
    }

    constructor (size: nat, circular: bool, rounds: nat)
      requires size > 0
      ensures Valid() && flat == [] && fresh(buf) && buf.Length == size
      ensures wrapping == circular && resumes == rounds && capacity == Capacity(circular, size, rounds)
    {
      capacity := Capacity(circular, size, rounds);
      buf := new byte[size];
      cur, from, wrapping, resumes, delivered := 0, 0, circular, rounds, [];
      flat, base := [], 0;
    }

    // The pieces handed out and the piece still in the buffer are the flat output, each byte once.
    lemma Conserved()
      requires Valid()
      ensures delivered + buf[from..cur] == flat
    {
    }

    // An output that is stuck has used all the room there was.
    lemma Full()
      requires Valid() && resumes == 0 && cur == buf.Length
      ensures |flat| == capacity
    {
    }

    lemma Produced()
      requires Valid()
      ensures |flat| == |delivered| + (cur - from) && cur <= buf.Length && from <= cur
      ensures !wrapping ==> |flat| == cur
    {
    }

    // The byte dist back is still in the buffer.
    lemma SourceByte(c: nat, dist: nat)
      requires ValidAt(c) && c < buf.Length && 1 <= dist <= |flat| && dist <= buf.Length
      ensures 0 <= SourceIndex(c, dist, buf.Length) < buf.Length
      ensures buf[SourceIndex(c, dist, buf.Length)] == flat[|flat| - dist]
    {
    }

    // So the buffer is the window a match may reach into.
    lemma HoldsWindow()
      requires Valid()
      ensures HoldsLast(buf[..], cur, flat)
    {
      forall dist | 1 <= dist <= |flat| && dist <= buf.Length ensures HoldsAt(buf[..], cur, flat, dist) {
      }
    }

    method Store(i: nat, b: byte)
      requires ValidAt(i) && i < buf.Length
      modifies buf, this`flat
      ensures ValidAt(i + 1) && flat == old(flat) + [b]
    {
      buf[i] := b;
      flat := flat + [b];
    }

    method PutByte(b: byte)
      requires Valid() && cur < buf.Length
      modifies buf, this`flat, this`cur
      ensures Valid() && cur == old(cur) + 1 && flat == old(flat) + [b]
    {
      Store(cur, b);
      cur := cur + 1;
    }

    // The caller takes what is in the buffer, at any moment.
    method Deliver()
      requires Valid()
      modifies this`from, this`delivered
      ensures Valid() && from == cur && delivered == flat
    {
      Conserved();
      delivered := delivered + buf[from..cur];
      from := cur;
    }

    // A buffer of twice the size with the same bytes in front.
    method Doubled() returns (bigger: array<byte>)
      ensures fresh(bigger) && bigger.Length == 2 * buf.Length && bigger[..buf.Length] == buf[..]
    {
      bigger := new byte[2 * buf.Length];
      var i := 0;
      while i < buf.Length
        invariant 0 <= i <= buf.Length && bigger[..i] == buf[..i]
      {
        bigger[i] := buf[i];
        i := i + 1;
      }
    }

    // The buffer is full: report HAS_MORE_OUTPUT and resume, at the start of the circular
    // buffer or with a larger flat one; or stay suspended for good.
    method MakeRoom() returns (resumed: bool)
      requires Valid() && cur == buf.Length
      modifies this`cur, this`buf, this`resumes, this`from, this`delivered, this`base
      ensures Valid() && flat == old(flat) && buf.Length >= old(buf.Length)
      ensures wrapping ==> buf == old(buf)
      ensures buf == old(buf) || fresh(buf)
      ensures resumed <==> old(resumes) > 0
      ensures resumed ==> cur < buf.Length && resumes == old(resumes) - 1
      ensures !resumed ==> cur == old(cur) && buf == old(buf) && resumes == 0
      ensures resumed ==> cur == if wrapping then 0 else old(cur)
    {
      if resumes == 0 {
        return false;
      }
      if wrapping {
        Deliver();
        resumes := resumes - 1;
        cur, from, base := 0, 0, base + buf.Length;
      } else {
        var bigger := Doubled();
        buf, resumes := bigger, resumes - 1;
      }
      return true;
    }

    // Byte number k of a match, read dist back from position i of the buffer.
    method CopyByte(i: nat, src: nat, ghost dist: nat, ghost before: seq<byte>, ghost k: nat)
      requires ValidAt(i) && i < buf.Length && 1 <= dist <= |before| && dist <= buf.Length
      requires src == SourceIndex(i, dist, buf.Length) && flat == CopyMatch(before, dist, k)
      modifies buf, this`flat
      ensures ValidAt(i + 1) && flat == CopyMatch(before, dist, k + 1)
    {
      SourceByte(i, dist);
      CopyMatchNext(before, dist, k);
      Store(i, buf[src]);
    }

    method Advance(n: nat)
      requires ValidAt(cur + n)
      modifies this`cur
      ensures Valid() && cur == old(cur) + n
    {
      cur := cur + n;
    }

    method CopyThree(src: nat, ghost dist: nat, ghost before: seq<byte>, ghost k: nat)
      requires Valid() && 1 <= dist <= |before| && dist <= buf.Length && flat == CopyMatch(before, dist, k)
      requires src == SourceIndex(cur, dist, buf.Length)
      requires cur + 3 <= buf.Length && src + 3 <= buf.Length
      modifies buf, this`flat, this`cur
      ensures Valid() && cur == old(cur) + 3 && flat == CopyMatch(before, dist, k + 3)
    {
      hide ValidAt;
      hide CopyMatch;
      CopyByte(cur, src, dist, before, k);
      CopyByte(cur + 1, src + 1, dist, before, k + 1);
      CopyByte(cur + 2, src + 2, dist, before, k + 2);
      Advance(3);
    }

    // Source and target lie inside the buffer: three bytes per round, then the last one or two.
    method CopyFast(start: nat, dist: nat, len: nat)
      requires Valid() && 1 <= dist <= |flat| && dist <= buf.Length && len >= 3
      requires start == SourceIndex(cur, dist, buf.Length)
      requires cur + len <= buf.Length && start + len <= buf.Length
      modifies buf, this`flat, this`cur
      ensures Valid() && cur == old(cur) + len
      ensures flat == CopyMatch(old(flat), dist, len)
    {
      hide ValidAt;
      hide CopyMatch;
      ghost var before, first := flat, cur;
      CopyMatchNone(before, dist);
      var src, counter := start, len;
      while counter > 2
        invariant Valid() && counter <= len
        invariant cur == first + (len - counter) && src == start + (len - counter)
        invariant flat == CopyMatch(before, dist, len - counter)
      {
        CopyThree(src, dist, before, len - counter);
        src := src + 3;
        counter := counter - 3;
      }
      CopyRest(src, dist, before, len - counter, counter);
    }

    // The last none, one or two bytes.
    method CopyRest(src: nat, ghost dist: nat, ghost before: seq<byte>, ghost k: nat, counter: nat)
      requires Valid() && 1 <= dist <= |before| && dist <= buf.Length && flat == CopyMatch(before, dist, k)
      requires counter > 0 ==> src == SourceIndex(cur, dist, buf.Length)
      requires counter <= 2 && cur + counter <= buf.Length && src + counter <= buf.Length
      modifies buf, this`flat, this`cur
      ensures Valid() && cur == old(cur) + counter && flat == CopyMatch(before, dist, k + counter)
    {
      hide ValidAt;
      hide CopyMatch;
      if counter > 0 {
        CopyByte(cur, src, dist, before, k);
        if counter > 1 {
          CopyByte(cur + 1, src + 1, dist, before, k + 1);
        }
      }
      Advance(counter);
    }

    // Otherwise byte by byte with a masked source index, suspending whenever the buffer is full.
    method CopySlow(dist: nat, len: nat) returns (copied: nat)
      requires Valid() && 1 <= dist <= |flat| && dist <= buf.Length
      requires !wrapping ==> dist <= cur
      modifies this`cur, this`buf, this`resumes, this`from, this`delivered, this`base, this`flat, buf
      ensures Valid() && copied <= len && flat == CopyMatch(old(flat), dist, copied)
      ensures copied < len ==> resumes == 0 && cur == buf.Length
      ensures wrapping ==> buf == old(buf)
      ensures buf == old(buf) || fresh(buf)
      ensures resumes < old(resumes) || (resumes == old(resumes) && buf == old(buf) && cur == old(cur) + copied)
    {
      hide CopyMatch;
      hide Capacity;
      ghost var whole := flat;
      CopyMatchNone(whole, dist);
      var distFrom := cur;
      ghost var wraps := 0;
      copied := 0;
      while copied < len
        invariant Valid() && copied <= len && flat == CopyMatch(whole, dist, copied)
        invariant dist <= buf.Length
        invariant resumes < old(resumes) || (resumes == old(resumes) && buf == old(buf) && cur == old(cur) + copied)
        invariant if wrapping then distFrom == cur + wraps * buf.Length else distFrom == cur && dist <= cur
        invariant wrapping ==> buf == old(buf)
        invariant buf == old(buf) || fresh(buf)
        decreases len - copied, resumes
      {
        if cur >= buf.Length {
          var resumed := MakeRoom();
          if !resumed {
            return;
          }
          NextLap(wraps, buf.Length);
          wraps := wraps + 1;
        } else {
          MaskedIndex(cur, dist, buf.Length, if wrapping then wraps else 0);
          var src := if wrapping then (distFrom - dist) % buf.Length else distFrom - dist;
          CopyByte(cur, src, dist, whole, copied);
          Advance(1);
          distFrom := distFrom + 1;
          copied := copied + 1;
        }
      }
    }

    // The match copy: both ways of doing it append the same bytes to the flat output.
    method CopyOut(dist: nat, len: nat) returns (copied: nat)
      requires Valid() && 1 <= dist <= |flat| && dist <= buf.Length && len >= 3
      requires !wrapping ==> dist <= cur
      modifies this`cur, this`buf, this`resumes, this`from, this`delivered, this`base, this`flat, buf
      ensures Valid() && copied <= len && flat == CopyMatch(old(flat), dist, copied)
      ensures copied < len ==> resumes == 0 && cur == buf.Length
      ensures wrapping ==> buf == old(buf)
      ensures buf == old(buf) || fresh(buf)
      ensures resumes < old(resumes) || (resumes == old(resumes) && buf == old(buf) && cur == old(cur) + copied)
    {
      MaskedIndex(cur, dist, buf.Length, 0);
      var src := if wrapping then (cur - dist) % buf.Length else cur - dist;
      var furthest := if cur >= src then cur else src;
      if furthest + len > buf.Length {
        copied := CopySlow(dist, len);
      } else {
        CopyFast(src, dist, len);
        copied := len;
      }
    }
  }
}
