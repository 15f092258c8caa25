// The buffered driver around the decompressor: output goes straight to the caller on a first and
// only call, through a 32 KiB dictionary otherwise, and leftovers wait in the dictionary.
module InflateDriver {
  import opened Arithmetic
  import opened Bytes
  import opened Sequences
  import opened Window

  const DICT_SIZE: nat := 32768

  datatype TStatus = Failed | Done | NeedsMoreInput | HasMoreOutput

  datatype Code = Ok | StreamEnd | StreamError | DataError | BufError

  const NO_FLUSH: int := 0
  const PARTIAL_FLUSH: int := 1
  const SYNC_FLUSH: int := 2
  const FINISH: int := 4

  predicate KnownFlush(flush: int) {
    flush == NO_FLUSH || flush == PARTIAL_FLUSH || flush == SYNC_FLUSH || flush == FINISH
  }

  // What one call of the decompressor can do: use up to availIn bytes, write up to room bytes, ask
  // for input only when more was promised and all of it is used, and for room only when it is full.
  ghost predicate Possible(availIn: nat, room: nat, moreInput: bool, used: nat, bytes: seq<byte>, status: TStatus) {
    && used <= availIn && |bytes| <= room
    && (status == NeedsMoreInput ==> moreInput && used == availIn)
    && (status == HasMoreOutput ==> |bytes| == room)
  }

  // Any decompressor with that behaviour.
  method Decompress(availIn: nat, room: nat, moreInput: bool) returns (used: nat, bytes: seq<byte>, status: TStatus)
    ensures Possible(availIn, room, moreInput, used, bytes, status)
  {
    used := *;
    bytes := *;
    status := *;
    if !(used <= availIn && |bytes| <= room
         && (status == NeedsMoreInput ==> moreInput && used == availIn)
         && (status == HasMoreOutput ==> |bytes| == room)) {
      used, bytes, status := 0, [], Failed;
    }
  }

  // Position c of the dictionary is where the decompressor goes on after all this output, and its last
  // 32 KiB are there.
  ghost predicate IsWindow(buf: seq<byte>, c: nat, out: seq<byte>) {
    c % DICT_SIZE == |out| % DICT_SIZE && HoldsLast(buf, c, out)
  }

  lemma WindowMore(buf: seq<byte>, buf': seq<byte>, c: nat, out: seq<byte>, bytes: seq<byte>)
    requires IsWindow(buf, c, out) && |buf'| == |buf| && c + |bytes| <= |buf|
    requires buf'[c..c + |bytes|] == bytes
    requires forall j :: 0 <= j < |buf| && !(c <= j < c + |bytes|) ==> buf'[j] == buf[j]
    ensures IsWindow(buf', c + |bytes|, out + bytes)
  {
    hide HoldsLast;
    HoldsMore(buf, buf', c, out, bytes);
  }

  lemma WindowWrapped(buf: seq<byte>, out: seq<byte>)
    requires |buf| == DICT_SIZE
    ensures IsWindow(buf, DICT_SIZE, out) <==> IsWindow(buf, 0, out)
  {
    hide HoldsLast;
    HoldsWrapped(buf, out);
  }

  // x & (DICT_SIZE - 1)
  function Masked(x: nat): (m: nat)
    ensures m < DICT_SIZE
  {
    x % DICT_SIZE
  }

  lemma MaskedInside(x: nat)
    requires x <= DICT_SIZE
    ensures Masked(x) == if x == DICT_SIZE then 0 else x
  {
  }

  lemma Slices(s: seq<byte>, a: nat, b: nat, c: nat)
    requires a <= b <= c <= |s|
    ensures s[a..b] + s[b..c] == s[a..c]
  {
  }

  // Delivering the first n pending bytes; masking the offset matters only when none is left.
  lemma Pieces(r: seq<byte>, s: seq<byte>, ofs: nat, n: nat, avail: nat)
    requires n <= avail && ofs + avail <= DICT_SIZE == |s|
    ensures var ofs' := Masked(ofs + n);
            ofs' + (avail - n) <= DICT_SIZE && r + s[ofs..ofs + n] + s[ofs'..ofs' + (avail - n)] == r + s[ofs..ofs + avail]
  {
    hide Masked;
    MaskedInside(ofs + n);
    if ofs + n < DICT_SIZE {
      Slices(s, ofs, ofs + n, ofs + avail);
      Associate(r, s[ofs..ofs + n], s[ofs + n..ofs + avail]);
    }
  }

  // Received and pending bytes are the decoded ones; off the direct path the dictionary is the window.
  ghost predicate Consistent(received: seq<byte>, buf: seq<byte>, ofs: nat, avail: nat, out: seq<byte>, direct: bool) {
    && ofs < DICT_SIZE && ofs + avail <= DICT_SIZE == |buf| && received + buf[ofs..ofs + avail] == out
    && (!direct ==> IsWindow(buf, ofs + avail, out))
  }

  lemma Delivering(received: seq<byte>, buf: seq<byte>, ofs: nat, n: nat, avail: nat, out: seq<byte>, direct: bool)
    requires n <= avail && Consistent(received, buf, ofs, avail, out, direct)
    ensures Masked(ofs + n) + (avail - n) <= DICT_SIZE
    ensures Consistent(received + buf[ofs..ofs + n], buf, Masked(ofs + n), avail - n, out, direct)
  {
    hide Masked;
    hide IsWindow;
    MaskedInside(ofs + n);
    WindowWrapped(buf, out);
    Pieces(received, buf, ofs, n, avail);
  }

  lemma Refilled(received: seq<byte>, buf: seq<byte>, buf': seq<byte>, ofs: nat, out: seq<byte>, direct: bool, bytes: seq<byte>)
    requires Consistent(received, buf, ofs, 0, out, direct) && |buf'| == |buf| && ofs + |bytes| <= |buf|
    requires buf'[ofs..ofs + |bytes|] == bytes
    requires forall j :: 0 <= j < |buf| && !(ofs <= j < ofs + |bytes|) ==> buf'[j] == buf[j]
    ensures Consistent(received, buf', ofs, |bytes|, out + bytes, direct)
  {
    hide IsWindow;
    NoneLeft(received, buf, ofs, out, direct);
    if !direct {
      WindowMore(buf, buf', ofs, out, bytes);
    }
  }

  lemma NoneLeft(received: seq<byte>, buf: seq<byte>, ofs: nat, out: seq<byte>, direct: bool)
    requires Consistent(received, buf, ofs, 0, out, direct)
    ensures received == out
  {
    hide IsWindow;
  }

  lemma Direct(received: seq<byte>, buf: seq<byte>, ofs: nat, out: seq<byte>, direct: bool, bytes: seq<byte>)
    requires Consistent(received, buf, ofs, 0, out, direct)
    ensures Consistent(received + bytes, buf, ofs, 0, out + bytes, true)
  {
    hide IsWindow;
    NoneLeft(received, buf, ofs, out, direct);
    assert received + bytes + buf[ofs..ofs] == out + bytes;
  }

  class InflateStream {
    // the caller's side: room and input on offer, totals, and the bytes received so far
    var availIn: nat
    var availOut: nat
    var totalIn: nat
    var totalOut: nat
    var received: seq<byte>
    // the dictionary and the bytes in it that are still to be delivered
    const dict: array<byte>
    var dictOfs: nat
    var dictAvail: nat
    var firstCall: bool
    var hasFlushed: bool
    var lastStatus: TStatus
    // everything the decompressor produced
    ghost var decoded: seq<byte>
    // the one call that bypasses the dictionary was made
    ghost var direct: bool

    ghost predicate Valid()
      reads this, dict
    {
      && dict.Length == DICT_SIZE && dictOfs + dictAvail <= DICT_SIZE && |received| == totalOut
      && Consistent(received, dict[..], dictOfs, dictAvail, decoded, direct)
    }

    lemma ConsistentInside()
      requires Valid()
      ensures dictOfs < DICT_SIZE && received + Pending() == decoded
      ensures dictAvail == 0 ==> received == decoded
    {
    }

    ghost function Pending(): seq<byte>
      requires dictOfs + dictAvail <= dict.Length
      reads this, dict
    {
      dict[dictOfs..dictOfs + dictAvail]
    }

    constructor ()
      ensures Valid() && fresh(dict) && decoded == [] && received == []
      ensures totalIn == 0 && totalOut == 0 && lastStatus == NeedsMoreInput && !hasFlushed && !direct
    {
      availIn, availOut, totalIn, totalOut, received := 0, 0, 0, 0, [];
      dict := new byte[DICT_SIZE];
      dictOfs, dictAvail, firstCall, hasFlushed, lastStatus := 0, 0, true, false, NeedsMoreInput;
      decoded, direct := [], false;
    }

    // Delivers pending bytes as far as the caller has room.
    method CopyOut()
      requires Valid()
      modifies `availOut, `totalOut, `received, `dictOfs, `dictAvail
      ensures Valid()
      ensures availOut + totalOut == old(availOut + totalOut) && old(received) <= received
      ensures dictAvail == old(dictAvail) - Min(old(dictAvail), old(availOut))
      ensures availOut == old(availOut) - Min(old(dictAvail), old(availOut))
    {
      hide Masked;
      hide Consistent;
      var n := Min(dictAvail, availOut);
      ConsistentInside();
      Delivering(received, dict[..], dictOfs, n, dictAvail, decoded, direct);
      received := received + dict[dictOfs..dictOfs + n];
      availOut, totalOut := availOut - n, totalOut + n;
      dictAvail, dictOfs := dictAvail - n, Masked(dictOfs + n);
    }

    // The decompressor's writes behind the dictionary offset.
    method Fill(bytes: seq<byte>)
      requires dictOfs + |bytes| <= dict.Length
      modifies dict
      ensures dict[dictOfs..dictOfs + |bytes|] == bytes
      ensures forall j :: 0 <= j < dict.Length && !(dictOfs <= j < dictOfs + |bytes|) ==> dict[j] == old(dict[j])
    {
      var k := 0;
      while k < |bytes|
        invariant k <= |bytes| && dict[dictOfs..dictOfs + k] == bytes[..k]
        invariant forall j :: 0 <= j < dict.Length && !(dictOfs <= j < dictOfs + k) ==> dict[j] == old(dict[j])
      {
        dict[dictOfs + k] := bytes[k];
        k := k + 1;
      }
    }

    // One call of the decompressor into the free part of the dictionary.
    method Refill(moreInput: bool)
      requires Valid() && dictAvail == 0
      modifies dict, `availIn, `totalIn, `dictAvail, `lastStatus, `decoded
      ensures Valid() && old(decoded) <= decoded
      ensures availIn + totalIn == old(availIn + totalIn)
      ensures lastStatus == NeedsMoreInput ==> moreInput && availIn == 0
      ensures lastStatus == HasMoreOutput ==> dictAvail == DICT_SIZE - dictOfs
    {
      hide Consistent;
      var used, bytes, status := Decompress(availIn, DICT_SIZE - dictOfs, moreInput);
      Fill(bytes);
      Refilled(received, old(dict[..]), dict[..], dictOfs, decoded, direct, bytes);
      lastStatus := status;
      availIn, totalIn := availIn - used, totalIn + used;
      dictAvail := |bytes|;
      decoded := decoded + bytes;
    }

    // Everything at once, straight into the caller's buffer.
    method InflateDirect() returns (code: Code)
      requires Valid() && dictAvail == 0
      modifies `availIn, `availOut, `totalIn, `totalOut, `received, `lastStatus, `decoded, `direct
      ensures Valid() && old(decoded) <= decoded && old(received) <= received
      ensures availIn + totalIn == old(availIn + totalIn) && availOut + totalOut == old(availOut + totalOut)
      ensures code == StreamEnd || code == BufError || code == DataError
      ensures code == StreamEnd <==> lastStatus == Done
      ensures code != StreamEnd ==> lastStatus == Failed
      ensures received == old(received) + decoded[|old(decoded)|..]
    {
      hide Consistent;
      ConsistentInside();
      var used, bytes, status := Decompress(availIn, availOut, false);
      lastStatus := status;
      availIn, totalIn := availIn - used, totalIn + used;
      availOut, totalOut := availOut - |bytes|, totalOut + |bytes|;
      Direct(received, dict[..], dictOfs, decoded, direct, bytes);
      received := received + bytes;
      decoded, direct := decoded + bytes, true;
      if status == Failed {
        return DataError;
      }
      if status != Done {
        lastStatus := Failed;
        return BufError;
      }
      return StreamEnd;
    }

    // Decompress and deliver in turn, until one side has to wait.
    method Pump(finish: bool, origAvailIn: nat) returns (code: Code)
      requires Valid() && dictAvail == 0
      modifies dict, `availIn, `availOut, `totalIn, `totalOut, `received, `dictOfs, `dictAvail, `lastStatus, `decoded
      ensures Valid() && old(decoded) <= decoded && old(received) <= received
      ensures availIn + totalIn == old(availIn + totalIn) && availOut + totalOut == old(availOut + totalOut)
      ensures code == StreamEnd ==> lastStatus == Done && dictAvail == 0
      ensures code == Ok || code == BufError ==> !(lastStatus == Done && dictAvail == 0)
      ensures code != StreamError && (code == DataError <==> lastStatus == Failed)
      ensures dictAvail > 0 ==> availOut == 0
      ensures code == Ok ==> !finish && (lastStatus == Done || availIn == 0 || availOut == 0)
      ensures code == BufError ==> finish || origAvailIn == 0
    {
      hide Consistent;
      while true
        invariant Valid() && dictAvail == 0
        invariant old(decoded) <= decoded && old(received) <= received
        invariant availIn + totalIn == old(availIn + totalIn) && availOut + totalOut == old(availOut + totalOut)
        decreases availOut
      {
        ConsistentInside();
        Refill(!finish);
        CopyOut();
        if lastStatus == Failed {
          return DataError;
        }
        if lastStatus == NeedsMoreInput && origAvailIn == 0 {
          return BufError;
        }
        if finish {
          if lastStatus == Done {
            return if dictAvail > 0 then BufError else StreamEnd;
          }
          if availOut == 0 {
            return BufError;
          }
        } else if lastStatus == Done || availIn == 0 || availOut == 0 || dictAvail > 0 {
          return if lastStatus == Done && dictAvail == 0 then StreamEnd else Ok;
        }
      }
    }

    // mz_inflate.  Whatever the decompressor does, no byte is lost, repeated or reordered, and the
    // end of the stream is reported exactly when everything decoded has been delivered.
    method Inflate(flush: int) returns (code: Code)
      requires Valid() && (firstCall ==> dictAvail == 0)
      modifies this, dict
      ensures Valid() && (firstCall ==> dictAvail == 0)
      ensures old(decoded) <= decoded && old(received) <= received
      ensures availIn + totalIn == old(availIn + totalIn) && availOut + totalOut == old(availOut + totalOut)
      ensures code == StreamEnd ==> lastStatus == Done && received == decoded
      ensures code == Ok || code == BufError ==> !(lastStatus == Done && dictAvail == 0)
      ensures code == StreamError <==>
                !KnownFlush(flush) || (old(lastStatus) != Failed && old(hasFlushed) && flush != FINISH)
      ensures old(lastStatus) == Failed && KnownFlush(flush) ==> code == DataError
      ensures code == StreamError || old(lastStatus) == Failed ==> received == old(received) && decoded == old(decoded)
      ensures code != StreamError && old(lastStatus) != Failed ==> (dictAvail > 0 ==> availOut == 0)
      ensures code == DataError ==> lastStatus == Failed
      ensures code == Ok ==> old(dictAvail) > 0 || lastStatus == Done || availIn == 0 || availOut == 0
      ensures code == BufError ==> flush == FINISH || old(availIn) == 0
      ensures direct ==> old(direct) || (flush == FINISH && old(firstCall))
    {
      hide Min;
      hide Consistent;
      var kind := if flush == PARTIAL_FLUSH then SYNC_FLUSH else flush;
      if kind != NO_FLUSH && kind != SYNC_FLUSH && kind != FINISH {
        return StreamError;
      }
      var origAvailIn := availIn;
      var first := firstCall;
      firstCall := false;
      if lastStatus == Failed {
        return DataError;
      }
      if hasFlushed && kind != FINISH {
        return StreamError;
      }
      hasFlushed := hasFlushed || kind == FINISH;
      code := Serve(kind == FINISH, first, origAvailIn);
    }

    // A call that may go ahead: all at once, what is pending, or decompress and deliver.
    method Serve(finish: bool, first: bool, origAvailIn: nat) returns (code: Code)
      requires Valid() && (first ==> dictAvail == 0)
      modifies dict, `availIn, `availOut, `totalIn, `totalOut, `received, `dictOfs, `dictAvail, `lastStatus, `decoded, `direct
      ensures direct ==> old(direct) || (finish && first)
      ensures Valid() && old(decoded) <= decoded && old(received) <= received
      ensures availIn + totalIn == old(availIn + totalIn) && availOut + totalOut == old(availOut + totalOut)
      ensures code == StreamEnd ==> lastStatus == Done && received == decoded
      ensures code == Ok || code == BufError ==> !(lastStatus == Done && dictAvail == 0)
      ensures code != StreamError && (code == DataError ==> lastStatus == Failed)
      ensures dictAvail > 0 ==> availOut == 0
      ensures code == Ok ==> old(dictAvail) > 0 || lastStatus == Done || availIn == 0 || availOut == 0
      ensures code == BufError ==> finish || origAvailIn == 0
    {
      hide Consistent;
      if finish && first {
        code := InflateDirect();
        ConsistentInside();
        return;
      }
      if dictAvail > 0 {
        CopyOut();
        ConsistentInside();
        return if lastStatus == Done && dictAvail == 0 then StreamEnd else Ok;
      }
      code := Pump(finish, origAvailIn);
      ConsistentInside();
    }

    // A whole run: the caller offers input and room before each call, as it likes.
    method Run(calls: seq<(nat, nat, int)>)
      requires Valid() && (firstCall ==> dictAvail == 0)
      modifies this, dict
      ensures Valid() && old(decoded) <= decoded && old(received) <= received
      ensures received + Pending() == decoded
    {
      hide Consistent;
      var i := 0;
      while i < |calls|
        invariant 0 <= i <= |calls| && Valid() && (firstCall ==> dictAvail == 0)
        invariant old(decoded) <= decoded && old(received) <= received
      {
        availIn, availOut := calls[i].0, calls[i].1;
        var code := Inflate(calls[i].2);
        i := i + 1;
      }
      ConsistentInside();
    }
  }
}
