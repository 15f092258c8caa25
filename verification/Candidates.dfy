// Candidate lists: which positions of a column an operator has to look at, and the loop header by
// which it visits them.
module Candidates {
  import opened Sequences

  // A list of object identifiers in increasing order: none at all, a dense range, or any.
  datatype List = Everything | Dense(first: nat, count: nat) | Sparse(oids: seq<nat>)

  predicate Increasing(oids: seq<nat>) {
    forall i, j :: 0 <= i < j < |oids| ==> oids[i] < oids[j]
  }

  predicate Proper(s: List) {
    s.Sparse? ==> Increasing(s.oids)
  }

  // The n numbers from lo on.
  function Range(lo: nat, n: nat): (r: seq<nat>)
    ensures |r| == n && forall i :: 0 <= i < n ==> r[i] == lo + i
  {
    seq(n, i requires i >= 0 => lo + i)
  }

  // The positions of those objects that a column of c values with identifiers from h on holds.
  function Positions(oids: seq<nat>, h: nat, c: nat): seq<nat> {
    if oids == [] then []
    else Position(oids[0], h, c) + Positions(oids[1..], h, c)
  }

  function Position(o: nat, h: nat, c: nat): seq<nat> {
    if h <= o < h + c then [o - h] else []
  }

  function Wanted(s: List, h: nat, c: nat): seq<nat> {
    match s
    case Everything => Range(0, c)
    case Dense(first, n) => Positions(Range(first, n), h, c)
    case Sparse(oids) => Positions(oids, h, c)
  }

  // The first index whose object is not below x.
  function FirstFrom(oids: seq<nat>, x: nat): (k: nat)
    requires Increasing(oids)
    ensures k <= |oids|
    ensures forall i :: 0 <= i < k ==> oids[i] < x
    ensures forall i :: k <= i < |oids| ==> oids[i] >= x
  {
    if oids == [] || oids[0] >= x then 0
    else
      var k := FirstFrom(oids[1..], x);
      assert forall i :: 1 <= i < |oids| ==> oids[i] == oids[1..][i - 1];
      k + 1
  }

  lemma {:induction false} FirstFromGrows(oids: seq<nat>, x: nat, y: nat)
    requires Increasing(oids) && x <= y
    ensures FirstFrom(oids, x) <= FirstFrom(oids, y)
  {
    if oids == [] || oids[0] >= x {
    } else {
      FirstFromGrows(oids[1..], x, y);
    }
  }

  lemma {:induction false} PositionsConcat(a: seq<nat>, b: seq<nat>, h: nat, c: nat)
    ensures Positions(a + b, h, c) == Positions(a, h, c) + Positions(b, h, c)
  {
    if a == [] {
      assert a + b == b;
    } else {
      PositionsConcat(a[1..], b, h, c);
      assert (a + b)[1..] == a[1..] + b;
      hide Position;
      Associate(Position(a[0], h, c), Positions(a[1..], h, c), Positions(b, h, c));
    }
  }

  lemma {:induction false} PositionsOutside(oids: seq<nat>, h: nat, c: nat)
    requires forall i :: 0 <= i < |oids| ==> oids[i] < h || oids[i] >= h + c
    ensures Positions(oids, h, c) == []
  {
    if oids != [] {
      PositionsOutside(oids[1..], h, c);
    }
  }

  // Positions of objects that are all in the column.
  function Shifted(oids: seq<nat>, h: nat): (r: seq<nat>)
    requires forall i :: 0 <= i < |oids| ==> oids[i] >= h
    ensures |r| == |oids| && forall i :: 0 <= i < |r| ==> r[i] == oids[i] - h
  {
    seq(|oids|, i requires 0 <= i < |oids| => oids[i] - h)
  }

  lemma {:induction false} PositionsInside(oids: seq<nat>, h: nat, c: nat)
    requires forall i :: 0 <= i < |oids| ==> h <= oids[i] < h + c
    ensures Positions(oids, h, c) == Shifted(oids, h)
  {
    if oids != [] {
      PositionsInside(oids[1..], h, c);
      assert Shifted(oids, h) == [oids[0] - h] + Shifted(oids[1..], h);
    }
  }

  // Objects before, in and behind the column.
  lemma PositionsSplit(oids: seq<nat>, i: nat, j: nat, h: nat, c: nat)
    requires i <= j <= |oids|
    requires forall k :: 0 <= k < i ==> oids[k] < h
    requires forall k :: i <= k < j ==> h <= oids[k] < h + c
    requires forall k :: j <= k < |oids| ==> oids[k] >= h + c
    ensures Positions(oids, h, c) == Shifted(oids[i..j], h)
  {
    var (a, b, d) := (oids[..i], oids[i..j], oids[j..]);
    assert oids == a + (b + d);
    PositionsConcat(a, b + d, h, c);
    PositionsConcat(b, d, h, c);
    PositionsOutside(a, h, c);
    PositionsInside(b, h, c);
    PositionsOutside(d, h, c);
  }

  // The column's part of a dense list.
  lemma DensePositions(first: nat, n: nat, h: nat, c: nat)
    ensures var (lo, hi) := (Clamp(first, h, c), Clamp(first + n, h, c));
            lo <= hi && Positions(Range(first, n), h, c) == Range(lo, hi - lo)
  {
    hide Positions;
    var (lo, hi) := (Clamp(first, h, c), Clamp(first + n, h, c));
    var oids := Range(first, n);
    var i := if first >= h then 0 else if n <= h - first then n else h - first;
    var j := if first >= h + c then 0 else if n <= h + c - first then n else h + c - first;
    if first >= h + c || first + n <= h {
      PositionsOutside(oids, h, c);
    } else {
      PositionsSplit(oids, i, j, h, c);
      ShiftedRange(first, n, i, j, h);
    }
  }

  lemma ShiftedRange(first: nat, n: nat, i: nat, j: nat, h: nat)
    requires i <= j <= n && first + i >= h
    ensures Shifted(Range(first, n)[i..j], h) == Range(first + i - h, j - i)
  {
  }

  // The clamping at the end of CANDINIT.
  function Clamp(x: nat, h: nat, c: nat): nat {
    if x <= h then 0 else if x >= h + c then c else x - h
  }

  // Only positions of the column are visited.
  lemma WantedBound(s: List, h: nat, c: nat)
    ensures forall i :: 0 <= i < |Wanted(s, h, c)| ==> Wanted(s, h, c)[i] < c
  {
    match s
    case Everything =>
    case Dense(first, n) => PositionsBound(Range(first, n), h, c);
    case Sparse(oids) => PositionsBound(oids, h, c);
  }

  lemma {:induction false} PositionsBound(oids: seq<nat>, h: nat, c: nat)
    ensures forall i :: 0 <= i < |Positions(oids, h, c)| ==> Positions(oids, h, c)[i] < c
  {
    if oids != [] {
      PositionsBound(oids[1..], h, c);
    }
  }

  predicate Within(oids: seq<nat>, i: nat, j: nat, lo: nat, hi: nat)
    requires j <= |oids|
  {
    forall k :: i <= k < j ==> lo <= oids[k] < hi
  }

  // The column's part of any other list.
  lemma SparsePositions(oids: seq<nat>, h: nat, c: nat)
    requires Increasing(oids)
    ensures var (i, j) := (FirstFrom(oids, h), FirstFrom(oids, h + c));
            && i <= j && Within(oids, i, j, h, h + c) && Positions(oids, h, c) == Shifted(oids[i..j], h)
            && (i < j ==> Within(oids, i, j, h, h + Clamp(oids[j - 1] + 1, h, c)))
  {
    hide Positions;
    hide FirstFrom;
    var (i, j) := (FirstFrom(oids, h), FirstFrom(oids, h + c));
    FirstFromGrows(oids, h, h + c);
    PositionsSplit(oids, i, j, h, c);
  }

  lemma {:induction false} IncreasingCount(oids: seq<nat>, i: nat, j: nat, lo: nat, hi: nat)
    requires Increasing(oids) && i <= j <= |oids| && Within(oids, i, j, lo, hi) && lo <= hi
    ensures j - i <= hi - lo
    decreases j - i
  {
    if i < j {
      IncreasingCount(oids, i + 1, j, oids[i] + 1, hi);
    }
  }

  // No position is visited twice, so there are no more than the column has.
  lemma WantedCount(s: List, h: nat, c: nat)
    requires Proper(s)
    ensures |Wanted(s, h, c)| <= c
  {
    match s
    case Everything =>
    case Dense(first, n) => DensePositions(first, n, h, c);
    case Sparse(oids) =>
      SparsePositions(oids, h, c);
      IncreasingCount(oids, FirstFrom(oids, h), FirstFrom(oids, h + c), h, h + c);
  }

  // The state of the visiting loops: a range of positions, or a part of a list of objects.
  class Cursor {
    const base: nat
    var start: nat
    var end: nat
    const listed: bool
    const oids: seq<nat>
    var cand: nat
    const candend: nat

    ghost predicate Valid()
      reads this
    {
      if listed then
        && cand <= candend <= |oids|
        && Within(oids, cand, candend, base, base + end)
      else start <= end
    }

    // The positions still to be visited.
    ghost function Rest(): seq<nat>
      requires Valid()
      reads this
    {
      if listed then Shifted(oids[cand..candend], base) else Range(start, end - start)
    }

    // CANDINIT for a column of c values with identifiers from h on.
    constructor (s: List, h: nat, c: nat)
      requires Proper(s)
      ensures Valid() && Rest() == Wanted(s, h, c) && listed == (s.Sparse? && s.oids != [])
    {
      hide Positions;
      hide FirstFrom;
      base := h;
      listed := s.Sparse? && s.oids != [];
      start, end, oids, cand, candend := 0, c, [], 0, 0;
      match s {
        case Everything =>
        case Dense(first, n) =>
          start, end := if n == 0 then 0 else Clamp(first, h, c), if n == 0 then 0 else Clamp(first + n, h, c);
          DensePositions(first, n, h, c);
        case Sparse(all) =>
          var lo, hi := FirstFrom(all, h), FirstFrom(all, h + c);
          SparsePositions(all, h, c);
          oids, cand, candend := all, lo, hi;
          if lo == hi {
            start, end := 0, 0;
          } else {
            start, end := Clamp(all[lo], h, c), Clamp(all[hi - 1] + 1, h, c);
          }
      }
      new;
      if s.Dense? && s.count == 0 {
        assert Range(s.first, 0) == [];
      }
    }

    // The loop header: the next position to visit, if there is one.
    method Next() returns (more: bool, i: nat)
      requires Valid()
      modifies this`start, this`cand
      ensures more <==> old(Rest()) != []
      ensures more ==> Valid() && i == old(Rest())[0] && Rest() == old(Rest())[1..]
      ensures more && listed ==> cand == old(cand) + 1 && oids[cand - 1] == base + i && i < end
    {
      if listed {
        if cand == candend {
          return false, 0;
        }
        i := oids[cand] - base;
        cand := cand + 1;
        if i >= end {
          return false, i;
        }
      } else {
        i := start;
        start := start + 1;
        if i == end {
          return false, i;
        }
      }
      more := true;
    }

    // Visits the object of a list once more.
    method Back(ghost i: nat)
      requires Valid() && listed && cand > 0 && oids[cand - 1] == base + i && i < end
      modifies this`cand
      ensures Valid() && Rest() == [i] + old(Rest())
    {
      cand := cand - 1;
    }
  }
}
