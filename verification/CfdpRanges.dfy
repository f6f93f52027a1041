/**
  Received-range tracking.  A range list is kept canonical: every range is nonempty and
  consecutive ranges are separated by at least one missing byte.  The fixed-capacity
  in-place list is `RangeList`; `Insert` and `Gaps` are the list-level specifications, and
  `Denote` says which bytes a list stands for.
 */
module CfdpRanges {
  import opened CfdpTypes
  import opened Sequences

  datatype Range = Range(start: int, end: int)

  predicate Canonical(s: seq<Range>) {
    && (forall i :: 0 <= i < |s| ==> s[i].start < s[i].end)
    && (forall i, j :: 0 <= i < j < |s| ==> s[i].end < s[j].start)
  }

  ghost predicate CoversFrom(s: seq<Range>, k: int, x: int) {
    exists i :: 0 <= k <= i < |s| && s[i].start <= x < s[i].end
  }

  ghost predicate Covers(s: seq<Range>, x: int) {
    CoversFrom(s, 0, x)
  }

  /** The set of byte positions a range list stands for. */
  ghost function Denote(s: seq<Range>): iset<int> {
    iset x | Covers(s, x)
  }

  predicate Within(start: int, end: int, x: int) {
    start <= x < end
  }

  ghost function Interval(start: int, end: int): iset<int> {
    iset x | Within(start, end, x)
  }

  function Min(a: int, b: int): int { if a < b then a else b }

  function Max(a: int, b: int): int { if a < b then b else a }

  function Merge(a: Range, b: Range): Range {
    Range(Min(a.start, b.start), Max(a.end, b.end))
  }

  /** Adding a range to the entries k.. of a canonical list, one entry at a time. */
  function InsertFrom(s: seq<Range>, k: nat, r: Range): seq<Range>
    requires k <= |s|
    decreases |s| - k
  {
    if k == |s| then [r]
    else if r.end < s[k].start then [r] + s[k..]
    else if s[k].end < r.start then [s[k]] + InsertFrom(s, k + 1, r)
    else InsertFrom(s, k + 1, Merge(s[k], r))
  }

  function Insert(s: seq<Range>, r: Range): seq<Range> {
    InsertFrom(s, 0, r)
  }

  /** The missing subranges of [start, end) given the received ranges k.. of the list. */
  function GapsFrom(s: seq<Range>, k: nat, start: int, end: int): seq<Range>
    requires k <= |s|
    decreases |s| - k
  {
    if start >= end then []
    else if k == |s| || s[k].start >= end then [Range(start, end)]
    else
      (if start < s[k].start then [Range(start, s[k].start)] else [])
      + GapsFrom(s, k + 1, Max(start, s[k].end), end)
  }

  function Gaps(s: seq<Range>, start: int, end: int): seq<Range> {
    GapsFrom(s, 0, start, end)
  }

  /** Inserting every range of a sequence, in order of arrival. */
  function InsertAll(s: seq<Range>, rs: seq<Range>): seq<Range>
    decreases |rs|
  {
    if rs == [] then s else Insert(InsertAll(s, rs[..|rs| - 1]), rs[|rs| - 1])
  }

  lemma CoversConcat(a: seq<Range>, b: seq<Range>, x: int)
    ensures Covers(a + b, x) <==> Covers(a, x) || Covers(b, x)
  {
    var c := a + b;
    if Covers(c, x) {
      var i :| 0 <= i < |c| && c[i].start <= x < c[i].end;
      assert i >= |a| ==> c[i] == b[i - |a|];
    }
    if Covers(a, x) {
      var i :| 0 <= i < |a| && a[i].start <= x < a[i].end;
      assert c[i] == a[i];
    }
    if Covers(b, x) {
      var i :| 0 <= i < |b| && b[i].start <= x < b[i].end;
      assert c[|a| + i] == b[i];
    }
  }

  lemma CoversOne(r: Range, x: int)
    ensures Covers([r], x) <==> Within(r.start, r.end, x)
  {
    assert [r][0] == r;
  }

  lemma CoversDrop(s: seq<Range>, k: nat, x: int)
    requires k <= |s|
    ensures Covers(s[k..], x) <==> CoversFrom(s, k, x)
  {
  }

  lemma {:induction false} InsertFromCanonical(s: seq<Range>, k: nat, r: Range)
    requires Canonical(s) && r.start < r.end && k <= |s|
    ensures Canonical(InsertFrom(s, k, r)) && InsertFrom(s, k, r) != []
    ensures forall i :: 0 <= i < |InsertFrom(s, k, r)| ==>
                          InsertFrom(s, k, r)[i].start >= if k == |s| then r.start else Min(s[k].start, r.start)
    decreases |s| - k
  {
    if k == |s| {
    } else if r.end < s[k].start {
      var tail := s[k..];
      assert Canonical(tail) && forall i :: 0 <= i < |tail| ==> s[k].start <= tail[i].start;
    } else if s[k].end < r.start {
      InsertFromCanonical(s, k + 1, r);
      var tail := InsertFrom(s, k + 1, r);
      assert forall i :: 0 <= i < |tail| ==> s[k].end < tail[i].start;
    } else {
      InsertFromCanonical(s, k + 1, Merge(s[k], r));
    }
  }

  lemma {:induction false} InsertFromCovers(s: seq<Range>, k: nat, r: Range, x: int)
    requires Canonical(s) && r.start < r.end && k <= |s|
    ensures Covers(InsertFrom(s, k, r), x) <==> CoversFrom(s, k, x) || Within(r.start, r.end, x)
    decreases |s| - k
  {
    CoversOne(r, x);
    if k == |s| {
    } else if r.end < s[k].start {
      CoversConcat([r], s[k..], x);
      CoversDrop(s, k, x);
    } else if s[k].end < r.start {
      CoversConcat([s[k]], InsertFrom(s, k + 1, r), x);
      CoversOne(s[k], x);
      InsertFromCovers(s, k + 1, r, x);
    } else {
      InsertFromCovers(s, k + 1, Merge(s[k], r), x);
    }
  }

  /** Insert keeps the list canonical and denotes set union. */
  lemma InsertUnion(s: seq<Range>, r: Range)
    requires Canonical(s) && r.start < r.end
    ensures Canonical(Insert(s, r))
    ensures Denote(Insert(s, r)) == Denote(s) + Interval(r.start, r.end)
  {
    InsertFromCanonical(s, 0, r);
    forall x ensures Covers(Insert(s, r), x) <==> Covers(s, x) || Within(r.start, r.end, x) {
      InsertFromCovers(s, 0, r, x);
    }
  }

  lemma {:induction false} GapsFromCanonical(s: seq<Range>, k: nat, start: int, end: int)
    requires Canonical(s) && k <= |s|
    ensures Canonical(GapsFrom(s, k, start, end))
    ensures forall i :: 0 <= i < |GapsFrom(s, k, start, end)| ==>
                          start <= GapsFrom(s, k, start, end)[i].start && GapsFrom(s, k, start, end)[i].end <= end
    decreases |s| - k
  {
    if start < end && k < |s| && s[k].start < end {
      GapsFromCanonical(s, k + 1, Max(start, s[k].end), end);
    }
  }

  lemma {:induction false} GapsFromCovers(s: seq<Range>, k: nat, start: int, end: int, x: int)
    requires Canonical(s) && k <= |s|
    ensures Covers(GapsFrom(s, k, start, end), x) <==> Within(start, end, x) && !CoversFrom(s, k, x)
    decreases |s| - k
  {
    if start >= end {
    } else if k == |s| || s[k].start >= end {
      CoversOne(Range(start, end), x);
    } else {
      var from := Max(start, s[k].end);
      var rest := GapsFrom(s, k + 1, from, end);
      GapsFromCovers(s, k + 1, from, end, x);
      if start < s[k].start {
        CoversConcat([Range(start, s[k].start)], rest, x);
        CoversOne(Range(start, s[k].start), x);
      } else {
        assert GapsFrom(s, k, start, end) == rest;
      }
      assert CoversFrom(s, k, x) <==> s[k].start <= x < s[k].end || CoversFrom(s, k + 1, x);
    }
  }

  /** Gaps is canonical and denotes exactly the complement within [start, end). */
  lemma GapsComplement(s: seq<Range>, start: int, end: int)
    requires Canonical(s)
    ensures Canonical(Gaps(s, start, end))
    ensures Denote(Gaps(s, start, end)) == Interval(start, end) - Denote(s)
  {
    GapsFromCanonical(s, 0, start, end);
    forall x ensures Covers(Gaps(s, start, end), x) <==> Within(start, end, x) && !Covers(s, x) {
      GapsFromCovers(s, 0, start, end, x);
    }
  }

  /** Gaps are at most one more than the ranges held, and no more if the first range starts the scope. */
  lemma {:induction false} GapsCount(s: seq<Range>, k: nat, start: int, end: int)
    requires Canonical(s) && k <= |s|
    ensures |GapsFrom(s, k, start, end)| <= |s| - k + 1
    ensures k < |s| && s[k].start <= start ==> |GapsFrom(s, k, start, end)| <= |s| - k
    decreases |s| - k
  {
    if start < end && k < |s| && s[k].start < end {
      GapsCount(s, k + 1, Max(start, s[k].end), end);
    }
  }

  ghost predicate SameFrom(s: seq<Range>, i: nat, t: seq<Range>, j: nat) {
    forall x :: CoversFrom(s, i, x) <==> CoversFrom(t, j, x)
  }

  /** The first entry of a canonical tail can be read off the set the tail denotes. */
  lemma HeadOf(s: seq<Range>, i: nat)
    requires Canonical(s) && i < |s|
    ensures CoversFrom(s, i, s[i].start) && !CoversFrom(s, i, s[i].end)
    ensures forall x :: CoversFrom(s, i, x) ==> s[i].start <= x
    ensures forall x :: s[i].start <= x < s[i].end ==> CoversFrom(s, i, x)
    ensures forall x :: CoversFrom(s, i + 1, x) <==> CoversFrom(s, i, x) && x >= s[i].end
  {
    forall x ensures CoversFrom(s, i + 1, x) <==> CoversFrom(s, i, x) && x >= s[i].end {
      if CoversFrom(s, i, x) && x >= s[i].end {
        var j :| i <= j < |s| && s[j].start <= x < s[j].end;
        assert i < j;
      }
    }
  }

  lemma {:induction false} CanonicalUniqueFrom(s: seq<Range>, i: nat, t: seq<Range>, j: nat)
    requires Canonical(s) && Canonical(t) && i <= |s| && j <= |t|
    requires SameFrom(s, i, t, j)
    ensures s[i..] == t[j..]
    decreases |s| - i
  {
    if i == |s| {
      if j < |t| { HeadOf(t, j); }
    } else if j == |t| {
      HeadOf(s, i);
    } else {
      HeadOf(s, i);
      HeadOf(t, j);
      var a, b := s[i], t[j];
      assert a.start == b.start by {
        assert CoversFrom(t, j, a.start) && CoversFrom(s, i, b.start);
      }
      assert a.end == b.end by {
        assert !CoversFrom(t, j, a.end) && !CoversFrom(s, i, b.end);
      }
      var i', j' := i + 1, j + 1;
      forall x ensures CoversFrom(s, i', x) <==> CoversFrom(t, j', x) {
        assert CoversFrom(s, i, x) <==> CoversFrom(t, j, x);
      }
      CanonicalUniqueFrom(s, i', t, j');
      assert s[i..] == [a] + s[i + 1..] && t[j..] == [b] + t[j + 1..];
    }
  }

  /** A canonical list is determined by the set it denotes. */
  lemma CanonicalUnique(s: seq<Range>, t: seq<Range>)
    requires Canonical(s) && Canonical(t)
    requires Denote(s) == Denote(t)
    ensures s == t
  {
    forall x ensures CoversFrom(s, 0, x) <==> CoversFrom(t, 0, x) {
      assert x in Denote(s) <==> x in Denote(t);
    }
    CanonicalUniqueFrom(s, 0, t, 0);
    assert s[0..] == s && t[0..] == t;
  }

  lemma {:induction false} InsertAllUnion(s: seq<Range>, rs: seq<Range>)
    requires Canonical(s) && forall i :: 0 <= i < |rs| ==> rs[i].start < rs[i].end
    ensures Canonical(InsertAll(s, rs))
    ensures Denote(InsertAll(s, rs)) == Denote(s) + Denote(rs)
    decreases |rs|
  {
    if rs == [] {
      assert Denote(s) + Denote(rs) == Denote(s);
    } else {
      var init, r := rs[..|rs| - 1], rs[|rs| - 1];
      InsertAllUnion(s, init);
      InsertUnion(InsertAll(s, init), r);
      forall x ensures Covers(rs, x) <==> Covers(init, x) || Within(r.start, r.end, x) {
        assert rs == init + [r];
        CoversConcat(init, [r], x);
        CoversOne(r, x);
      }
    }
  }

  /** Arrival order does not matter: any two arrival sequences of the same bytes give the same list. */
  lemma ArrivalOrderIrrelevant(rs: seq<Range>, qs: seq<Range>)
    requires forall i :: 0 <= i < |rs| ==> rs[i].start < rs[i].end
    requires forall i :: 0 <= i < |qs| ==> qs[i].start < qs[i].end
    requires Denote(rs) == Denote(qs)
    ensures InsertAll([], rs) == InsertAll([], qs)
  {
    InsertAllUnion([], rs);
    InsertAllUnion([], qs);
    CanonicalUnique(InsertAll([], rs), InsertAll([], qs));
  }

  /** Adding to a list of limited capacity: a range that would not fit is refused. */
  function AddTo(s: seq<Range>, r: Range, capacity: nat): Option<seq<Range>> {
    if |Insert(s, r)| > capacity then None else Some(Insert(s, r))
  }

  /** Adding one range after another; None once one was refused. */
  function AddAll(s: seq<Range>, rs: seq<Range>, capacity: nat): Option<seq<Range>>
    decreases |rs|
  {
    if rs == [] then Some(s)
    else
      var before := AddAll(s, rs[..|rs| - 1], capacity);
      if before.None? then None else AddTo(before.value, rs[|rs| - 1], capacity)
  }

  /** All ranges are accepted exactly when the list fits after each of them. */
  lemma {:induction false} AddAllExactly(s: seq<Range>, rs: seq<Range>, capacity: nat)
    ensures AddAll(s, rs, capacity).Some? <==> forall n :: 0 < n <= |rs| ==> |InsertAll(s, rs[..n])| <= capacity
    ensures AddAll(s, rs, capacity).Some? ==> AddAll(s, rs, capacity).value == InsertAll(s, rs)
    decreases |rs|
  {
    if rs != [] {
      var init := rs[..|rs| - 1];
      AddAllExactly(s, init, capacity);
      assert forall n :: 0 < n <= |init| ==> init[..n] == rs[..n];
      assert rs[..|rs|] == rs;
    }
  }

  /** With limited capacity: whichever two orders are both accepted, the lists agree. */
  lemma AcceptedOrdersAgree(rs: seq<Range>, qs: seq<Range>, capacity: nat)
    requires forall i :: 0 <= i < |rs| ==> rs[i].start < rs[i].end
    requires forall i :: 0 <= i < |qs| ==> qs[i].start < qs[i].end
    requires Denote(rs) == Denote(qs)
    requires AddAll([], rs, capacity).Some? && AddAll([], qs, capacity).Some?
    ensures AddAll([], rs, capacity) == AddAll([], qs, capacity)
  {
    AddAllExactly([], rs, capacity);
    AddAllExactly([], qs, capacity);
    ArrivalOrderIrrelevant(rs, qs);
  }

  /** Whether an order is accepted does depend on it: the middle of three adjoining ranges must not come last. */
  lemma OverflowDependsOnOrder(a: int, b: int, c: int, d: int)
    requires a < b < c < d
    ensures AddAll([], [Range(a, b), Range(b, c), Range(c, d)], 1) == Some([Range(a, d)])
    ensures AddAll([], [Range(a, b), Range(c, d), Range(b, c)], 1) == None
  {
    var x, y, z := Range(a, b), Range(b, c), Range(c, d);
    assert [x, y, z][..2] == [x, y] && [x, z, y][..2] == [x, z] && [x, y][..1] == [x] == [x, z][..1] && [x][..0] == [];
    assert InsertFrom([x], 1, Range(a, c)) == [Range(a, c)];
    assert InsertFrom([Range(a, c)], 1, Range(a, d)) == [Range(a, d)];
    assert AddAll([], [x], 1) == Some([x]);
    assert AddAll([], [x, y], 1) == Some([Range(a, c)]);
    assert InsertFrom([x], 1, z) == [z] && Insert([x], z) == [x] + [z];
    assert AddAll([], [x, z], 1) == None;
  }

  lemma {:induction false} InsertSkip(s: seq<Range>, k: nat, r: Range, first: nat)
    requires r.start < r.end && k <= first <= |s|
    requires Canonical(s) && (first > 0 ==> s[first - 1].end < r.start)
    ensures InsertFrom(s, k, r) == s[k..first] + InsertFrom(s, first, r)
    decreases first - k
  {
    if k < first {
      assert k < first - 1 ==> s[k].end < s[first - 1].start;
      InsertSkip(s, k + 1, r, first);
      assert s[k..first] == [s[k]] + s[k + 1..first];
      ConcatAssociative([s[k]], s[k + 1..first], InsertFrom(s, first, r));
    }
  }

  lemma {:induction false} InsertAbsorb(s: seq<Range>, k: nat, r: Range, last: nat)
    requires Canonical(s) && r.start < r.end && k <= last <= |s|
    requires k < last ==> r.start <= s[k].end && s[last - 1].start <= r.end
    requires last < |s| ==> r.end < s[last].start
    ensures InsertFrom(s, k, r) ==
            [if k == last then r else Range(Min(s[k].start, r.start), Max(s[last - 1].end, r.end))] + s[last..]
    decreases last - k
  {
    if k < last {
      assert k < last - 1 ==> s[k].end < s[last - 1].start;
      InsertAbsorb(s, k + 1, Merge(s[k], r), last);
    }
  }

  /** Where an in-place merge of s[first..last] with r lands, in terms of Insert. */
  lemma InsertSplice(s: seq<Range>, r: Range, first: nat, last: nat, m: Range)
    requires Canonical(s) && r.start < r.end
    requires first <= last <= |s|
    requires first > 0 ==> s[first - 1].end < r.start
    requires first < last ==> r.start <= s[first].end && s[last - 1].start <= r.end
    requires last < |s| ==> r.end < s[last].start
    requires m == if first == last then r
                  else Range(Min(s[first].start, r.start), Max(s[last - 1].end, r.end))
    ensures Insert(s, r) == s[..first] + ([m] + s[last..])
  {
    InsertSkip(s, 0, r, first);
    InsertAbsorb(s, first, r, last);
  }

  lemma AppendGap(s: seq<Range>, r: Range)
    requires Canonical(s) && r.start < r.end
    requires s != [] ==> s[|s| - 1].end < r.start
    ensures Insert(s, r) == s + [r]
  {
    InsertSkip(s, 0, r, |s|);
  }

  lemma NotComplete(s: seq<Range>, k: nat, start: int, end: int)
    requires Canonical(s) && start < end && k <= |s|
    requires forall i :: 0 <= i < k ==> s[i].start <= start && s[i].end < end
    requires k < |s| ==> s[k].start > start
    ensures !(Interval(start, end) <= Denote(s))
  {
    var x := if k == 0 then start else Max(start, s[k - 1].end);
    assert x in Interval(start, end);
    assert !Covers(s, x);
  }

  /** The fixed-capacity list of ccsds_cfdp_ranges_t: `count` live entries of an array, updated in place. */
  class RangeList {
    var ranges: array<Range>
    var count: nat

    ghost predicate Valid()
      reads this, ranges
    {
      count <= ranges.Length && Canonical(ranges[..count])
    }

    function Contents(): seq<Range>
      requires count <= ranges.Length
      reads this, ranges
    {
      ranges[..count]
    }

    constructor (capacity: nat)
      ensures Valid() && Contents() == [] && ranges.Length == capacity && fresh(ranges)
    {
      ranges := new Range[capacity](_ => Range(0, 0));
      count := 0;
    }

    method Clear()
      modifies this`count
      ensures count == 0
      ensures Valid() && Contents() == []
    {
      count := 0;
    }

    /** Moves the entries from `first` up by one slot, making room for a new range. */
    method ShiftUp(first: nat)
      requires count < ranges.Length && first <= count
      modifies ranges
      ensures ranges[..first] == old(ranges[..first])
      ensures ranges[first + 1..count + 1] == old(ranges[first..count])
    {
      ghost var was := ranges[..];
      var i := count;
      while i > first
        invariant first <= i <= count
        invariant forall k :: i < k <= count ==> ranges[k] == was[k - 1]
        invariant forall k :: 0 <= k <= i ==> ranges[k] == was[k]
      {
        ranges[i] := ranges[i - 1];
        i := i - 1;
      }
    }

    /** Moves the entries from `last` down to just after `first`, closing the merged hole. */
    method ShiftDown(first: nat, last: nat)
      requires first + 1 < last <= count <= ranges.Length
      modifies ranges
      ensures ranges[..first] == old(ranges[..first])
      ensures ranges[first + 1..first + 1 + count - last] == old(ranges[last..count])
    {
      ghost var was := ranges[..];
      var i := last;
      while i < count
        invariant last <= i <= count
        invariant forall k :: first < k <= first + i - last ==> ranges[k] == was[k - first - 1 + last]
        invariant forall k :: 0 <= k <= first || i <= k < count ==> ranges[k] == was[k]
      {
        ranges[first + 1 + i - last] := ranges[i];
        i := i + 1;
      }
    }

    /** Finds the entries [first, last) that touch [start, end) and the range they merge to. */
    method FindOverlap(start: int, end: int) returns (first: nat, last: nat, merged: Range)
      requires Valid() && start < end
      ensures first <= last <= count
      ensures Insert(Contents(), Range(start, end)) == Contents()[..first] + ([merged] + Contents()[last..])
    {
      var mergedStart, mergedEnd := start, end;
      first := 0;
      while first < count && ranges[first].end < start
        invariant first <= count
        invariant first > 0 ==> ranges[first - 1].end < start
      {
        first := first + 1;
      }
      last := first;
      while last < count && ranges[last].start <= end
        invariant first <= last <= count
        invariant first < last ==> start <= ranges[first].end && ranges[last - 1].start <= end
        invariant mergedStart == if first == last then start else Min(ranges[first].start, start)
        invariant mergedEnd == if first == last then end else Max(ranges[last - 1].end, end)
      {
        if ranges[last].start < mergedStart {
          mergedStart := ranges[last].start;
        }
        if ranges[last].end > mergedEnd {
          mergedEnd := ranges[last].end;
        }
        last := last + 1;
      }
      merged := Range(mergedStart, mergedEnd);
      InsertSplice(Contents(), Range(start, end), first, last, merged);
    }

    /** Replaces the entries [first, last) by one range, shifting the tail in place. */
    method Splice(first: nat, last: nat, merged: Range)
      requires first <= last <= count <= ranges.Length
      requires first == last ==> count < ranges.Length
      modifies this`count, ranges
      ensures count <= ranges.Length
      ensures Contents() == old(Contents())[..first] + ([merged] + old(Contents())[last..])
    {
      ghost var before, behind := Contents()[..first], Contents()[last..];
      if last == first {
        ShiftUp(first);
        count := count + 1;
      } else if last > first + 1 {
        ShiftDown(first, last);
        count := count - (last - first - 1);
      }
      assert ranges[..first] == before && ranges[first + 1..count] == behind;
      ranges[first] := merged;
      assert Contents() == ranges[..first] + ([ranges[first]] + ranges[first + 1..count]);
    }

    /** Adds [start, end): set union on success; a full list refuses a new disjoint range and is unchanged. */
    method Add(start: int, end: int) returns (status: Status)
      requires Valid()
      modifies this`count, ranges
      ensures Valid()
      ensures start >= end ==> status == InvalidArgument && Contents() == old(Contents())
      ensures start < end ==>
                var added := AddTo(old(Contents()), Range(start, end), ranges.Length);
                if added.Some? then status == OK && Contents() == added.value
                else status == BufferTooSmall && Contents() == old(Contents())
    {
      if start >= end {
        return InvalidArgument;
      }
      var first, last, merged := FindOverlap(start, end);
      InsertFromCanonical(Contents(), 0, Range(start, end));
      if last == first && count == ranges.Length {
        return BufferTooSmall;
      }
      Splice(first, last, merged);
      return OK;
    }

    /** Decides whether every byte of [start, end) has been received. */
    method IsComplete(start: int, end: int) returns (status: Status, complete: bool)
      requires Valid()
      ensures status == if start < end then OK else InvalidArgument
      ensures status == OK ==> (complete <==> Interval(start, end) <= Denote(Contents()))
    {
      complete := false;
      if start >= end {
        return InvalidArgument, false;
      }
      for i := 0 to count
        invariant forall k :: 0 <= k < i ==> ranges[k].start <= start && ranges[k].end < end
      {
        if ranges[i].start > start {
          NotComplete(Contents(), i, start, end);
          return OK, false;
        }
        if ranges[i].end >= end {
          assert Contents()[i].start <= start && end <= Contents()[i].end;
          return OK, true;
        }
      }
      NotComplete(Contents(), count, start, end);
      return OK, false;
    }

    /** Adding a range beyond every range held appends it. */
    method AddAfter(start: int, end: int) returns (status: Status)
      requires Valid() && start < end
      requires count > 0 ==> ranges[count - 1].end < start
      modifies this`count, ranges
      ensures Valid() && status == if old(count) < ranges.Length then OK else BufferTooSmall
      ensures status == OK ==> Contents() == old(Contents()) + [Range(start, end)]
    {
      AppendGap(Contents(), Range(start, end));
      status := Add(start, end);
    }

    /** Records the gap, if any, between the cursor and the next received range, and moves the cursor on. */
    method AddGapBefore(cursor: int, received: Range) returns (status: Status, next: int)
      requires Valid() && received.start < received.end
      requires count > 0 ==> ranges[count - 1].end < cursor
      modifies this`count, ranges
      ensures Valid() && next == Max(cursor, received.end)
      ensures status == if cursor < received.start && old(count) == ranges.Length then BufferTooSmall else OK
      ensures status == OK ==> count > 0 ==> ranges[count - 1].end < next
      ensures status == OK ==>
                Contents() == old(Contents())
                              + (if cursor < received.start then [Range(cursor, received.start)] else [])
    {
      status, next := OK, Max(cursor, received.end);
      if received.start > cursor {
        status := AddAfter(cursor, received.start);
      }
    }

    /** Builds the list of missing subranges of [start, end) in a fresh list of the same capacity. */
    method CollectMissing(start: int, end: int) returns (status: Status, missing: RangeList)
      requires Valid() && start < end
      ensures fresh(missing) && fresh(missing.ranges) && missing.Valid()
      ensures missing.ranges.Length == ranges.Length
      ensures |Gaps(Contents(), start, end)| <= ranges.Length
              ==> status == OK && missing.Contents() == Gaps(Contents(), start, end)
      ensures |Gaps(Contents(), start, end)| > ranges.Length ==> status == BufferTooSmall
    {
      ghost var s := Contents();
      missing := new RangeList(ranges.Length);
      var cursor := start;
      var i := 0;
      while i < count && cursor < end
        invariant i <= count
        invariant missing.Valid() && fresh(missing) && fresh(missing.ranges)
        invariant missing.ranges.Length == ranges.Length
        invariant missing.count > 0 ==> missing.ranges[missing.count - 1].end < cursor
        invariant Gaps(s, start, end) == missing.Contents() + GapsFrom(s, i, cursor, end)
      {
        var received := ranges[i];
        if received.start >= end {
          break;
        }
        ghost var held, gap := missing.Contents(), if cursor < received.start then [Range(cursor, received.start)] else [];
        ConcatAssociative(held, gap, GapsFrom(s, i + 1, Max(cursor, received.end), end));
        status, cursor := missing.AddGapBefore(cursor, received);
        if status != OK {
          return;
        }
        i := i + 1;
      }
      if cursor < end {
        status := missing.AddAfter(cursor, end);
        return;
      }
      return OK, missing;
    }

    /** Reports the missing subranges of [start, end); on overflow `out` keeps its old contents. */
    method Missing(start: int, end: int, out: RangeList) returns (status: Status)
      requires Valid() && out.Valid() && out != this && out.ranges != ranges
      requires out.ranges.Length == ranges.Length
      modifies out
      ensures out.Valid() && out.ranges.Length == ranges.Length
      ensures Valid() && Contents() == old(Contents())
      ensures start >= end ==> status == InvalidArgument
      ensures start < end ==> status == if |Gaps(Contents(), start, end)| <= ranges.Length
                                        then OK else BufferTooSmall
      ensures out.Contents() == if status == OK then Gaps(Contents(), start, end) else old(out.Contents())
    {
      if start >= end {
        return InvalidArgument;
      }
      var missing;
      status, missing := CollectMissing(start, end);
      if status == OK {
        out.ranges, out.count := missing.ranges, missing.count;
      }
    }
  }
}
