/**
 Property ranges of the Unicode tables: merging, binary search and validation.
 */
module UnicodeRanges {

  const MAX_SCALAR: int := 0x10FFFF
  const SURROGATE_START: int := 0xD800
  const SURROGATE_END: int := 0xDFFF

  datatype Range = Range(start: int, end: int)

  predicate Within(r: Range, v: int) {
    r.start <= v <= r.end
  }

  predicate Member(ranges: seq<Range>, v: int) {
    exists i | 0 <= i < |ranges| :: Within(ranges[i], v)
  }

  predicate Ascending(ranges: seq<Range>) {
    forall i | 0 <= i < |ranges| :: ranges[i].start <= ranges[i].end
  }

  /// Sorted, with at least one value missing between neighbours.
  predicate Separated(ranges: seq<Range>) {
    && Ascending(ranges)
    && forall i, j | 0 <= i < j < |ranges| :: ranges[i].end + 1 < ranges[j].start
  }

  predicate Leq(x: Range, y: Range) {
    x.start < y.start || (x.start == y.start && x.end <= y.end)
  }

  predicate Sorted(ranges: seq<Range>) {
    forall i, j | 0 <= i < j < |ranges| :: Leq(ranges[i], ranges[j])
  }

  function Insert(r: Range, ranges: seq<Range>): seq<Range> {
    if ranges == [] || !Leq(ranges[0], r) then [r] + ranges else [ranges[0]] + Insert(r, ranges[1..])
  }

  function SortRanges(ranges: seq<Range>): seq<Range> {
    if ranges == [] then [] else Insert(ranges[|ranges| - 1], SortRanges(ranges[..|ranges| - 1]))
  }

  lemma {:induction false} InsertSorts(r: Range, ranges: seq<Range>)
    requires Sorted(ranges)
    ensures Sorted(Insert(r, ranges)) && forall x :: x in Insert(r, ranges) <==> x == r || x in ranges
  {
    if ranges == [] || !Leq(ranges[0], r) {
    } else {
      assert ranges == [ranges[0]] + ranges[1..];
      InsertSorts(r, ranges[1..]);
      var tail := Insert(r, ranges[1..]);
      forall j | 0 <= j < |tail| ensures Leq(ranges[0], tail[j]) {
        assert tail[j] in tail;
      }
    }
  }

  lemma {:induction false} SortingSorts(ranges: seq<Range>)
    ensures Sorted(SortRanges(ranges)) && forall x :: x in SortRanges(ranges) <==> x in ranges
  {
    if ranges != [] {
      var before := ranges[..|ranges| - 1];
      SortingSorts(before);
      InsertSorts(ranges[|ranges| - 1], SortRanges(before));
      assert ranges == before + [ranges[|ranges| - 1]];
    }
  }

  lemma SameElementsSameMembers(x: seq<Range>, y: seq<Range>, v: int)
    requires forall r :: r in x <==> r in y
    ensures Member(x, v) <==> Member(y, v)
  {
    if Member(x, v) {
      var i :| 0 <= i < |x| && Within(x[i], v);
      assert x[i] in y;
      var j :| 0 <= j < |y| && y[j] == x[i];
    }
    if Member(y, v) {
      var i :| 0 <= i < |y| && Within(y[i], v);
      assert y[i] in x;
      var j :| 0 <= j < |x| && x[j] == y[i];
    }
  }

  lemma MemberAppends(x: seq<Range>, r: Range, v: int)
    ensures Member(x + [r], v) <==> Member(x, v) || Within(r, v)
  {
    if Member(x, v) {
      var i :| 0 <= i < |x| && Within(x[i], v);
      assert Within((x + [r])[i], v);
    }
    if Within(r, v) { assert Within((x + [r])[|x|], v); }
  }

  /// Extending the last merged range by one that touches it.
  lemma LastExtended(before: seq<Range>, next: Range, extended: Range, seen: seq<Range>)
    requires before != [] && Separated(before) && next.start <= next.end
    requires var last := before[|before| - 1];
             && last.start <= next.start <= last.end + 1
             && extended == Range(last.start, if last.end < next.end then next.end else last.end)
    requires forall v :: Member(before, v) <==> Member(seen, v)
    ensures forall v :: Member(before[..|before| - 1] + [extended], v) <==> Member(seen + [next], v)
  {
    var last := before[|before| - 1];
    assert before == before[..|before| - 1] + [last];
    forall v ensures Member(before[..|before| - 1] + [extended], v) <==> Member(seen + [next], v) {
      MemberAppends(seen, next, v);
      MemberAppends(before[..|before| - 1], last, v);
      MemberAppends(before[..|before| - 1], extended, v);
    }
  }

  /// A range behind a gap.
  lemma LastAppended(before: seq<Range>, next: Range, seen: seq<Range>)
    requires forall v :: Member(before, v) <==> Member(seen, v)
    ensures forall v :: Member(before + [next], v) <==> Member(seen + [next], v)
  {
    forall v ensures Member(before + [next], v) <==> Member(seen + [next], v) {
      MemberAppends(seen, next, v);
      MemberAppends(before, next, v);
    }
  }

  /// MAIN RESULT. Merging gives separated ranges with exactly the same members. Merged scalar ranges are
  /// valid: no range grows across the surrogates.
  method MergeRanges(ranges: seq<Range>) returns (merged: seq<Range>)
    requires Ascending(ranges)
    ensures Separated(merged)
    ensures forall v :: Member(merged, v) <==> Member(ranges, v)
    ensures merged == [] <==> ranges == []
    ensures (forall i | 0 <= i < |ranges| :: ScalarRange(ranges[i])) ==> ValidRanges(merged)
  {
    var sorted := SortRanges(ranges);
    SortingSorts(ranges);
    merged := [];
    for k := 0 to |sorted|
      invariant Separated(merged) && (merged == [] <==> k == 0)
      invariant forall v :: Member(merged, v) <==> Member(sorted[..k], v)
      invariant merged != [] && k < |sorted| ==> merged[|merged| - 1].start <= sorted[k].start
      invariant k > 0 ==> merged[|merged| - 1].start <= sorted[k - 1].start
    {
      var next := sorted[k];
      assert next in sorted && next in ranges;
      assert next.start <= next.end;
      assert sorted[..k + 1] == sorted[..k] + [next];
      ghost var before := merged;
      if merged != [] && next.start <= merged[|merged| - 1].end + 1 {
        var last := merged[|merged| - 1];
        var extended := Range(last.start, if last.end < next.end then next.end else last.end);
        merged := merged[..|merged| - 1] + [extended];
        LastExtended(before, next, extended, sorted[..k]);
      } else {
        merged := merged + [next];
        LastAppended(before, next, sorted[..k]);
      }
      assert k + 1 < |sorted| ==> Leq(sorted[k], sorted[k + 1]);
    }
    assert sorted[..|sorted|] == sorted;
    forall v ensures Member(merged, v) <==> Member(ranges, v) {
      SameElementsSameMembers(sorted, ranges, v);
    }
    assert ranges != [] ==> ranges[0] in sorted;
    assert sorted != [] ==> sorted[0] in ranges;
    if forall i | 0 <= i < |ranges| :: ScalarRange(ranges[i]) {
      MergedRangesAreValid(merged, ranges);
    }
  }

  lemma MergedRangesAreValid(merged: seq<Range>, ranges: seq<Range>)
    requires Separated(merged) && forall v :: Member(merged, v) <==> Member(ranges, v)
    requires forall i | 0 <= i < |ranges| :: ScalarRange(ranges[i])
    ensures ValidRanges(merged)
  {
    forall i | 0 <= i < |merged| ensures ScalarRange(merged[i]) {
      MemberIsScalar(merged, ranges, i, merged[i].start);
      MemberIsScalar(merged, ranges, i, merged[i].end);
      if merged[i].start < SURROGATE_START <= merged[i].end {
        MemberIsScalar(merged, ranges, i, SURROGATE_START);
      }
    }
  }

  lemma MemberIsScalar(merged: seq<Range>, ranges: seq<Range>, i: nat, v: int)
    requires i < |merged| && Within(merged[i], v) && forall v :: Member(merged, v) <==> Member(ranges, v)
    requires forall i | 0 <= i < |ranges| :: ScalarRange(ranges[i])
    ensures IsScalar(v)
  {
    assert Member(merged, v) && Member(ranges, v);
    var j :| 0 <= j < |ranges| && Within(ranges[j], v);
    assert ScalarRange(ranges[j]);
  }

  /// Separated ranges with the same members are the same ranges, so the merged form is canonical.
  lemma {:induction false} SeparatedFormIsUnique(x: seq<Range>, y: seq<Range>)
    requires Separated(x) && Separated(y) && forall v :: Member(x, v) <==> Member(y, v)
    ensures x == y
    decreases |x|
  {
    if x == [] || y == [] {
      NonEmptyHasMember(x);
      NonEmptyHasMember(y);
    } else {
      FirstsAgree(x, y);
      FirstsAgree(y, x);
      assert x[0] == y[0];
      forall v ensures Member(x[1..], v) <==> Member(y[1..], v) {
        TailMembers(x, v);
        TailMembers(y, v);
      }
      SeparatedFormIsUnique(x[1..], y[1..]);
      assert x == [x[0]] + x[1..] && y == [y[0]] + y[1..];
    }
  }

  lemma NonEmptyHasMember(x: seq<Range>)
    requires Ascending(x)
    ensures x != [] ==> Member(x, x[0].start)
  {
    if x != [] { assert Within(x[0], x[0].start); }
  }

  /// The first range of one list reaches no further than that of the other, at either end.
  lemma FirstsAgree(x: seq<Range>, y: seq<Range>)
    requires Separated(x) && Separated(y) && x != [] && y != [] && forall v :: Member(x, v) <==> Member(y, v)
    ensures y[0].start <= x[0].start && (y[0].start == x[0].start ==> x[0].end <= y[0].end)
  {
    assert Member(x, x[0].start) by { assert Within(x[0], x[0].start); }
    assert Member(y, x[0].start);
    var i :| 0 <= i < |y| && Within(y[i], x[0].start);
    BehindFirstIsMissing(y);
    assert !Member(x, y[0].end + 1);
    WithinIsMember(x, 0, y[0].end + 1);
  }

  lemma WithinIsMember(x: seq<Range>, i: nat, v: int)
    requires i < |x|
    ensures Within(x[i], v) ==> Member(x, v)
  {
  }

  lemma BehindFirstIsMissing(y: seq<Range>)
    requires Separated(y) && y != []
    ensures !Member(y, y[0].end + 1)
  {
  }

  lemma TailMembers(x: seq<Range>, v: int)
    requires Separated(x) && x != []
    ensures Member(x[1..], v) <==> Member(x, v) && v > x[0].end
  {
    if Member(x[1..], v) {
      var i :| 0 <= i < |x[1..]| && Within(x[1..][i], v);
      assert Within(x[i + 1], v);
    }
    if Member(x, v) && v > x[0].end {
      var i :| 0 <= i < |x| && Within(x[i], v);
      assert Within(x[1..][i - 1], v);
    }
  }

  /// Binary search answers membership.
  method Contains(ranges: seq<Range>, value: int) returns (found: bool)
    requires Separated(ranges)
    ensures found <==> Member(ranges, value)
  {
    var low, high := 0, |ranges|;
    while low < high
      invariant 0 <= low <= high <= |ranges|
      invariant forall i | 0 <= i < low :: ranges[i].end < value
      invariant forall i | high <= i < |ranges| :: value < ranges[i].start
    {
      var middle := low + (high - low) / 2;
      if value < ranges[middle].start {
        high := middle;
      } else if value > ranges[middle].end {
        low := middle + 1;
      } else {
        assert Within(ranges[middle], value);
        return true;
      }
    }
    return false;
  }

  // ---------------------------------------------------------------- validation

  predicate IsScalar(v: int) {
    0 <= v <= MAX_SCALAR && (v < SURROGATE_START || v > SURROGATE_END)
  }

  /// Separated scalar ranges, none of which crosses the surrogates.
  predicate ValidRanges(ranges: seq<Range>) {
    && Separated(ranges)
    && forall i | 0 <= i < |ranges| :: ScalarRange(ranges[i])
  }

  predicate ScalarRange(r: Range) {
    IsScalar(r.start) && IsScalar(r.end) && !(r.start <= SURROGATE_END && r.end >= SURROGATE_START)
  }

  function Total(ranges: seq<Range>): int {
    if ranges == [] then 0
    else Total(ranges[..|ranges| - 1]) + ranges[|ranges| - 1].end - ranges[|ranges| - 1].start + 1
  }

  /// The scalars below `limit` that are members.
  function ScalarsBelow(ranges: seq<Range>, limit: nat): set<int> {
    set v | 0 <= v < limit && IsScalar(v) && Member(ranges, v)
  }

  function Values(r: Range): set<int> {
    set v | r.start <= v <= r.end && Within(r, v)
  }

  lemma {:induction false} IntervalSize(r: Range)
    requires r.start <= r.end + 1
    ensures |Values(r)| == r.end - r.start + 1
    decreases r.end - r.start + 1
  {
    if r.start == r.end + 1 {
      assert Values(r) == {};
    } else {
      var shorter := Range(r.start, r.end - 1);
      IntervalSize(shorter);
      assert Values(r) == Values(shorter) + {r.end};
    }
  }

  /// The sizes of valid ranges add up to the number of their members.
  lemma {:induction false} TotalIsMemberCount(ranges: seq<Range>)
    requires ValidRanges(ranges)
    ensures Total(ranges) == |ScalarsBelow(ranges, MAX_SCALAR + 1)|
  {
    if ranges == [] {
      assert ScalarsBelow(ranges, MAX_SCALAR + 1) == {};
    } else {
      var before, last := ranges[..|ranges| - 1], ranges[|ranges| - 1];
      TotalIsMemberCount(before);
      IntervalSize(last);
      LastRangeAddsItsValues(ranges);
    }
  }

  lemma LastRangeAddsItsValues(ranges: seq<Range>)
    requires ranges != [] && ValidRanges(ranges)
    ensures var before, last := ranges[..|ranges| - 1], ranges[|ranges| - 1];
            && ScalarsBelow(ranges, MAX_SCALAR + 1) == ScalarsBelow(before, MAX_SCALAR + 1) + Values(last)
            && ScalarsBelow(before, MAX_SCALAR + 1) !! Values(last)
  {
    var before, last := ranges[..|ranges| - 1], ranges[|ranges| - 1];
    assert ranges == before + [last];
    forall v ensures Member(ranges, v) <==> Member(before, v) || Within(last, v) {
      MemberAppends(before, last, v);
    }
  }

  /// Accepts exactly the valid ranges that are not empty. The exhaustive count never disagrees.
  method ValidateRanges(ranges: seq<Range>) returns (count: int)
    ensures count > 0 <==> ValidRanges(ranges) && ranges != []
    ensures count > 0 ==> count == |ScalarsBelow(ranges, MAX_SCALAR + 1)|
  {
    var previousEnd := -2;
    count := 0;
    for k := 0 to |ranges|
      invariant ValidRanges(ranges[..k]) && count == Total(ranges[..k]) >= k
      invariant previousEnd == if k == 0 then -2 else ranges[k - 1].end
    {
      var r := ranges[k];
      assert ranges[..k + 1][..k] == ranges[..k] && ranges[..k + 1][k] == r;
      if !IsScalar(r.start) || !IsScalar(r.end) || r.start > r.end { InvalidPrefix(ranges, k + 1); return 0; }
      if r.start <= previousEnd + 1 {
        assert k > 0 && ranges[..k + 1][k - 1] == ranges[k - 1];
        InvalidPrefix(ranges, k + 1);
        return 0;
      }
      if r.start <= SURROGATE_END && r.end >= SURROGATE_START { InvalidPrefix(ranges, k + 1); return 0; }
      AppendValid(ranges, k);
      previousEnd := r.end;
      count := count + r.end - r.start + 1;
    }
    assert ranges[..|ranges|] == ranges;
    if count == 0 { return 0; }
    var exhaustive := 0;
    for value := 0 to MAX_SCALAR + 1
      invariant exhaustive == |ScalarsBelow(ranges, value)|
    {
      var found := Contains(ranges, value);
      var skip := SURROGATE_START <= value <= SURROGATE_END;
      NextScalar(ranges, value);
      if !skip && found { exhaustive := exhaustive + 1; }
    }
    TotalIsMemberCount(ranges);
    if count != exhaustive { return 0; }
  }

  lemma InvalidPrefix(ranges: seq<Range>, k: nat)
    requires k <= |ranges| && !ValidRanges(ranges[..k])
    ensures !ValidRanges(ranges)
  {
    if ValidRanges(ranges) {
      assert ValidRanges(ranges[..k]);
    }
  }

  lemma AppendValid(ranges: seq<Range>, k: nat)
    requires k < |ranges| && ValidRanges(ranges[..k])
    requires var r := ranges[k];
             && IsScalar(r.start) && IsScalar(r.end) && r.start <= r.end
             && !(r.start <= SURROGATE_END && r.end >= SURROGATE_START)
             && (k > 0 ==> ranges[k - 1].end + 1 < r.start)
    ensures ValidRanges(ranges[..k + 1])
  {
    var x := ranges[..k + 1];
    assert x[..k] == ranges[..k];
    forall i, j | 0 <= i < j < |x| ensures x[i].end + 1 < x[j].start {
      if j < k {
        assert x[i] == ranges[..k][i] && x[j] == ranges[..k][j];
      } else if i < k - 1 {
        assert x[i] == ranges[..k][i] && x[k - 1] == ranges[..k][k - 1];
      }
    }
    forall i | 0 <= i < |x|
      ensures IsScalar(x[i].start) && IsScalar(x[i].end) && x[i].start <= x[i].end
      ensures !(x[i].start <= SURROGATE_END && x[i].end >= SURROGATE_START)
    {
      if i < k { assert x[i] == ranges[..k][i]; }
    }
  }

  lemma NextScalar(ranges: seq<Range>, value: nat)
    ensures |ScalarsBelow(ranges, value + 1)|
            == |ScalarsBelow(ranges, value)| + if IsScalar(value) && Member(ranges, value) then 1 else 0
  {
    var next := if IsScalar(value) && Member(ranges, value) then {value} else {};
    assert ScalarsBelow(ranges, value + 1) == ScalarsBelow(ranges, value) + next;
  }
}
