/**
 Speculative source edits: grouping, canonical order, and application from last to first.
 */
module SourceEdits {
  import opened Results
  import opened NaturalSets
  import opened ByteRanges

  type Text = seq<Byte>

  /// Replaces the bytes `start..end` of one source. A range never starts behind its end.
  datatype Edit = Edit(source: nat, start: nat, end: nat, newText: Text)

  datatype BuildError = EmptyMutation | MissingSource(source: nat) | InvalidEdit(source: nat) | OverlappingEdits(source: nat)

  predicate Continuation(b: Byte) {
    0x80 <= b < 0xC0
  }

  /// Text that starts with a character.
  predicate StartsCharacter(t: Text) {
    t == [] || !Continuation(t[0])
  }

  predicate CharBoundary(t: Text, at: nat) {
    at == 0 || at == |t| || (at < |t| && !Continuation(t[at]))
  }

  predicate ValidEdit(e: Edit) {
    e.start <= e.end && StartsCharacter(e.newText)
  }

  predicate ValidEdits(edits: seq<Edit>) {
    forall i | 0 <= i < |edits| :: ValidEdit(edits[i])
  }

  // ---------------------------------------------------------------- order

  predicate RangeLeq(x: Edit, y: Edit) {
    x.start < y.start || (x.start == y.start && x.end <= y.end)
  }

  predicate SortedByRange(edits: seq<Edit>) {
    forall i, j | 0 <= i < j < |edits| :: RangeLeq(edits[i], edits[j])
  }

  /// No edit ends behind the start of the next one.
  predicate AdjacentApart(edits: seq<Edit>) {
    forall i | 0 <= i < |edits| - 1 :: edits[i].end <= edits[i + 1].start
  }

  /// Checking neighbours is enough: no two edits overlap.
  lemma {:induction false} NeighboursSuffice(edits: seq<Edit>, i: nat, j: nat)
    requires ValidEdits(edits) && AdjacentApart(edits) && i < j < |edits|
    ensures edits[i].end <= edits[j].start
    decreases j
  {
    if i < j - 1 {
      NeighboursSuffice(edits, i, j - 1);
      assert ValidEdit(edits[j - 1]);
    }
  }

  /// Edits of one range keep their order.
  function SameRange(edits: seq<Edit>, start: nat, end: nat): seq<Edit> {
    if edits == [] then []
    else (if edits[0].start == start && edits[0].end == end then [edits[0]] else []) + SameRange(edits[1..], start, end)
  }

  /// Inserts an edit behind every edit that does not come after it.
  function Insert(e: Edit, edits: seq<Edit>): seq<Edit> {
    if edits == [] || !RangeLeq(edits[0], e) then [e] + edits else [edits[0]] + Insert(e, edits[1..])
  }

  /// The stable sort by range.
  function SortedEdits(edits: seq<Edit>): seq<Edit> {
    if edits == [] then [] else Insert(edits[|edits| - 1], SortedEdits(edits[..|edits| - 1]))
  }

  lemma {:induction false} InsertSorts(e: Edit, edits: seq<Edit>)
    requires SortedByRange(edits)
    ensures SortedByRange(Insert(e, edits)) && multiset(Insert(e, edits)) == multiset(edits) + multiset{e}
    ensures forall x | x in Insert(e, edits) :: x == e || x in edits
  {
    if edits != [] && RangeLeq(edits[0], e) {
      TailIsSorted(edits);
      InsertSorts(e, edits[1..]);
      SortedBehind(edits[0], Insert(e, edits[1..]), e, edits[1..]);
    }
  }

  /// A first edit before all others.
  lemma SortedBehind(first: Edit, tail: seq<Edit>, e: Edit, rest: seq<Edit>)
    requires SortedByRange(tail) && RangeLeq(first, e) && forall x | x in tail :: x == e || x in rest
    requires SortedByRange([first] + rest)
    ensures SortedByRange([first] + tail)
  {
    forall j | 0 <= j < |tail| ensures RangeLeq(first, tail[j]) {
      assert tail[j] in tail;
      if tail[j] != e {
        var k :| 0 <= k < |rest| && rest[k] == tail[j];
        assert ([first] + rest)[k + 1] == tail[j] && ([first] + rest)[0] == first;
      }
    }
  }

  lemma SameRangeFirst(e: Edit, edits: seq<Edit>, start: nat, end: nat)
    ensures SameRange([e] + edits, start, end) == (if e.start == start && e.end == end then [e] else []) + SameRange(edits, start, end)
  {
    assert ([e] + edits)[1..] == edits;
  }

  lemma TailIsSorted(edits: seq<Edit>)
    requires SortedByRange(edits) && edits != []
    ensures SortedByRange(edits[1..]) && edits == [edits[0]] + edits[1..]
  {
  }

  /// Everything from a later edit on has a later range.
  lemma LaterRanges(e: Edit, edits: seq<Edit>)
    requires SortedByRange(edits) && edits != [] && !RangeLeq(edits[0], e)
    ensures SameRange(edits, e.start, e.end) == []
  {
    NoneOfRange(edits, e.start, e.end);
  }

  lemma {:induction false} InsertIsStable(e: Edit, edits: seq<Edit>, start: nat, end: nat)
    requires SortedByRange(edits)
    ensures SameRange(Insert(e, edits), start, end)
            == SameRange(edits, start, end) + if e.start == start && e.end == end then [e] else []
  {
    hide SortedByRange, RangeLeq, SameRange;
    if edits == [] || !RangeLeq(edits[0], e) {
      SameRangeFirst(e, edits, start, end);
      if edits == [] {
        NothingOfRange(start, end);
      } else if e.start == start && e.end == end {
        LaterRanges(e, edits);
      }
    } else {
      TailIsSorted(edits);
      InsertIsStable(e, edits[1..], start, end);
      SameRangeFirst(edits[0], Insert(e, edits[1..]), start, end);
      SameRangeFirst(edits[0], edits[1..], start, end);
    }
  }

  lemma NothingOfRange(start: nat, end: nat)
    ensures SameRange([], start, end) == []
  {
  }

  lemma {:induction false} NoneOfRange(edits: seq<Edit>, start: nat, end: nat)
    requires forall i | 0 <= i < |edits| :: edits[i].start > start || (edits[i].start == start && edits[i].end > end)
    ensures SameRange(edits, start, end) == []
  {
    if edits != [] { NoneOfRange(edits[1..], start, end); }
  }

  lemma {:induction false} SameRangeAppends(x: seq<Edit>, e: Edit, start: nat, end: nat)
    ensures SameRange(x + [e], start, end) == SameRange(x, start, end) + if e.start == start && e.end == end then [e] else []
  {
    if x == [] {
    } else {
      assert (x + [e])[1..] == x[1..] + [e];
      SameRangeAppends(x[1..], e, start, end);
    }
  }

  /// Sorting keeps every edit, orders them by range, and keeps the order of equal ranges.
  lemma {:induction false} SortingIsStable(edits: seq<Edit>, start: nat, end: nat)
    ensures SortedByRange(SortedEdits(edits)) && multiset(SortedEdits(edits)) == multiset(edits)
    ensures SameRange(SortedEdits(edits), start, end) == SameRange(edits, start, end)
  {
    if edits != [] {
      var before, e := edits[..|edits| - 1], edits[|edits| - 1];
      SortingIsStable(before, start, end);
      InsertSorts(e, SortedEdits(before));
      InsertIsStable(e, SortedEdits(before), start, end);
      assert edits == before + [e];
      SameRangeAppends(before, e, start, end);
    }
  }

  // ---------------------------------------------------------------- simultaneous substitution

  /// The gaps of the original text and the replacements, in order, from offset `from` on.
  function Substituted(text: Text, edits: seq<Edit>, from: nat): Text
    requires Placed(text, edits, from)
  {
    if edits == [] then text[from..]
    else text[from..edits[0].start] + edits[0].newText + Substituted(text, edits[1..], edits[0].end)
  }

  /// Edits that lie behind one another within the text.
  predicate Placed(text: Text, edits: seq<Edit>, from: nat)
    decreases |edits|
  {
    if edits == [] then from <= |text|
    else from <= edits[0].start <= edits[0].end <= |text| && Placed(text, edits[1..], edits[0].end)
  }

  predicate EndpointsAreBoundaries(text: Text, edits: seq<Edit>) {
    forall i | 0 <= i < |edits| :: CharBoundary(text, edits[i].start) && CharBoundary(text, edits[i].end)
  }

  lemma AdjacentTail(edits: seq<Edit>)
    requires edits != [] && AdjacentApart(edits)
    ensures AdjacentApart(edits[1..])
  {
    forall i | 0 <= i < |edits[1..]| - 1 ensures edits[1..][i].end <= edits[1..][i + 1].start {
      assert edits[i + 1].end <= edits[i + 1 + 1].start;
    }
  }

  lemma {:induction false} CanonicalEditsArePlaced(text: Text, edits: seq<Edit>, from: nat)
    requires ValidEdits(edits) && AdjacentApart(edits) && from <= |text|
    requires forall i | 0 <= i < |edits| :: edits[i].end <= |text|
    requires edits != [] ==> from <= edits[0].start
    ensures Placed(text, edits, from)
  {
    if edits != [] {
      assert ValidEdit(edits[0]);
      AdjacentTail(edits);
      CanonicalEditsArePlaced(text, edits[1..], edits[0].end);
    }
  }

  /// Text in front of the first edit is text of the original.
  lemma GapInFront(text: Text, edits: seq<Edit>, from: nat, at: nat)
    requires Placed(text, edits, from) && from <= at <= |text| && (edits != [] ==> at <= edits[0].start)
    ensures Placed(text, edits, at) && Substituted(text, edits, from) == text[from..at] + Substituted(text, edits, at)
  {
    if edits == [] {
      assert text[from..] == text[from..at] + text[at..];
    } else {
      var e, rest := edits[0], Substituted(text, edits[1..], edits[0].end);
      assert Substituted(text, edits, from) == text[from..e.start] + e.newText + rest;
      assert Substituted(text, edits, at) == text[at..e.start] + e.newText + rest;
      hide Substituted;
      SplitGap(text, from, at, e.start, e.newText, rest);
    }
  }

  lemma SplitGap(text: Text, from: nat, at: nat, start: nat, newText: Text, rest: Text)
    requires from <= at <= start <= |text|
    ensures text[from..start] + newText + rest == text[from..at] + (text[at..start] + newText + rest)
  {
    assert text[from..start] == text[from..at] + text[at..start];
    Associative(text[from..at], text[at..start], newText);
    Associative(text[from..at], text[at..start] + newText, rest);
  }

  lemma Associative(x: Text, y: Text, z: Text)
    ensures x + y + z == x + (y + z)
  {
  }

  /// Replacing one more range in front of edits that are already applied.
  lemma OneMoreEdit(text: Text, edits: seq<Edit>)
    requires edits != [] && Placed(text, edits, 0)
    ensures Placed(text, edits[1..], 0)
    ensures var e, after := edits[0], Substituted(text, edits[1..], 0);
            && e.end <= |after|
            && after[..e.start] + e.newText + after[e.end..] == Substituted(text, edits, 0)
  {
    var e := edits[0];
    assert Placed(text, edits[1..], e.end);
    PlacedFromFront(text, edits[1..], e.end);
    GapInFront(text, edits[1..], 0, e.end);
    var after := Substituted(text, edits[1..], 0);
    assert after == text[..e.end] + Substituted(text, edits[1..], e.end);
    assert after[..e.start] == text[..e.start] == text[0..e.start];
    assert after[e.end..] == Substituted(text, edits[1..], e.end);
  }

  lemma PlacedFromFront(text: Text, edits: seq<Edit>, from: nat)
    requires Placed(text, edits, from)
    ensures Placed(text, edits, 0) && from <= |text| && (edits != [] ==> from <= edits[0].start)
  {
  }

  /// How far the text behind the first `k` edits moves.
  function Shift(edits: seq<Edit>, k: nat): int
    requires k <= |edits|
  {
    if k == 0 then 0 else |edits[0].newText| - (edits[0].end - edits[0].start) + Shift(edits[1..], k - 1)
  }

  /// MAIN RESULT. In the edited text every replacement stands where its range was, moved by the edits in
  /// front of it.
  lemma ReplacementsArrive(text: Text, edits: seq<Edit>, k: nat)
    requires Placed(text, edits, 0) && k < |edits|
    ensures var after, at := Substituted(text, edits, 0), edits[k].start + Shift(edits, k);
            0 <= at && at + |edits[k].newText| <= |after| && after[at..at + |edits[k].newText|] == edits[k].newText
  {
    ReplacementsArriveFrom(text, edits, 0, k);
  }

  lemma {:induction false} ReplacementsArriveFrom(text: Text, edits: seq<Edit>, from: nat, k: nat)
    requires Placed(text, edits, from) && k < |edits|
    ensures var after, at := Substituted(text, edits, from), edits[k].start + Shift(edits, k) - from;
            0 <= at && at + |edits[k].newText| <= |after| && after[at..at + |edits[k].newText|] == edits[k].newText
    decreases k
  {
    var e, rest := edits[0], Substituted(text, edits[1..], edits[0].end);
    var front := text[from..e.start] + e.newText;
    assert Substituted(text, edits, from) == front + rest;
    if k > 0 {
      ReplacementsArriveFrom(text, edits[1..], e.end, k - 1);
      var length := |edits[k].newText|;
      var at := edits[k].start + Shift(edits[1..], k - 1) - e.end;
      assert (front + rest)[|front| + at..|front| + at + length] == rest[at..at + length];
    } else {
      var length := |e.newText|;
      assert (front + rest)[|front| - length..|front|] == e.newText;
    }
  }

  /// MAIN RESULT. Every byte that no range covers is kept, moved by the edits in front of it, and the
  /// edited text has nothing else.
  lemma OtherBytesAreKept(text: Text, edits: seq<Edit>, k: nat, p: nat)
    requires Placed(text, edits, 0) && k <= |edits| && p < |text|
    requires (k > 0 ==> edits[k - 1].end <= p) && (k < |edits| ==> p < edits[k].start)
    ensures var after, at := Substituted(text, edits, 0), p + Shift(edits, k);
            0 <= at < |after| && after[at] == text[p]
    ensures |Substituted(text, edits, 0)| == |text| + Shift(edits, |edits|)
  {
    OtherBytesAreKeptFrom(text, edits, 0, k, p);
    LengthsAddUp(text, edits, 0);
  }

  lemma {:induction false} OtherBytesAreKeptFrom(text: Text, edits: seq<Edit>, from: nat, k: nat, p: nat)
    requires Placed(text, edits, from) && k <= |edits| && from <= p < |text|
    requires (k > 0 ==> edits[k - 1].end <= p) && (k < |edits| ==> p < edits[k].start)
    ensures var after, at := Substituted(text, edits, from), p + Shift(edits, k) - from;
            0 <= at < |after| && after[at] == text[p]
    decreases k
  {
    if edits != [] {
      var e, rest := edits[0], Substituted(text, edits[1..], edits[0].end);
      var front := text[from..e.start] + e.newText;
      assert Substituted(text, edits, from) == front + rest;
      if k > 0 {
        EndsIncrease(text, edits, from, k - 1);
        OtherBytesAreKeptFrom(text, edits[1..], e.end, k - 1, p);
        assert (front + rest)[|front| + (p + Shift(edits[1..], k - 1) - e.end)] == rest[p + Shift(edits[1..], k - 1) - e.end];
      } else {
        assert (front + rest)[p - from] == text[p];
      }
    }
  }

  lemma {:induction false} EndsIncrease(text: Text, edits: seq<Edit>, from: nat, k: nat)
    requires Placed(text, edits, from) && k < |edits|
    ensures edits[0].end <= edits[k].end
    decreases k
  {
    if k > 0 {
      assert edits[0].end <= edits[1].start <= edits[1].end;
      EndsIncrease(text, edits[1..], edits[0].end, k - 1);
    }
  }

  lemma {:induction false} LengthsAddUp(text: Text, edits: seq<Edit>, from: nat)
    requires Placed(text, edits, from)
    ensures |Substituted(text, edits, from)| == |text| - from + Shift(edits, |edits|)
    decreases |edits|
  {
    if edits != [] { LengthsAddUp(text, edits[1..], edits[0].end); }
  }

  /// At the start of an applied edit there is a character boundary.
  lemma {:induction false} AppliedStartIsBoundary(text: Text, edits: seq<Edit>, at: nat)
    requires Placed(text, edits, at) && ValidEdits(edits) && EndpointsAreBoundaries(text, edits)
    requires CharBoundary(text, at)
    ensures Placed(text, edits, 0) && CharBoundary(Substituted(text, edits, 0), at)
    decreases |edits|
  {
    PlacedFromFront(text, edits, at);
    GapInFront(text, edits, 0, at);
    var rest := Substituted(text, edits, at);
    assert Substituted(text, edits, 0) == text[0..at] + rest && |text[0..at]| == at;
    if edits != [] && at == edits[0].start && edits[0].newText == [] {
      assert CharBoundary(text, edits[0].end);
      assert ValidEdits(edits[1..]) && EndpointsAreBoundaries(text, edits[1..]);
      AppliedStartIsBoundary(text, edits[1..], edits[0].end);
      PlacedFromFront(text, edits[1..], edits[0].end);
      GapInFront(text, edits[1..], 0, edits[0].end);
      assert rest == Substituted(text, edits[1..], edits[0].end);
    } else if edits != [] && at == edits[0].start {
      assert ValidEdit(edits[0]);
      assert rest[0] == edits[0].newText[0];
    }
  }

  /// So checking a boundary after later edits were applied is checking it in the original text.
  lemma BoundariesAreOriginal(text: Text, edits: seq<Edit>, at: nat)
    requires Placed(text, edits, 0) && ValidEdits(edits) && EndpointsAreBoundaries(text, edits)
    requires edits != [] ==> at <= edits[0].start
    ensures CharBoundary(Substituted(text, edits, 0), at) <==> CharBoundary(text, at)
  {
    if edits != [] {
      var after := Substituted(text, edits, 0);
      assert edits[0].start <= |text|;
      GapInFront(text, edits, 0, at);
      if at == edits[0].start {
        assert CharBoundary(text, at);
        AppliedStartIsBoundary(text, edits, at);
      } else {
        assert after[at] == text[at] by {
          GapInFront(text, edits, 0, at + 1);
        }
      }
    }
  }

  /// MAIN RESULT. Applies the edits of one source from last to first, each checked against the text as
  /// the later edits left it. This succeeds exactly when every endpoint is a character boundary of the
  /// original text, and is then the simultaneous substitution in original coordinates.
  method ApplyEdits(source: nat, original: Text, edits: seq<Edit>) returns (r: Result<Text, BuildError>)
    requires ValidEdits(edits) && AdjacentApart(edits)
    ensures r.Ok? <==> EndpointsAreBoundaries(original, edits)
    ensures r.Ok? ==> Placed(original, edits, 0) && r.value == Substituted(original, edits, 0)
    ensures r.Err? ==> r.error == InvalidEdit(source)
  {
    var text := original;
    var k := |edits|;
    assert edits[k..] == [];
    while k > 0
      invariant k <= |edits|
      invariant EndpointsAreBoundaries(original, edits[k..]) && Placed(original, edits[k..], 0)
      invariant text == Substituted(original, edits[k..], 0)
    {
      var e := edits[k - 1];
      assert edits[k - 1..][0] == e && edits[k - 1..][1..] == edits[k..];
      assert ValidEdits(edits[k..]) && ValidEdit(e);
      if k < |edits| { assert e.end <= edits[k].start == edits[k..][0].start; }
      BoundariesAreOriginal(original, edits[k..], e.start);
      BoundariesAreOriginal(original, edits[k..], e.end);
      if !CharBoundary(text, e.start) || !CharBoundary(text, e.end) || e.start > e.end {
        return Err(InvalidEdit(source));
      }
      assert Placed(original, edits[k - 1..], 0) by {
        if k < |edits| { GapInFront(original, edits[k..], 0, e.end); }
      }
      OneMoreEdit(original, edits[k - 1..]);
      text := text[..e.start] + e.newText + text[e.end..];
      k := k - 1;
    }
    assert edits[0..] == edits;
    return Ok(text);
  }

  // ---------------------------------------------------------------- groups

  /// The edits of one source, in input order.
  function EditsOf(edits: seq<Edit>, source: nat): seq<Edit> {
    if edits == [] then []
    else EditsOf(edits[..|edits| - 1], source) + if edits[|edits| - 1].source == source then [edits[|edits| - 1]] else []
  }

  /// A group has exactly the edits of its source, and keeps their order.
  lemma {:induction false} GroupsKeepOrder(x: seq<Edit>, y: seq<Edit>, source: nat)
    ensures EditsOf(x + y, source) == EditsOf(x, source) + EditsOf(y, source)
    decreases |y|
  {
    hide EditsOf;
    if y == [] {
      assert x + y == x;
      OneOfGroup([], source);
    } else {
      var n := |y| - 1;
      assert (x + y)[..|x| + n] == x + y[..n] && (x + y)[|x| + n] == y[n];
      GroupsKeepOrder(x, y[..n], source);
      OneOfGroup(x + y, source);
      OneOfGroup(y, source);
    }
  }

  lemma OneOfGroup(edits: seq<Edit>, source: nat)
    ensures edits == [] ==> EditsOf(edits, source) == []
    ensures edits != [] ==>
              var last := edits[|edits| - 1];
              EditsOf(edits, source) == EditsOf(edits[..|edits| - 1], source) + if last.source == source then [last] else []
  {
  }

  lemma GroupOfOne(e: Edit, source: nat)
    ensures EditsOf([e], source) == if e.source == source then [e] else []
  {
    OneOfGroup([e], source);
  }

  function SourcesOf(edits: seq<Edit>): set<nat> {
    set i | 0 <= i < |edits| :: edits[i].source
  }

  lemma {:induction false} GroupsAreValid(edits: seq<Edit>, source: nat)
    requires ValidEdits(edits)
    ensures ValidEdits(EditsOf(edits, source)) && ValidEdits(SortedEdits(EditsOf(edits, source)))
    ensures forall e | e in EditsOf(edits, source) :: e.source == source && e in edits
  {
    if edits != [] {
      GroupsAreValid(edits[..|edits| - 1], source);
      assert ValidEdit(edits[|edits| - 1]);
    }
    hide EditsOf, ValidEdit;
    SortingKeepsValid(EditsOf(edits, source));
  }

  lemma SortingKeepsValid(edits: seq<Edit>)
    requires ValidEdits(edits)
    ensures ValidEdits(SortedEdits(edits))
  {
    hide SortedEdits, ValidEdit, SortedByRange, SameRange;
    SortingIsStable(edits, 0, 0);
    forall i | 0 <= i < |SortedEdits(edits)| ensures ValidEdit(SortedEdits(edits)[i]) {
      assert SortedEdits(edits)[i] in multiset(SortedEdits(edits));
      assert SortedEdits(edits)[i] in multiset(edits);
      var j :| 0 <= j < |edits| && edits[j] == SortedEdits(edits)[i];
    }
  }

  /// The sorted edits of one source.
  datatype Group = Group(source: nat, edits: seq<Edit>)

  predicate CanonicalGroups(groups: seq<Group>, sources: seq<nat>, edits: seq<Edit>) {
    |groups| == |sources|
    && forall i | 0 <= i < |groups| ::
         groups[i] == Group(sources[i], SortedEdits(EditsOf(edits, sources[i]))) && ValidEdits(groups[i].edits) && AdjacentApart(groups[i].edits)
  }

  predicate Overlaps(edits: seq<Edit>, source: nat) {
    !AdjacentApart(SortedEdits(EditsOf(edits, source)))
  }

  /// Groups edits by source in increasing order, sorts every group, and refuses the first source whose
  /// edits overlap, or else the first one that is missing.
  method CanonicalEditGroups(sources: set<nat>, edits: seq<Edit>) returns (r: Result<seq<Group>, BuildError>)
    requires ValidEdits(edits)
    ensures r.Ok? <==> edits != [] && forall s | s in SourcesOf(edits) :: !Overlaps(edits, s) && s in sources
    ensures r.Ok? ==> exists order | CanonicalGroups(r.value, order, edits) :: Increasing(order) && forall s :: s in order <==> s in SourcesOf(edits)
    ensures r.Ok? ==> AllCanonical(r.value)
    ensures r == Err(EmptyMutation) <==> edits == []
    ensures r.Err? && r.error.OverlappingEdits? ==>
              && r.error.source in SourcesOf(edits) && Overlaps(edits, r.error.source)
              && forall s | s in SourcesOf(edits) && s < r.error.source :: !Overlaps(edits, s)
    ensures r.Err? && r.error.MissingSource? ==>
              && r.error.source in SourcesOf(edits) && r.error.source !in sources
              && (forall s | s in SourcesOf(edits) && s < r.error.source :: s in sources)
              && forall s | s in SourcesOf(edits) :: !Overlaps(edits, s)
  {
    hide EditsOf, SortedEdits, AdjacentApart, ValidEdits, SourcesOf, CanonicalGroups, Overlaps, AllCanonical;
    var grouped := GroupBySource(edits);
    NoSourcesWithoutEdits(edits);
    if grouped == map[] { return Err(EmptyMutation); }
    var order := SortNumbers(grouped.Keys);
    var sorted := SortGroups(edits, grouped, order);
    if sorted.Err? { return Err(sorted.error); }
    var missing := FindMissing(order, sources);
    if missing.Err? { return Err(missing.error); }
    assert CanonicalGroups(sorted.value, order, edits);
    GroupsAreCanonical(sorted.value, order, edits);
    return Ok(sorted.value);
  }

  lemma NoSourcesWithoutEdits(edits: seq<Edit>)
    ensures SourcesOf(edits) == {} <==> edits == []
  {
    if edits != [] { assert edits[0].source in SourcesOf(edits); }
  }

  method FindMissing(wanted: seq<nat>, sources: set<nat>) returns (r: Result<(), BuildError>)
    requires Increasing(wanted)
    ensures r.Ok? <==> forall s | s in wanted :: s in sources
    ensures r.Err? ==>
              && r.error.MissingSource? && r.error.source in wanted && r.error.source !in sources
              && forall s | s in wanted && s < r.error.source :: s in sources
  {
    for k := 0 to |wanted|
      invariant forall s | s in wanted[..k] :: s in sources
    {
      forall s | s in wanted && s < wanted[k] ensures s in sources {
        SmallerComeFirst(wanted, k, s);
      }
      if wanted[k] !in sources { return Err(MissingSource(wanted[k])); }
      assert wanted[..k + 1] == wanted[..k] + [wanted[k]];
    }
    assert wanted[..|wanted|] == wanted;
    return Ok(());
  }

  method GroupBySource(edits: seq<Edit>) returns (grouped: map<nat, seq<Edit>>)
    ensures grouped.Keys == SourcesOf(edits)
    ensures forall s | s in grouped :: grouped[s] == EditsOf(edits, s)
  {
    hide EditsOf, SourcesOf;
    grouped := map[];
    NothingGrouped();
    assert edits[..0] == [];
    for i := 0 to |edits|
      invariant grouped.Keys == SourcesOf(edits[..i])
      invariant forall s | s in grouped :: grouped[s] == EditsOf(edits[..i], s)
      invariant forall s | s !in grouped :: EditsOf(edits[..i], s) == []
    {
      var e := edits[i];
      SourcesGrow(edits, i);
      forall s ensures EditsOf(edits[..i + 1], s) == EditsOf(edits[..i], s) + if e.source == s then [e] else [] {
        EditsGrow(edits, i, s);
      }
      grouped := grouped[e.source := (if e.source in grouped then grouped[e.source] else []) + [e]];
    }
    assert edits[..|edits|] == edits;
  }

  lemma NothingGrouped()
    ensures SourcesOf([]) == {} && forall s :: EditsOf([], s) == []
  {
  }

  lemma EditsGrow(edits: seq<Edit>, i: nat, source: nat)
    requires i < |edits|
    ensures EditsOf(edits[..i + 1], source) == EditsOf(edits[..i], source) + if edits[i].source == source then [edits[i]] else []
  {
    assert edits[..i + 1][..i] == edits[..i];
  }

  lemma SourcesGrow(edits: seq<Edit>, i: nat)
    requires i < |edits|
    ensures SourcesOf(edits[..i + 1]) == SourcesOf(edits[..i]) + {edits[i].source}
  {
    forall s ensures s in SourcesOf(edits[..i + 1]) <==> s in SourcesOf(edits[..i]) + {edits[i].source} {
      if s in SourcesOf(edits[..i]) {
        var j :| 0 <= j < i && edits[..i][j].source == s;
        assert edits[..i + 1][j].source == s;
      }
      if s == edits[i].source { assert edits[..i + 1][i].source == s; }
      if s in SourcesOf(edits[..i + 1]) {
        var j :| 0 <= j < i + 1 && edits[..i + 1][j].source == s;
        assert j < i ==> edits[..i][j].source == s;
      }
    }
  }

  /// Sorts every group in turn and refuses the first one whose neighbours overlap.
  method SortGroups(edits: seq<Edit>, grouped: map<nat, seq<Edit>>, order: seq<nat>) returns (r: Result<seq<Group>, BuildError>)
    requires ValidEdits(edits) && forall s | s in grouped :: grouped[s] == EditsOf(edits, s)
    requires Increasing(order) && forall s :: s in order <==> s in grouped
    ensures r.Ok? <==> forall s | s in order :: !Overlaps(edits, s)
    ensures r.Ok? ==> CanonicalGroups(r.value, order, edits)
    ensures r.Err? ==>
              && r.error.OverlappingEdits? && r.error.source in order && Overlaps(edits, r.error.source)
              && forall s | s in order && s < r.error.source :: !Overlaps(edits, s)
  {
    hide EditsOf, SortedEdits, ValidEdits;
    var sorted: seq<Group> := [];
    for k := 0 to |order|
      invariant CanonicalGroups(sorted, order[..k], edits)
      invariant forall s | s in order[..k] :: !Overlaps(edits, s)
    {
      var s := order[k];
      assert s in order;
      var group := SortedEdits(grouped[s]);
      GroupsAreValid(edits, s);
      forall t | t in order && t < s ensures !Overlaps(edits, t) {
        SmallerComeFirst(order, k, t);
      }
      if exists i | 0 <= i < |group| - 1 :: group[i].end > group[i + 1].start { return Err(OverlappingEdits(s)); }
      sorted := sorted + [Group(s, group)];
      assert order[..k + 1] == order[..k] + [s];
    }
    assert order[..|order|] == order;
    return Ok(sorted);
  }

  // ---------------------------------------------------------------- the candidate

  /// The first group of a source.
  function GroupOf(groups: seq<Group>, source: nat): Option<seq<Edit>> {
    if groups == [] then None
    else if groups[0].source == source then Some(groups[0].edits)
    else GroupOf(groups[1..], source)
  }

  /// A source without edits fits, and one whose endpoints are character boundaries.
  predicate EditsFit(text: Text, source: nat, groups: seq<Group>) {
    GroupOf(groups, source).Some? ==> EndpointsAreBoundaries(text, GroupOf(groups, source).value)
  }

  predicate IsCandidate(original: Text, source: nat, groups: seq<Group>, text: Text) {
    match GroupOf(groups, source)
    case None => text == original
    case Some(edits) => Placed(original, edits, 0) && text == Substituted(original, edits, 0)
  }

  predicate AllCanonical(groups: seq<Group>) {
    forall i | 0 <= i < |groups| :: ValidEdits(groups[i].edits) && AdjacentApart(groups[i].edits)
  }

  lemma {:induction false} FoundIsCanonical(groups: seq<Group>, source: nat)
    requires AllCanonical(groups)
    ensures GroupOf(groups, source).Some? ==> ValidEdits(GroupOf(groups, source).value) && AdjacentApart(GroupOf(groups, source).value)
  {
    hide ValidEdits, AdjacentApart;
    if groups != [] {
      assert forall i | 0 <= i < |groups| - 1 :: groups[1..][i] == groups[i + 1];
      FoundIsCanonical(groups[1..], source);
    }
  }

  /// The texts of a candidate, source by source: edited ones are substituted, all others are kept. The
  /// error names the first source with an endpoint that is no character boundary.
  method CandidateTexts(texts: map<nat, Text>, groups: seq<Group>) returns (r: Result<map<nat, Text>, BuildError>)
    requires AllCanonical(groups)
    ensures r.Ok? <==> forall s | s in texts :: EditsFit(texts[s], s, groups)
    ensures r.Ok? ==> r.value.Keys == texts.Keys && forall s | s in texts :: IsCandidate(texts[s], s, groups, r.value[s])
    ensures r.Err? ==>
              && r.error.InvalidEdit? && r.error.source in texts && !EditsFit(texts[r.error.source], r.error.source, groups)
              && forall s | s in texts && s < r.error.source :: EditsFit(texts[s], s, groups)
  {
    hide EndpointsAreBoundaries, Substituted, Placed, ValidEdits, AdjacentApart, GroupOf, AllCanonical;
    var candidate: map<nat, Text> := map[];
    var order := SortNumbers(texts.Keys);
    for k := 0 to |order|
      invariant forall s :: s in candidate <==> s in order[..k]
      invariant forall s | s in candidate :: s in texts && IsCandidate(texts[s], s, groups, candidate[s]) && EditsFit(texts[s], s, groups)
    {
      var s := order[k];
      assert s in order;
      var text, group := texts[s], GroupOf(groups, s);
      FoundIsCanonical(groups, s);
      forall t | t in texts && t < s ensures EditsFit(texts[t], t, groups) {
        SmallerComeFirst(order, k, t);
      }
      if group.Some? {
        var applied := ApplyEdits(s, text, group.value);
        if applied.Err? { return Err(applied.error); }
        text := applied.value;
      }
      candidate := candidate[s := text];
      assert order[..k + 1] == order[..k] + [s];
    }
    assert order[..|order|] == order;
    return Ok(candidate);
  }

  lemma GroupsAreCanonical(groups: seq<Group>, order: seq<nat>, edits: seq<Edit>)
    requires CanonicalGroups(groups, order, edits)
    ensures AllCanonical(groups)
  {
    hide ValidEdits, AdjacentApart, SortedEdits, EditsOf;
  }
}
