/**
 Packed casing tables: records with their scalar sequences, flattened into offset and scalar arrays.
 */
module UnicodeCasing {
  import opened Results
  import opened NaturalSets
  import opened UnicodeRanges

  type Sequence = seq<int>

  datatype Mapping = Mapping(lower: Sequence, upper: Sequence)
  datatype Record = Record(point: nat, lower: Sequence, upper: Sequence)

  datatype Packed = Packed(points: seq<nat>, lowerOffsets: seq<nat>, lowerScalars: seq<int>,
                           upperOffsets: seq<nat>, upperScalars: seq<int>)

  function Points(records: seq<Record>): (r: seq<nat>)
    ensures |r| == |records|
  {
    seq(|records|, i requires 0 <= i < |records| => records[i].point)
  }

  // ---------------------------------------------------------------- packing one direction

  /// Scalars of the first `k` sequences, one behind the other.
  function Flat(sequences: seq<Sequence>, k: nat): seq<int>
    requires k <= |sequences|
  {
    if k == 0 then [] else Flat(sequences, k - 1) + sequences[k - 1]
  }

  predicate PackedAs(offsets: seq<nat>, scalars: seq<int>, sequences: seq<Sequence>, k: nat)
    requires k <= |sequences|
  {
    && |offsets| == k + 1
    && (forall i | 0 <= i <= k :: offsets[i] == |Flat(sequences, i)|)
    && scalars == Flat(sequences, k)
  }

  lemma {:induction false} FlatIsPrefix(sequences: seq<Sequence>, i: nat, k: nat)
    requires i <= k <= |sequences|
    ensures |Flat(sequences, i)| <= |Flat(sequences, k)| && Flat(sequences, k)[..|Flat(sequences, i)|] == Flat(sequences, i)
    decreases k
  {
    if i < k {
      FlatIsPrefix(sequences, i, k - 1);
    }
  }

  /// The slice between two offsets is the packed sequence.
  lemma SlicesAreSequences(offsets: seq<nat>, scalars: seq<int>, sequences: seq<Sequence>, i: nat)
    requires PackedAs(offsets, scalars, sequences, |sequences|) && i < |sequences|
    ensures 0 <= offsets[i] <= offsets[i + 1] <= |scalars| && scalars[offsets[i]..offsets[i + 1]] == sequences[i]
  {
    FlatIsPrefix(sequences, i + 1, |sequences|);
    var prefix := Flat(sequences, i + 1);
    assert scalars[..|prefix|] == prefix;
    assert scalars[offsets[i]..offsets[i + 1]] == prefix[offsets[i]..offsets[i + 1]];
  }

  function Lowers(records: seq<Record>): (r: seq<Sequence>)
    ensures |r| == |records|
  {
    seq(|records|, i requires 0 <= i < |records| => records[i].lower)
  }

  function Uppers(records: seq<Record>): (r: seq<Sequence>)
    ensures |r| == |records|
  {
    seq(|records|, i requires 0 <= i < |records| => records[i].upper)
  }

  predicate PacksRecords(p: Packed, records: seq<Record>) {
    && p.points == Points(records)
    && PackedAs(p.lowerOffsets, p.lowerScalars, Lowers(records), |records|)
    && PackedAs(p.upperOffsets, p.upperScalars, Uppers(records), |records|)
  }

  /// Refuses an empty sequence, and otherwise appends every record to the tables.
  method PackMappings(records: seq<Record>) returns (r: Option<Packed>)
    ensures r.Some? <==> forall i | 0 <= i < |records| :: records[i].lower != [] && records[i].upper != []
    ensures r.Some? ==> PacksRecords(r.value, records)
  {
    var points: seq<nat> := [];
    var lowerOffsets: seq<nat>, lowerScalars: seq<int> := [0], [];
    var upperOffsets: seq<nat>, upperScalars: seq<int> := [0], [];
    for k := 0 to |records|
      invariant points == Points(records)[..k]
      invariant PackedAs(lowerOffsets, lowerScalars, Lowers(records), k)
      invariant PackedAs(upperOffsets, upperScalars, Uppers(records), k)
      invariant forall i | 0 <= i < k :: records[i].lower != [] && records[i].upper != []
    {
      var record := records[k];
      if record.lower == [] || record.upper == [] { return None; }
      points := points + [record.point];
      lowerScalars := lowerScalars + record.lower;
      upperScalars := upperScalars + record.upper;
      lowerOffsets := lowerOffsets + [|lowerScalars|];
      upperOffsets := upperOffsets + [|upperScalars|];
    }
    return Some(Packed(points, lowerOffsets, lowerScalars, upperOffsets, upperScalars));
  }

  datatype PackedLower = PackedLower(points: seq<nat>, offsets: seq<nat>, scalars: seq<int>)

  /// The conditional table keeps lowercase sequences only.
  method PackLowerMappings(records: seq<Record>) returns (r: Option<PackedLower>)
    ensures r.Some? <==> forall i | 0 <= i < |records| :: records[i].lower != []
    ensures r.Some? ==>
              r.value.points == Points(records)
              && PackedAs(r.value.offsets, r.value.scalars, Lowers(records), |records|)
  {
    var points: seq<nat> := [];
    var offsets: seq<nat>, scalars: seq<int> := [0], [];
    for k := 0 to |records|
      invariant points == Points(records)[..k]
      invariant PackedAs(offsets, scalars, Lowers(records), k)
      invariant forall i | 0 <= i < k :: records[i].lower != []
    {
      if records[k].lower == [] { return None; }
      points := points + [records[k].point];
      scalars := scalars + records[k].lower;
      offsets := offsets + [|scalars|];
    }
    return Some(PackedLower(points, offsets, scalars));
  }

  // ---------------------------------------------------------------- lookup

  /// Index of the first key that is not below the value.
  method FindKey(points: seq<nat>, value: nat) returns (low: nat)
    requires Increasing(points)
    ensures low <= |points|
    ensures forall i | 0 <= i < low :: points[i] < value
    ensures forall i | low <= i < |points| :: points[i] >= value
    ensures low < |points| && points[low] == value <==> value in points
  {
    var high := |points|;
    low := 0;
    while low < high
      invariant low <= high <= |points|
      invariant forall i | 0 <= i < low :: points[i] < value
      invariant forall i | high <= i < |points| :: points[i] >= value
    {
      var middle := low + (high - low) / 2;
      if points[middle] < value { low := middle + 1; } else { high := middle; }
    }
  }

  /// A scalar without a key maps to itself.
  method Lookup(p: Packed, ghost records: seq<Record>, point: nat) returns (m: Mapping)
    requires PacksRecords(p, records) && Increasing(Points(records))
    ensures forall i | 0 <= i < |records| && records[i].point == point :: m == Mapping(records[i].lower, records[i].upper)
    ensures point !in Points(records) ==> m == Mapping([point], [point])
  {
    var index := FindKey(p.points, point);
    assert forall i | 0 <= i < |records| :: Points(records)[i] == records[i].point && Points(records)[i] in Points(records);
    if index == |p.points| || p.points[index] != point { return Mapping([point], [point]); }
    SlicesAreSequences(p.lowerOffsets, p.lowerScalars, Lowers(records), index);
    SlicesAreSequences(p.upperOffsets, p.upperScalars, Uppers(records), index);
    return Mapping(p.lowerScalars[p.lowerOffsets[index]..p.lowerOffsets[index + 1]],
                   p.upperScalars[p.upperOffsets[index]..p.upperOffsets[index + 1]]);
  }

  // ---------------------------------------------------------------- building the default mapping

  function Identity(point: nat): Mapping {
    Mapping([point], [point])
  }

  /// The unconditional special casing of a scalar, or else its simple casing, or else itself.
  function Effective(simple: map<nat, Mapping>, unconditional: map<nat, Mapping>, point: nat): Mapping {
    if point in unconditional then unconditional[point]
    else if point in simple then simple[point]
    else Identity(point)
  }

  /// Exactly the scalars that change, in order.
  predicate Selects(records: seq<Record>, simple: map<nat, Mapping>, unconditional: map<nat, Mapping>) {
    && Increasing(Points(records))
    && (forall i | 0 <= i < |records| ::
          && records[i].point in simple.Keys + unconditional.Keys
          && Mapping(records[i].lower, records[i].upper) == Effective(simple, unconditional, records[i].point)
          && Effective(simple, unconditional, records[i].point) != Identity(records[i].point))
    && forall p | p in simple.Keys + unconditional.Keys && Effective(simple, unconditional, p) != Identity(p) ::
         p in Points(records)
  }

  /// The casing of a scalar that it changes.
  predicate Chosen(r: Record, simple: map<nat, Mapping>, unconditional: map<nat, Mapping>) {
    && Mapping(r.lower, r.upper) == Effective(simple, unconditional, r.point)
    && Effective(simple, unconditional, r.point) != Identity(r.point)
  }

  predicate AllChosen(records: seq<Record>, simple: map<nat, Mapping>, unconditional: map<nat, Mapping>) {
    forall i | 0 <= i < |records| :: Chosen(records[i], simple, unconditional)
  }

  /// Exactly the changing ones among `points` are taken, in order.
  predicate Takes(taken: seq<nat>, points: seq<nat>, simple: map<nat, Mapping>, unconditional: map<nat, Mapping>) {
    && Increasing(taken)
    && (forall p | p in taken :: p in points)
    && forall p | p in points && Effective(simple, unconditional, p) != Identity(p) :: p in taken
  }

  predicate SelectsAmong(records: seq<Record>, points: seq<nat>, simple: map<nat, Mapping>, unconditional: map<nat, Mapping>) {
    AllChosen(records, simple, unconditional) && Takes(Points(records), points, simple, unconditional)
  }

  lemma TakenNext(taken: seq<nat>, points: seq<nat>, p: nat, simple: map<nat, Mapping>, unconditional: map<nat, Mapping>)
    requires Takes(taken, points, simple, unconditional) && forall q | q in points :: q < p
    ensures Takes(if Effective(simple, unconditional, p) != Identity(p) then taken + [p] else taken, points + [p], simple, unconditional)
  {
    hide Effective, Identity;
    assert forall i | 0 <= i < |taken| :: taken[i] in taken;
  }

  lemma BehindTheOthers(points: seq<nat>, k: nat)
    requires k < |points| && Increasing(points)
    ensures forall q | q in points[..k] :: q < points[k]
  {
  }

  lemma SelectedNext(records: seq<Record>, points: seq<nat>, k: nat, simple: map<nat, Mapping>, unconditional: map<nat, Mapping>)
    requires k < |points| && Increasing(points) && SelectsAmong(records, points[..k], simple, unconditional)
    ensures var m := Effective(simple, unconditional, points[k]);
            SelectsAmong(if m != Identity(points[k]) then records + [Record(points[k], m.lower, m.upper)] else records, points[..k + 1],
                         simple, unconditional)
  {
    hide Effective, Identity, Takes, Increasing;
    var m := Effective(simple, unconditional, points[k]);
    assert points[..k + 1] == points[..k] + [points[k]];
    BehindTheOthers(points, k);
    TakenNext(Points(records), points[..k], points[k], simple, unconditional);
    if m != Identity(points[k]) {
      assert Points(records + [Record(points[k], m.lower, m.upper)]) == Points(records) + [points[k]];
    }
  }

  lemma SelectedAll(records: seq<Record>, points: seq<nat>, simple: map<nat, Mapping>, unconditional: map<nat, Mapping>)
    requires SelectsAmong(records, points, simple, unconditional) && forall p :: p in points <==> p in simple.Keys + unconditional.Keys
    ensures Selects(records, simple, unconditional)
  {
    hide Effective, Identity;
    forall i | 0 <= i < |records| ensures records[i].point in points && Chosen(records[i], simple, unconditional) {
      assert Points(records)[i] in Points(records);
    }
  }

  method SelectRecords(simple: map<nat, Mapping>, unconditional: map<nat, Mapping>) returns (records: seq<Record>)
    ensures Selects(records, simple, unconditional)
  {
    hide SelectsAmong, Effective, Selects;
    var points := SortNumbers(simple.Keys + unconditional.Keys);
    records := [];
    assert SelectsAmong([], [], simple, unconditional) by { NothingSelected(simple, unconditional); }
    for k := 0 to |points|
      invariant SelectsAmong(records, points[..k], simple, unconditional)
    {
      var p := points[k];
      var mapping := Effective(simple, unconditional, p);
      SelectedNext(records, points, k, simple, unconditional);
      if mapping.lower != [p] || mapping.upper != [p] {
        records := records + [Record(p, mapping.lower, mapping.upper)];
      }
    }
    assert points[..|points|] == points;
    SelectedAll(records, points, simple, unconditional);
  }

  lemma NothingSelected(simple: map<nat, Mapping>, unconditional: map<nat, Mapping>)
    ensures SelectsAmong([], [], simple, unconditional)
  {
  }

  /// MAIN RESULT. The packed tables answer every scalar with its effective casing, whether it has a key
  /// or not.
  method BuildMapping(simple: map<nat, Mapping>, unconditional: map<nat, Mapping>)
    returns (r: Option<Packed>, ghost records: seq<Record>)
    ensures Selects(records, simple, unconditional)
    ensures r.Some? <==> forall i | 0 <= i < |records| :: records[i].lower != [] && records[i].upper != []
    ensures r.Some? ==> PacksRecords(r.value, records)
  {
    var selected := SelectRecords(simple, unconditional);
    r := PackMappings(selected);
    records := selected;
  }

  method CasingOf(p: Packed, ghost records: seq<Record>, ghost simple: map<nat, Mapping>, ghost unconditional: map<nat, Mapping>,
                  point: nat)
    returns (m: Mapping)
    requires PacksRecords(p, records) && Selects(records, simple, unconditional)
    ensures m == Effective(simple, unconditional, point)
    ensures point in unconditional ==> m == unconditional[point]
    ensures point !in unconditional && point in simple ==> m == simple[point]
    ensures point !in unconditional && point !in simple ==> m.lower == m.upper == [point]
  {
    m := Lookup(p, records, point);
    if point in Points(records) {
      var i: nat :| i < |records| && Points(records)[i] == point;
      assert records[i].point == point;
    }
  }

  // ---------------------------------------------------------------- validation

  predicate ValidSlice(offsets: seq<nat>, scalars: seq<int>, i: nat)
    requires i + 1 < |offsets|
  {
    && offsets[i] < offsets[i + 1] <= |scalars|
    && forall j | offsets[i] <= j < offsets[i + 1] :: IsScalar(scalars[j])
  }

  /// Increasing scalar keys, a non-empty scalar slice for every key, and nothing behind the last slice.
  predicate ValidTable(p: Packed) {
    && |p.lowerOffsets| == |p.upperOffsets| == |p.points| + 1
    && Increasing(p.points)
    && (forall i | 0 <= i < |p.points| ::
          IsScalar(p.points[i]) && ValidSlice(p.lowerOffsets, p.lowerScalars, i) && ValidSlice(p.upperOffsets, p.upperScalars, i))
    && p.lowerOffsets[|p.points|] == |p.lowerScalars| && p.upperOffsets[|p.points|] == |p.upperScalars|
  }

  method AllScalars(scalars: seq<int>, start: nat, end: nat) returns (all: bool)
    requires start <= end <= |scalars|
    ensures all <==> forall j | start <= j < end :: IsScalar(scalars[j])
  {
    for j := start to end
      invariant forall i | start <= i < j :: IsScalar(scalars[i])
    {
      if !IsScalar(scalars[j]) { return false; }
    }
    return true;
  }

  /// Accepts exactly the valid tables. The exhaustive search for keys never disagrees.
  method ValidatePackedMapping(p: Packed) returns (ok: bool)
    ensures ok <==> ValidTable(p)
  {
    if |p.lowerOffsets| != |p.points| + 1 || |p.upperOffsets| != |p.points| + 1 { return false; }
    var previous: int := -1;
    for k := 0 to |p.points|
      invariant previous == if k == 0 then -1 else p.points[k - 1]
      invariant Increasing(p.points[..k])
      invariant forall i | 0 <= i < k ::
                  && IsScalar(p.points[i])
                  && ValidSlice(p.lowerOffsets, p.lowerScalars, i) && ValidSlice(p.upperOffsets, p.upperScalars, i)
    {
      if !IsScalar(p.points[k]) || p.points[k] <= previous { return false; }
      previous := p.points[k];
      var lower := ValidateSlice(p.lowerOffsets, p.lowerScalars, k);
      if !lower { return false; }
      var upper := ValidateSlice(p.upperOffsets, p.upperScalars, k);
      if !upper { return false; }
    }
    assert p.points[..|p.points|] == p.points;
    if p.lowerOffsets[|p.points|] != |p.lowerScalars| || p.upperOffsets[|p.points|] != |p.upperScalars| { return false; }
    var found := CountKeys(p.points);
    KeysAreCounted(p.points);
    return found == |p.points|;
  }

  method ValidateSlice(offsets: seq<nat>, scalars: seq<int>, i: nat) returns (ok: bool)
    requires i + 1 < |offsets|
    ensures ok <==> ValidSlice(offsets, scalars, i)
  {
    if offsets[i] >= offsets[i + 1] || offsets[i + 1] > |scalars| { return false; }
    ok := AllScalars(scalars, offsets[i], offsets[i + 1]);
  }

  function KeysBelow(points: seq<nat>, limit: nat): set<int> {
    set v | 0 <= v < limit && IsScalar(v) && v in points
  }

  method CountKeys(points: seq<nat>) returns (found: nat)
    requires Increasing(points)
    ensures found == |KeysBelow(points, MAX_SCALAR + 1)|
  {
    found := 0;
    for value := 0 to MAX_SCALAR + 1
      invariant found == |KeysBelow(points, value)|
    {
      var low := FindKey(points, value);
      NextKey(points, value);
      if !(SURROGATE_START <= value <= SURROGATE_END) && low < |points| && points[low] == value { found := found + 1; }
    }
  }

  lemma NextKey(points: seq<nat>, value: nat)
    ensures |KeysBelow(points, value + 1)| == |KeysBelow(points, value)| + if IsScalar(value) && value in points then 1 else 0
  {
    var next := if IsScalar(value) && value in points then {value} else {};
    assert KeysBelow(points, value + 1) == KeysBelow(points, value) + next;
  }

  lemma {:induction false} KeysAreCounted(points: seq<nat>)
    requires Increasing(points) && forall i | 0 <= i < |points| :: IsScalar(points[i])
    ensures |KeysBelow(points, MAX_SCALAR + 1)| == |points|
  {
    if points == [] {
      assert KeysBelow(points, MAX_SCALAR + 1) == {};
    } else {
      var before, last := points[..|points| - 1], points[|points| - 1];
      KeysAreCounted(before);
      assert points == before + [last];
      assert KeysBelow(points, MAX_SCALAR + 1) == KeysBelow(before, MAX_SCALAR + 1) + {last};
      assert last !in before;
    }
  }

  /// Packing records of scalars under increasing scalar keys gives a valid table.
  lemma PackedTablesAreValid(p: Packed, records: seq<Record>)
    requires PacksRecords(p, records) && Increasing(Points(records))
    requires forall i | 0 <= i < |records| ::
               && IsScalar(records[i].point) && records[i].lower != [] && records[i].upper != []
               && (forall v | v in records[i].lower :: IsScalar(v)) && (forall v | v in records[i].upper :: IsScalar(v))
    ensures ValidTable(p)
  {
    forall i | 0 <= i < |records|
      ensures IsScalar(p.points[i]) && ValidSlice(p.lowerOffsets, p.lowerScalars, i)
      ensures ValidSlice(p.upperOffsets, p.upperScalars, i)
    {
      assert p.points[i] == records[i].point;
      PackedSliceIsValid(p.lowerOffsets, p.lowerScalars, Lowers(records), i);
      PackedSliceIsValid(p.upperOffsets, p.upperScalars, Uppers(records), i);
    }
  }

  lemma PackedSliceIsValid(offsets: seq<nat>, scalars: seq<int>, sequences: seq<Sequence>, i: nat)
    requires PackedAs(offsets, scalars, sequences, |sequences|) && i < |sequences|
    requires sequences[i] != [] && forall v | v in sequences[i] :: IsScalar(v)
    ensures ValidSlice(offsets, scalars, i)
  {
    SlicesAreSequences(offsets, scalars, sequences, i);
    forall j | offsets[i] <= j < offsets[i + 1] ensures IsScalar(scalars[j]) {
      assert scalars[j] == scalars[offsets[i]..offsets[i + 1]][j - offsets[i]];
      assert scalars[j] in sequences[i];
    }
  }

  // ---------------------------------------------------------------- the character database

  /// One line: an ordinary character, or one end of a range of characters.
  datatype Role = Single | FirstOfRange | LastOfRange
  datatype Line = Line(point: nat, role: Role, category: nat, lower: Option<nat>, upper: Option<nat>)

  const DECIMAL: nat := 0

  function Simple(line: Line): Mapping {
    Mapping(if line.lower.Some? then [line.lower.value] else [line.point],
            if line.upper.Some? then [line.upper.value] else [line.point])
  }

  /// Strictly ordered lines in which every range is opened and closed by neighbours of one category.
  predicate WellFormedLines(lines: seq<Line>) {
    && (forall i, j | 0 <= i < j < |lines| :: lines[i].point < lines[j].point)
    && (forall i | 0 <= i < |lines| && lines[i].role.FirstOfRange? ::
          i + 1 < |lines| && lines[i + 1].role.LastOfRange? && lines[i + 1].category == lines[i].category)
    && (forall i | 0 <= i < |lines| && lines[i].role.LastOfRange? :: i > 0 && lines[i - 1].role.FirstOfRange?)
  }

  /// A scalar is a decimal digit when a line or a closed range of the category covers it.
  predicate DecimalDigit(lines: seq<Line>, v: int) {
    exists i | 0 <= i < |lines| :: DecimalAt(lines, i, v)
  }

  predicate DecimalAt(lines: seq<Line>, i: nat, v: int)
    requires i < |lines|
  {
    && lines[i].category == DECIMAL
    && match lines[i].role
       case Single => v == lines[i].point
       case FirstOfRange => false
       case LastOfRange => i > 0 && lines[i - 1].point <= v <= lines[i].point
  }

  datatype Database = Database(decimalRanges: seq<Range>, simple: map<nat, Mapping>)

  method ParseUnicodeData(lines: seq<Line>) returns (r: Option<Database>)
    ensures r.Some? <==> WellFormedLines(lines)
    ensures r.Some? ==>
              && Ascending(r.value.decimalRanges)
              && (forall v :: Member(r.value.decimalRanges, v) <==> DecimalDigit(lines, v))
              && Recorded(lines, r.value.simple)
  {
    hide *;
    var state := Parser([], map[], None);
    var previous: int := -1;
    ParserStarts(lines);
    for k := 0 to |lines|
      invariant previous == if k == 0 then -1 else lines[k - 1].point
      invariant Parsed(lines, k, state)
    {
      if lines[k].point <= previous { UnorderedLines(lines, k); return None; }
      previous := lines[k].point;
      var next := TakeLine(lines, k, state);
      if next.None? { return None; }
      state := next.value;
    }
    ParserEnds(lines, state);
    if state.open.Some? { return None; }
    return Some(Database(state.ranges, state.simple));
  }

  lemma ParserStarts(lines: seq<Line>)
    ensures Parsed(lines, 0, Parser([], map[], None))
  {
  }

  lemma UnorderedLines(lines: seq<Line>, k: nat)
    requires 0 < k < |lines| && lines[k].point <= lines[k - 1].point
    ensures !WellFormedLines(lines)
  {
  }

  lemma ParserEnds(lines: seq<Line>, s: Parser)
    requires Parsed(lines, |lines|, s)
    ensures s.open.None? <==> WellFormedLines(lines)
    ensures Ascending(s.ranges) && (forall v :: Member(s.ranges, v) <==> DecimalDigit(lines, v)) && Recorded(lines, s.simple)
  {
    assert lines[..|lines|] == lines;
    hide Member, DecimalDigit, Recorded;
  }

  datatype Parser = Parser(ranges: seq<Range>, simple: map<nat, Mapping>, open: Option<Line>)

  ghost predicate Parsed(lines: seq<Line>, k: nat, s: Parser)
    requires k <= |lines|
  {
    && Progress(lines, k, s.open) && Ascending(s.ranges)
    && (forall v :: Member(s.ranges, v) <==> DecimalDigit(lines[..k], v))
    && Recorded(lines[..k], s.simple)
  }

  /// One ordered line: it opens a range, closes the open one, or stands alone.
  method TakeLine(lines: seq<Line>, k: nat, s: Parser) returns (r: Option<Parser>)
    requires k < |lines| && Parsed(lines, k, s) && (k > 0 ==> lines[k - 1].point < lines[k].point)
    ensures r.Some? ==> Parsed(lines, k + 1, r.value)
    ensures r.None? ==> !WellFormedLines(lines)
  {
    var line, ranges, simple, open := lines[k], s.ranges, s.simple, s.open;
    PointsIncrease(lines, k);
    OpenTells(lines, k, open);
    ProgressGrows(lines, k, open);
    hide Progress, Member, DecimalDigit, Recorded, WellFormedLines;
    match line.role {
      case FirstOfRange =>
        if open.Some? { return None; }
        open := Some(line);
      case LastOfRange =>
        if open.None? || open.value.category != line.category { return None; }
        if line.category == DECIMAL { ranges := ranges + [Range(open.value.point, line.point)]; }
        open := None;
      case Single =>
        if open.Some? { return None; }
        if line.category == DECIMAL { ranges := ranges + [Range(line.point, line.point)]; }
        if Simple(line) != Identity(line.point) { simple := simple[line.point := Simple(line)]; }
    }
    assert ranges == s.ranges + DecimalRange(lines, k);
    LineAddsDigits(lines, k, s.ranges, ranges);
    LineIsRecorded(lines, k, s.simple, simple);
    return Some(Parser(ranges, simple, open));
  }

  predicate Fitting(line: Line, open: Option<Line>) {
    if line.role.LastOfRange? then open.Some? && open.value.category == line.category else open.None?
  }

  lemma ProgressGrows(lines: seq<Line>, k: nat, open: Option<Line>)
    requires k < |lines| && Progress(lines, k, open) && (k > 0 ==> lines[k - 1].point < lines[k].point)
    ensures Fitting(lines[k], open) ==>
              && Progress(lines, k + 1, if lines[k].role.FirstOfRange? then Some(lines[k]) else None)
              && (lines[k].role.LastOfRange? ==> k > 0 && open == Some(lines[k - 1]))
  {
    PointsIncrease(lines, k);
    hide InOrder;
  }

  lemma OpenTells(lines: seq<Line>, k: nat, open: Option<Line>)
    requires k < |lines| && Progress(lines, k, open)
    ensures WellFormedLines(lines) ==> Fitting(lines[k], open)
  {
  }

  /// What the checks so far establish, with the range that is open.
  predicate Progress(lines: seq<Line>, k: nat, open: Option<Line>)
    requires k <= |lines|
  {
    && InOrder(lines, k)
    && (forall i | 0 <= i < k - 1 && lines[i].role.FirstOfRange? ::
          lines[i + 1].role.LastOfRange? && lines[i + 1].category == lines[i].category)
    && (forall i | 0 <= i < k && lines[i].role.LastOfRange? :: i > 0 && lines[i - 1].role.FirstOfRange?)
    && open == if k > 0 && lines[k - 1].role.FirstOfRange? then Some(lines[k - 1]) else None
  }

  /// Every ordinary line has its simple casing, and nothing else has any.
  ghost predicate Recorded(lines: seq<Line>, simple: map<nat, Mapping>) {
    && (forall i | 0 <= i < |lines| && lines[i].role.Single? :: Effective(simple, map[], lines[i].point) == Simple(lines[i]))
    && (forall p | p in simple :: exists i | 0 <= i < |lines| :: lines[i].role.Single? && lines[i].point == p)
  }

  /// MAIN RESULT. A scalar that has a line of its own is cased by that line's fields, and by itself where
  /// a field is empty, unless its casing is special. Special casing decides both fields.
  lemma LineDecidesCasing(lines: seq<Line>, simple: map<nat, Mapping>, unconditional: map<nat, Mapping>, i: nat)
    requires i < |lines| && lines[i].role.Single? && Recorded(lines, simple)
    ensures var line := lines[i];
            var m := Effective(simple, unconditional, line.point);
            if line.point in unconditional then m == unconditional[line.point]
            else
              && (line.lower.Some? ==> m.lower == [line.lower.value]) && (line.lower.None? ==> m.lower == [line.point])
              && (line.upper.Some? ==> m.upper == [line.upper.value]) && (line.upper.None? ==> m.upper == [line.point])
  {
    assert Effective(simple, map[], lines[i].point) == Simple(lines[i]);
  }

  /// A scalar without a line of its own is cased by itself.
  lemma NoLineNoCasing(lines: seq<Line>, simple: map<nat, Mapping>, point: nat)
    requires Recorded(lines, simple) && forall i | 0 <= i < |lines| && lines[i].role.Single? :: lines[i].point != point
    ensures Effective(simple, map[], point).lower == Effective(simple, map[], point).upper == [point]
  {
  }

  predicate InOrder(lines: seq<Line>, k: nat)
    requires k <= |lines|
  {
    forall i, j | 0 <= i < j < k :: lines[i].point < lines[j].point
  }

  lemma PointsIncrease(lines: seq<Line>, k: nat)
    requires k < |lines| && InOrder(lines, k) && (k > 0 ==> lines[k - 1].point < lines[k].point)
    ensures InOrder(lines, k + 1)
  {
  }

  /// The decimal range that ends at a line.
  function DecimalRange(lines: seq<Line>, k: nat): seq<Range>
    requires k < |lines| && (lines[k].role.LastOfRange? ==> k > 0)
  {
    if lines[k].category != DECIMAL || lines[k].role.FirstOfRange? then []
    else if lines[k].role.Single? then [Range(lines[k].point, lines[k].point)]
    else [Range(lines[k - 1].point, lines[k].point)]
  }

  lemma LineAddsDigits(lines: seq<Line>, k: nat, before: seq<Range>, after: seq<Range>)
    requires k < |lines| && (lines[k].role.LastOfRange? ==> k > 0)
    requires after == before + DecimalRange(lines, k)
    requires forall v :: Member(before, v) <==> DecimalDigit(lines[..k], v)
    ensures forall v :: Member(after, v) <==> DecimalDigit(lines[..k + 1], v)
  {
    forall v ensures Member(after, v) <==> DecimalDigit(lines[..k + 1], v) {
      DigitsGrow(lines, k, v);
      var own := DecimalRange(lines, k);
      if own != [] {
        assert own == [own[0]];
        MemberAppends(before, own[0], v);
        assert Within(own[0], v) <==> DecimalAt(lines, k, v);
      } else {
        assert after == before && !DecimalAt(lines, k, v);
      }
    }
  }

  lemma DigitsGrow(lines: seq<Line>, k: nat, v: int)
    requires k < |lines|
    ensures DecimalDigit(lines[..k + 1], v) <==> DecimalDigit(lines[..k], v) || DecimalAt(lines, k, v)
  {
    var x, y := lines[..k], lines[..k + 1];
    forall i | 0 <= i < k ensures DecimalAt(x, i, v) == DecimalAt(y, i, v) {
    }
    assert DecimalAt(y, k, v) == DecimalAt(lines, k, v);
    if DecimalDigit(x, v) {
      var i :| 0 <= i < |x| && DecimalAt(x, i, v);
      assert DecimalAt(y, i, v);
    }
    if DecimalDigit(y, v) {
      var i :| 0 <= i < |y| && DecimalAt(y, i, v);
      assert i < k ==> DecimalAt(x, i, v);
    }
  }

  lemma LineIsRecorded(lines: seq<Line>, k: nat, before: map<nat, Mapping>, after: map<nat, Mapping>)
    requires k < |lines| && Recorded(lines[..k], before)
    requires forall i | 0 <= i < k :: lines[i].point < lines[k].point
    requires after == if lines[k].role.Single? && Simple(lines[k]) != Identity(lines[k].point)
                      then before[lines[k].point := Simple(lines[k])] else before
    ensures Recorded(lines[..k + 1], after)
  {
    var x, y := lines[..k], lines[..k + 1];
    forall i | 0 <= i < |y| && y[i].role.Single? ensures Effective(after, map[], y[i].point) == Simple(y[i]) {
      if i < k { assert x[i] == y[i]; }
    }
    forall p | p in after ensures exists i | 0 <= i < |y| :: y[i].role.Single? && y[i].point == p {
      if p in before {
        var i :| 0 <= i < |x| && x[i].role.Single? && x[i].point == p;
        assert y[i] == x[i];
      } else {
        assert y[k].role.Single? && y[k].point == p;
      }
    }
  }
}
