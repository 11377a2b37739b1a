/**
 Sequential placement of objects, and the heap frame of a deferred function that it lays out.
 */
module ObjectLayout {
  import opened Results
  import opened ByteRanges
  import opened Arithmetic

  const MAXIMUM_ALIGNMENT: nat := 16
  const FIXED_HEADER_SIZE: nat := 40

  datatype Range = Range(offset: nat, size: nat, alignment: nat) {
    function End(): nat { offset + size }
  }

  datatype LayoutError =
    | InvalidAlignment(alignment: nat)
    | SizeOverflow
    | UnknownField(field: Field)
    | NonStoredValue(field: Field)
    | StateTagExhausted

  predicate PowerOfTwo(n: nat) {
    n == 1 || (n > 0 && n % 2 == 0 && PowerOfTwo(n / 2))
  }

  predicate ValidAlignment(alignment: nat, maximum: nat) {
    PowerOfTwo(alignment) && alignment <= maximum
  }

  /// Rounding up to a power of two, which the source does by clearing the low bits.
  function RoundUp(value: nat, alignment: nat): (r: nat)
    requires alignment > 0
    ensures value <= r < value + alignment && r % alignment == 0
  {
    RoundedIsAligned(value + (alignment - 1), alignment);
    value + (alignment - 1) - (value + (alignment - 1)) % alignment
  }

  function AlignUp(value: nat, alignment: nat): Result<nat, LayoutError>
    requires alignment > 0
  {
    if value + (alignment - 1) >= U64_LIMIT then Err(SizeOverflow) else Ok(RoundUp(value, alignment))
  }

  lemma RoundedIsAligned(value: nat, alignment: nat)
    requires alignment > 0
    ensures 0 <= value % alignment < alignment && (value - value % alignment) % alignment == 0
  {
    QuotientAndRemainder(value, alignment);
    MultipleHasNoRemainder(value / alignment, alignment);
  }

  lemma {:induction false} PowersOfTwoDivide(a: nat, b: nat)
    requires PowerOfTwo(a) && PowerOfTwo(b) && a <= b
    ensures b % a == 0
  {
    if a > 1 {
      PowersOfTwoDivide(a / 2, b / 2);
      QuotientAndRemainder(b / 2, a / 2);
      var q := b / 2 / (a / 2);
      assert b == a * q by { assert b == 2 * (a / 2 * q) == 2 * (a / 2) * q; }
      MultipleHasNoRemainder(q, a);
    }
  }

  predicate Apart(x: Range, y: Range) {
    x.End() <= y.offset || y.End() <= x.offset
  }

  // ---------------------------------------------------------------- what a sequence needs

  /// An object to place.
  datatype Need = Need(size: nat, alignment: nat)

  predicate AllAligned(needs: seq<Need>, maximum: nat) {
    forall i | 0 <= i < |needs| :: ValidAlignment(needs[i].alignment, maximum)
  }

  /// Where the last object ends when each takes the next offset that suits it.
  function Reach(start: nat, needs: seq<Need>): (r: nat)
    ensures r >= start
  {
    if needs == [] then start
    else
      var last := needs[|needs| - 1];
      RoundUp(Reach(start, needs[..|needs| - 1]), if last.alignment > 0 then last.alignment else 1) + last.size
  }

  /// The largest alignment.
  function Strictest(minimum: nat, needs: seq<Need>): (r: nat)
    ensures r >= minimum && forall i | 0 <= i < |needs| :: needs[i].alignment <= r
    ensures r == minimum || exists i | 0 <= i < |needs| :: needs[i].alignment == r
  {
    if needs == [] then minimum
    else
      var last, before := needs[|needs| - 1], Strictest(minimum, needs[..|needs| - 1]);
      assert forall i | 0 <= i < |needs| - 1 :: needs[..|needs| - 1][i] == needs[i];
      if before < last.alignment then last.alignment else before
  }

  lemma {:induction false} StrictestIsPower(minimum: nat, needs: seq<Need>, maximum: nat)
    requires PowerOfTwo(minimum) && minimum <= maximum && AllAligned(needs, maximum)
    ensures PowerOfTwo(Strictest(minimum, needs)) && Strictest(minimum, needs) <= maximum
  {
    if needs != [] {
      assert forall i | 0 <= i < |needs| - 1 :: needs[..|needs| - 1][i] == needs[i];
      StrictestIsPower(minimum, needs[..|needs| - 1], maximum);
    }
  }

  lemma {:induction false} ReachGrows(start: nat, needs: seq<Need>, k: nat)
    requires k <= |needs|
    ensures Reach(start, needs[..k]) <= Reach(start, needs)
    decreases |needs| - k
  {
    if k == |needs| {
      assert needs[..k] == needs;
    } else {
      assert needs[..k + 1][..k] == needs[..k];
      ReachGrows(start, needs, k + 1);
    }
  }

  function Larger(a: nat, b: nat): nat {
    if a < b then b else a
  }

  function NeedsOf(ranges: seq<Range>): (r: seq<Need>)
    ensures |r| == |ranges| && forall i | 0 <= i < |r| :: r[i] == Need(ranges[i].size, ranges[i].alignment)
  {
    seq(|ranges|, i requires 0 <= i < |ranges| => Need(ranges[i].size, ranges[i].alignment))
  }

  lemma {:induction false} PowersMultiply(a: nat, b: nat)
    requires PowerOfTwo(a) && PowerOfTwo(b)
    ensures PowerOfTwo(a * b)
  {
    if a > 1 {
      PowersMultiply(a / 2, b);
      assert a * b == 2 * (a / 2 * b) by { assert a == 2 * (a / 2); }
    }
  }

  lemma PowersUpToSixteen()
    ensures PowerOfTwo(1) && PowerOfTwo(8) && PowerOfTwo(16)
  {
    assert PowerOfTwo(2) && PowerOfTwo(4);
  }

  lemma WordLimitIsPower()
    ensures PowerOfTwo(U64_LIMIT)
  {
    PowersUpToSixteen();
    PowersMultiply(16, 16);
    PowersMultiply(256, 256);
    PowersMultiply(65536, 65536);
    PowersMultiply(0x1_0000_0000, 0x1_0000_0000);
  }

  /// The check before rounding up refuses nothing that would fit.
  lemma RoundingOverflows(value: nat, alignment: nat)
    requires PowerOfTwo(alignment) && alignment <= U64_LIMIT && value + (alignment - 1) >= U64_LIMIT
    ensures RoundUp(value, alignment) >= U64_LIMIT
  {
    WordLimitIsPower();
    PowersOfTwoDivide(alignment, U64_LIMIT);
    RoundsPast(value, alignment, U64_LIMIT);
  }

  lemma RoundsPast(value: nat, alignment: nat, limit: nat)
    requires alignment > 0 && limit % alignment == 0 && value + (alignment - 1) >= limit
    ensures RoundUp(value, alignment) >= limit
  {
    var v := value + (alignment - 1);
    QuotientAndRemainder(v, alignment);
    QuotientAndRemainder(limit, alignment);
    var p, q := v / alignment, limit / alignment;
    assert alignment * (p + 1) == alignment * p + alignment;
    if p < q {
      ProductIsMonotone(p + 1, q, alignment);
    } else {
      ProductIsMonotone(q, p, alignment);
    }
  }

  lemma OneMoreNeed(start: nat, minimum: nat, before: seq<Range>, range: Range)
    requires range.alignment > 0
    ensures Reach(start, NeedsOf(before + [range])) == RoundUp(Reach(start, NeedsOf(before)), range.alignment) + range.size
    ensures Strictest(minimum, NeedsOf(before + [range])) == Larger(Strictest(minimum, NeedsOf(before)), range.alignment)
  {
    hide RoundUp;
    assert NeedsOf(before + [range])[..|before|] == NeedsOf(before);
  }

  lemma OneIsPower()
    ensures PowerOfTwo(1) && forall n: nat | PowerOfTwo(n) :: n > 0
  {
  }

  // ---------------------------------------------------------------- the sequence

  class ObjectSequence {
    const start: nat
    const minimum: nat
    const maximum: nat
    var next: nat
    var alignment: nat
    /// Everything placed so far, in order.
    ghost var placed: seq<Range>

    /// The placed ranges lie behind one another, each at a multiple of its own alignment.
    ghost predicate Valid()
      reads this
    {
      && start <= next < U64_LIMIT && PowerOfTwo(alignment) && alignment <= maximum < U64_LIMIT
      && next == Reach(start, NeedsOf(placed)) && alignment == Strictest(minimum, NeedsOf(placed))
      && (forall i | 0 <= i < |placed| ::
            && start <= placed[i].offset && placed[i].End() <= next
            && PowerOfTwo(placed[i].alignment) && placed[i].alignment <= alignment
            && placed[i].offset % placed[i].alignment == 0)
      && (forall i, j | 0 <= i < j < |placed| :: placed[i].End() <= placed[j].offset)
    }

    constructor (start: nat, minimum: nat, maximum: nat)
      requires start < U64_LIMIT && PowerOfTwo(minimum) && minimum <= maximum < U64_LIMIT
      ensures Valid() && placed == [] && next == this.start == start && alignment == minimum
      ensures this.minimum == minimum && this.maximum == maximum
    {
      this.start, this.minimum, this.maximum, next, alignment, placed := start, minimum, maximum, start, minimum, [];
    }

    method Add(size: nat, alignment: nat) returns (r: Result<Range, LayoutError>)
      requires Valid()
      modifies this
      ensures Valid()
      ensures r.Ok? ==>
                && ValidAlignment(alignment, maximum)
                && r.value.size == size && r.value.alignment == alignment
                && r.value.offset % alignment == 0
                && r.value.offset == RoundUp(old(next), alignment) && next == r.value.End()
                && placed == old(placed) + [r.value] && this.alignment >= alignment
      ensures r == Err(InvalidAlignment(alignment)) <==> !ValidAlignment(alignment, maximum)
      ensures r == Err(SizeOverflow) <==>
              && ValidAlignment(alignment, maximum)
              && RoundUp(old(next), alignment) + size >= U64_LIMIT
      ensures r.Err? ==> unchanged(this) && (r.error == InvalidAlignment(alignment) || r.error == SizeOverflow)
    {
      hide Reach, Strictest, RoundUp, PowerOfTwo, NeedsOf;
      if !ValidAlignment(alignment, maximum) { return Err(InvalidAlignment(alignment)); }
      OneIsPower();
      var offset := AlignUp(next, alignment);
      if offset.Err? {
        RoundingOverflows(next, alignment);
        return Err(SizeOverflow);
      }
      if offset.value + size >= U64_LIMIT { return Err(SizeOverflow); }
      next := offset.value + size;
      this.alignment := if this.alignment < alignment then alignment else this.alignment;
      r := Ok(Range(offset.value, size, alignment));
      OneMoreNeed(start, minimum, placed, r.value);
      placed := placed + [r.value];
    }

    /// The size of the whole sequence, and the alignment that its base address needs.
    method Finish(finalAlignment: nat) returns (r: Result<(nat, nat), LayoutError>)
      requires Valid()
      ensures r.Ok? ==> next <= r.value.0 < U64_LIMIT && r.value.1 == alignment && r.value.0 % alignment == 0
      ensures r.Ok? <==> ValidAlignment(finalAlignment, maximum) && RoundUp(next, Larger(finalAlignment, alignment)) < U64_LIMIT
      ensures r.Ok? ==> r.value.0 == RoundUp(next, Larger(finalAlignment, alignment))
      ensures r.Err? ==> r.error == SizeOverflow || r.error == InvalidAlignment(finalAlignment)
    {
      if !ValidAlignment(finalAlignment, maximum) { return Err(InvalidAlignment(finalAlignment)); }
      var final := if finalAlignment < alignment then alignment else finalAlignment;
      var size := AlignUp(next, final);
      if size.Err? {
        RoundingOverflows(next, final);
        return Err(SizeOverflow);
      }
      PowersOfTwoDivide(alignment, final);
      MultipleOfMultiple(size.value, final, alignment);
      if size.value >= U64_LIMIT { return Err(SizeOverflow); }
      return Ok((size.value, alignment));
    }

    /// An object keeps its alignment at every base address that the whole sequence may have.
    lemma ObjectsAreAligned(base: nat, i: nat)
      requires Valid() && i < |placed| && base % alignment == 0
      ensures (base + placed[i].offset) % placed[i].alignment == 0
    {
      var a := placed[i].alignment;
      PowersOfTwoDivide(a, alignment);
      MultipleOfMultiple(base, alignment, a);
      SumOfMultiples(base, placed[i].offset, a);
    }
  }

  // ---------------------------------------------------------------- deferred function frames

  /// One resource that survives a suspension.
  datatype Field = Pack | Stack(id: nat) | Value(id: nat) | DropFlag(id: nat)

  datatype Shape = Stored(size: nat, alignment: nat) | NonStored

  datatype FrameLayout = FrameLayout(
    size: nat, alignment: nat,
    processContext: Option<Range>, output: Option<Range>, fields: map<Field, Range>)

  /// Every surviving resource, the output and the process context have a range of their own behind
  /// the fixed header.
  ghost predicate ValidFrame(l: FrameLayout) {
    && l.size < U64_LIMIT
    && (forall f | f in l.fields :: FIXED_HEADER_SIZE <= l.fields[f].offset && l.fields[f].End() <= l.size)
    && (l.output.Some? ==> FIXED_HEADER_SIZE <= l.output.value.offset && l.output.value.End() <= l.size)
    && (l.processContext.Some? ==> FIXED_HEADER_SIZE <= l.processContext.value.offset && l.processContext.value.End() <= l.size)
    && (forall f, g | f in l.fields && g in l.fields && f != g :: Apart(l.fields[f], l.fields[g]))
    && (forall f | f in l.fields && l.output.Some? :: Apart(l.fields[f], l.output.value))
    && (forall f | f in l.fields && l.processContext.Some? :: Apart(l.fields[f], l.processContext.value))
    && (l.output.Some? && l.processContext.Some? ==> Apart(l.output.value, l.processContext.value))
    && FIXED_HEADER_SIZE <= l.size
  }

  /// What a field needs.
  function FieldNeed(f: Field, shapes: map<Field, Shape>): Need {
    if f.Pack? then Need(WORD_SIZE, WORD_SIZE)
    else if f.DropFlag? || f !in shapes || shapes[f].NonStored? then Need(1, 1)
    else Need(shapes[f].size, shapes[f].alignment)
  }

  function FieldNeeds(fields: seq<Field>, shapes: map<Field, Shape>): seq<Need> {
    if fields == [] then []
    else
      var last := fields[|fields| - 1];
      FieldNeeds(fields[..|fields| - 1], shapes) + if last.Pack? then [] else [FieldNeed(last, shapes)]
  }

  function Part(wanted: bool, size: nat, alignment: nat): seq<Need> {
    if wanted then [Need(size, alignment)] else []
  }

  function OutputPart(output: Option<Shape>): seq<Need> {
    if output.Some? && output.value.Stored? then [Need(output.value.size, output.value.alignment)] else []
  }

  /// The process context, the pack input and the output come before the other fields.
  function HeaderNeeds(process: bool, pack: bool, output: Option<Shape>): seq<Need> {
    Part(process, WORD_SIZE, WORD_SIZE) + Part(pack, WORD_SIZE, WORD_SIZE) + OutputPart(output)
  }

  function FrameNeeds(process: bool, output: Option<Shape>, fields: seq<Field>, shapes: map<Field, Shape>): seq<Need> {
    HeaderNeeds(process, Pack in fields, output) + FieldNeeds(fields, shapes)
  }

  /// What a field's range must hold.
  predicate Fits(f: Field, range: Range, shapes: map<Field, Shape>) {
    match f
    case Pack => range.size == range.alignment == WORD_SIZE
    case DropFlag(_) => f in shapes && range.size == range.alignment == 1
    case _ => f in shapes && shapes[f].Stored? && range.size == shapes[f].size && range.alignment == shapes[f].alignment
  }

  /// A field that can be placed.
  predicate Placeable(f: Field, shapes: map<Field, Shape>) {
    f.Pack? || (f in shapes && (f.DropFlag? || shapes[f].Stored?))
  }

  predicate AllPlaceable(fields: seq<Field>, shapes: map<Field, Shape>) {
    forall f | f in fields :: Placeable(f, shapes)
  }

  /// The offset suits the range's alignment, and so does a frame with this alignment.
  predicate AlignedIn(l: FrameLayout, range: Range) {
    range.alignment > 0 && range.offset % range.alignment == 0 && l.alignment % range.alignment == 0
  }

  /// Every range is aligned, wherever a frame with this alignment starts.
  ghost predicate AlignedFrame(l: FrameLayout) {
    && PowerOfTwo(l.alignment) && WORD_SIZE <= l.alignment <= MAXIMUM_ALIGNMENT && l.size % l.alignment == 0
    && (forall f | f in l.fields :: AlignedIn(l, l.fields[f]))
    && (l.output.Some? ==> AlignedIn(l, l.output.value))
    && (l.processContext.Some? ==> AlignedIn(l, l.processContext.value))
  }

  /// Places the process context, a retained pack, the output and then the other fields, each once, at
  /// the next offset that suits its alignment. This succeeds exactly when every field is known, every
  /// alignment is one of the supported powers of two, and the frame fits the address space.
  method BuildFrame(process: bool, output: Option<Shape>, fields: seq<Field>, shapes: map<Field, Shape>)
    returns (r: Result<FrameLayout, LayoutError>)
    requires forall i, j | 0 <= i < j < |fields| :: fields[i] != fields[j]
    ensures r.Ok? <==>
            var needs := FrameNeeds(process, output, fields, shapes);
            && AllPlaceable(fields, shapes) && AllAligned(needs, MAXIMUM_ALIGNMENT)
            && RoundUp(Reach(FIXED_HEADER_SIZE, needs), Strictest(WORD_SIZE, needs)) < U64_LIMIT
    ensures r.Ok? ==>
              && ValidFrame(r.value) && AlignedFrame(r.value)
              && (forall f :: f in r.value.fields <==> f in fields)
              && (forall f | f in fields :: Fits(f, r.value.fields[f], shapes))
              && r.value.processContext.Some? == process && (process ==> r.value.processContext.value.size == r.value.processContext.value.alignment == WORD_SIZE)
              && (r.value.output.Some? <==> output.Some? && output.value.Stored?)
              && (r.value.output.Some? ==>
                    r.value.output.value.size == output.value.size && r.value.output.value.alignment == output.value.alignment)
    ensures r.Ok? ==>
              var needs := FrameNeeds(process, output, fields, shapes);
              && r.value.alignment == Strictest(WORD_SIZE, needs)
              && r.value.size == RoundUp(Reach(FIXED_HEADER_SIZE, needs), r.value.alignment)
    ensures r.Err? && r.error.UnknownField? ==> r.error.field in fields && r.error.field !in shapes
    ensures r.Err? && r.error.NonStoredValue? ==>
              r.error.field in fields && r.error.field in shapes && shapes[r.error.field].NonStored?
  {
    hide Reach, Strictest, HeaderNeeds, FieldNeeds, FieldNeed, AllAligned, RoundUp, NeedsOf, AllPlaceable, PowerOfTwo, Placing, Fits, ValidFrame,
         AlignedFrame, HeaderIsPlaced;
    PowersUpToSixteen();
    ghost var needs := FrameNeeds(process, output, fields, shapes);
    NothingNeeded();
    PartsOfNeeds(HeaderNeeds(process, Pack in fields, output), FieldNeeds(fields, shapes));
    FrameReaches(needs);
    var sequence := new ObjectSequence(FIXED_HEADER_SIZE, WORD_SIZE, MAXIMUM_ALIGNMENT);
    var header := PlaceHeader(sequence, process, Pack in fields, output);
    if header.Err? { return Err(header.error); }
    var placed := PlaceFields(sequence, fields, shapes, header.value);
    if placed.Err? { return Err(placed.error); }
    var finished := sequence.Finish(WORD_SIZE);
    if finished.Err? { return Err(finished.error); }
    var (context, _, result) := header.value;
    r := Ok(FrameLayout(finished.value.0, finished.value.1, context, result, placed.value));
    AllRangesArePlaced(header.value, sequence.placed);
    FrameIsAligned(sequence, r.value);
    PlacedFrameIsValid(r.value, sequence.next);
  }

  lemma AllRangesArePlaced(header: Header, placed: seq<Range>)
    requires HeaderIsPlaced(header, placed)
    ensures (header.0.Some? ==> header.0.value in placed) && (header.2.Some? ==> header.2.value in placed)
  {
  }

  lemma PlacedFrameIsValid(l: FrameLayout, next: nat)
    requires Placing(l.fields, l.processContext, l.output, next) && next <= l.size < U64_LIMIT
    ensures ValidFrame(l)
  {
  }

  lemma NothingNeeded()
    ensures NeedsOf([]) == [] && Reach(FIXED_HEADER_SIZE, []) == FIXED_HEADER_SIZE
    ensures forall needs: seq<Need> :: AllAligned(needs[..0], MAXIMUM_ALIGNMENT)
  {
  }

  lemma PartsOfNeeds(first: seq<Need>, rest: seq<Need>)
    ensures AllAligned(first + rest, MAXIMUM_ALIGNMENT) <==> AllAligned(first, MAXIMUM_ALIGNMENT) && AllAligned(rest, MAXIMUM_ALIGNMENT)
    ensures Reach(FIXED_HEADER_SIZE, first) <= Reach(FIXED_HEADER_SIZE, first + rest)
  {
    assert (first + rest)[..|first|] == first;
    ReachGrows(FIXED_HEADER_SIZE, first + rest, |first|);
    assert forall i | 0 <= i < |first| :: (first + rest)[i] == first[i];
    assert forall i | 0 <= i < |rest| :: (first + rest)[|first| + i] == rest[i];
    hide Reach, ValidAlignment;
  }

  lemma FrameReaches(needs: seq<Need>)
    ensures Reach(FIXED_HEADER_SIZE, needs) <= RoundUp(Reach(FIXED_HEADER_SIZE, needs), Strictest(WORD_SIZE, needs))
  {
  }

  /// Objects of a sequence suit a frame with its alignment.
  lemma FrameIsAligned(sequence: ObjectSequence, l: FrameLayout)
    requires sequence.Valid() && l.alignment == sequence.alignment && sequence.minimum == WORD_SIZE && sequence.maximum == MAXIMUM_ALIGNMENT
    requires l.size % l.alignment == 0 && forall f | f in l.fields :: l.fields[f] in sequence.placed
    requires (l.output.Some? ==> l.output.value in sequence.placed) && (l.processContext.Some? ==> l.processContext.value in sequence.placed)
    ensures AlignedFrame(l)
  {
    hide Reach, NeedsOf;
    forall range | range in sequence.placed ensures AlignedIn(l, range) {
      var i :| 0 <= i < |sequence.placed| && sequence.placed[i] == range;
      PowersOfTwoDivide(range.alignment, l.alignment);
    }
  }

  predicate LayoutFailure(e: LayoutError) {
    e.InvalidAlignment? || e.SizeOverflow?
  }

  type Header = (Option<Range>, Option<Range>, Option<Range>)

  /// The process context, the pack input and the output.
  method PlaceHeader(sequence: ObjectSequence, process: bool, pack: bool, output: Option<Shape>)
    returns (r: Result<Header, LayoutError>)
    requires sequence.Valid() && sequence.next == FIXED_HEADER_SIZE && sequence.start == FIXED_HEADER_SIZE
    requires sequence.placed == [] && sequence.maximum == MAXIMUM_ALIGNMENT
    modifies sequence
    ensures sequence.Valid()
    ensures r.Err? ==> LayoutFailure(r.error)
    ensures r.Ok? <==>
            var needs := HeaderNeeds(process, pack, output);
            AllAligned(needs, MAXIMUM_ALIGNMENT) && Reach(FIXED_HEADER_SIZE, needs) < U64_LIMIT
    ensures r.Ok? ==>
              && NeedsOf(sequence.placed) == HeaderNeeds(process, pack, output) && HeaderIsPlaced(r.value, sequence.placed)
              && r.value.0.Some? == process && r.value.1.Some? == pack
              && (r.value.2.Some? <==> output.Some? && output.value.Stored?)
              && (process ==> r.value.0.value.size == r.value.0.value.alignment == WORD_SIZE)
              && (pack ==> r.value.1.value.size == r.value.1.value.alignment == WORD_SIZE)
              && (r.value.2.Some? ==> r.value.2.value.size == output.value.size && r.value.2.value.alignment == output.value.alignment)
              && Placing(PackPlaces(r.value), r.value.0, r.value.2, sequence.next)
  {
    hide Reach, Strictest, RoundUp, PowerOfTwo, NeedsOf, AllAligned, Placing, PackPlaces, Part, OutputPart, HeaderNeeds, ObjectSequence.Valid;
    PowersUpToSixteen();
    NothingNeeded();
    ghost var first, second := Part(process, WORD_SIZE, WORD_SIZE), Part(pack, WORD_SIZE, WORD_SIZE);
    ghost var third := OutputPart(output);
    PartsOfHeader(process, pack, output, first, second, third);
    var context := PlacePart(sequence, process, WORD_SIZE, WORD_SIZE, [], first, second + third);
    if context.Err? { return Err(context.error); }
    var input := PlacePart(sequence, pack, WORD_SIZE, WORD_SIZE, first, second, third);
    if input.Err? { return Err(input.error); }
    var stored := output.Some? && output.value.Stored?;
    var size, alignment := 0, 1;
    if stored { size, alignment := output.value.size, output.value.alignment; }
    var last := PlacePart(sequence, stored, size, alignment, first + second, third, []);
    if last.Err? { return Err(last.error); }
    r := Ok((context.value, input.value, last.value));
    HeaderIsStacked(r.value, sequence.next);
  }

  lemma PartsOfHeader(process: bool, pack: bool, output: Option<Shape>, first: seq<Need>, second: seq<Need>, third: seq<Need>)
    requires first == Part(process, WORD_SIZE, WORD_SIZE) && second == Part(pack, WORD_SIZE, WORD_SIZE)
    requires third == OutputPart(output)
    ensures third == if output.Some? && output.value.Stored? then Part(true, output.value.size, output.value.alignment) else Part(false, 0, 1)
    ensures [] + first + (second + third) == first + second + third == first + second + third + [] == HeaderNeeds(process, pack, output)
    ensures [] + first == first && AllAligned([], MAXIMUM_ALIGNMENT)
  {
  }

  /// One part of the header, where the frame has it.
  method PlacePart(sequence: ObjectSequence, wanted: bool, size: nat, alignment: nat, ghost done: seq<Need>, ghost part: seq<Need>, ghost rest: seq<Need>)
    returns (r: Result<Option<Range>, LayoutError>)
    requires sequence.Valid() && sequence.maximum == MAXIMUM_ALIGNMENT && part == Part(wanted, size, alignment)
    requires NeedsOf(sequence.placed) == done && AllAligned(done, MAXIMUM_ALIGNMENT)
    modifies sequence
    ensures sequence.Valid()
    ensures r.Ok? ==>
              && NeedsOf(sequence.placed) == done + part && AllAligned(done + part, MAXIMUM_ALIGNMENT)
              && Reach(sequence.start, done + part) < U64_LIMIT
              && old(sequence.next) <= sequence.next && (r.value.Some? <==> wanted)
              && (if wanted
                  then && r.value.value.size == size && r.value.value.alignment == alignment
                       && sequence.placed == old(sequence.placed) + [r.value.value]
                       && old(sequence.next) <= r.value.value.offset && sequence.next == r.value.value.End()
                  else sequence.placed == old(sequence.placed))
    ensures r.Err? ==>
              && LayoutFailure(r.error)
              && (!AllAligned(done + part + rest, MAXIMUM_ALIGNMENT) || Reach(sequence.start, done + part + rest) >= U64_LIMIT)
  {
    hide Reach, Strictest, RoundUp, PowerOfTwo, NeedsOf, AllAligned;
    if !wanted {
      assert done + part == done;
      return Ok(None);
    }
    ghost var needs := done + part + rest;
    assert needs[..|done|] == done && needs[..|done| + 1] == done + part && [] + needs == needs;
    var placed := AddNeeded(sequence, size, alignment, [], needs, |done|);
    if placed.Err? { return Err(placed.error); }
    return Ok(Some(placed.value));
  }

  /// The parts of a header lie behind one another.
  predicate Stacked(header: Header, next: nat) {
    var context, pack, output := header.0, header.1, header.2;
    && FIXED_HEADER_SIZE <= next
    && (context.Some? ==> FIXED_HEADER_SIZE <= context.value.offset && context.value.End() <= next)
    && (pack.Some? ==> FIXED_HEADER_SIZE <= pack.value.offset && pack.value.End() <= next)
    && (output.Some? ==> FIXED_HEADER_SIZE <= output.value.offset && output.value.End() <= next)
    && (context.Some? && pack.Some? ==> context.value.End() <= pack.value.offset)
    && (context.Some? && output.Some? ==> context.value.End() <= output.value.offset)
    && (pack.Some? && output.Some? ==> pack.value.End() <= output.value.offset)
  }

  lemma HeaderIsStacked(header: Header, next: nat)
    requires Stacked(header, next)
    ensures Placing(PackPlaces(header), header.0, header.2, next)
  {
  }

  /// Adds the next of the objects that are needed behind the first ones.
  method AddNeeded(sequence: ObjectSequence, size: nat, alignment: nat, ghost first: seq<Need>, ghost needs: seq<Need>, ghost k: nat)
    returns (r: Result<Range, LayoutError>)
    requires sequence.Valid() && sequence.maximum == MAXIMUM_ALIGNMENT
    requires k < |needs| && needs[k] == Need(size, alignment)
    requires NeedsOf(sequence.placed) == first + needs[..k] && AllAligned(needs[..k], MAXIMUM_ALIGNMENT)
    modifies sequence
    ensures sequence.Valid()
    ensures r.Ok? ==>
              && r.value.size == size && r.value.alignment == alignment
              && sequence.placed == old(sequence.placed) + [r.value]
              && NeedsOf(sequence.placed) == first + needs[..k + 1] && AllAligned(needs[..k + 1], MAXIMUM_ALIGNMENT)
              && old(sequence.next) <= r.value.offset && sequence.next == r.value.End()
    ensures r.Err? ==>
              && LayoutFailure(r.error)
              && (!AllAligned(needs, MAXIMUM_ALIGNMENT) || Reach(sequence.start, first + needs) >= U64_LIMIT)
  {
    hide Reach, Strictest, RoundUp, PowerOfTwo, NeedsOf, AllAligned;
    NextNeed(sequence.start, first, needs, k);
    assert sequence.next == Reach(sequence.start, first + needs[..k]);
    ghost var before := sequence.placed;
    r := sequence.Add(size, alignment);
    if r.Ok? { OnePlacedMore(before, r.value); }
  }

  /// What the next object adds behind others, and what its failure means for all of them.
  lemma NextNeed(start: nat, first: seq<Need>, needs: seq<Need>, k: nat)
    requires k < |needs|
    ensures first + needs[..k + 1] == first + needs[..k] + [needs[k]]
    ensures AllAligned(needs[..k], MAXIMUM_ALIGNMENT) && ValidAlignment(needs[k].alignment, MAXIMUM_ALIGNMENT) ==> AllAligned(needs[..k + 1], MAXIMUM_ALIGNMENT)
    ensures !ValidAlignment(needs[k].alignment, MAXIMUM_ALIGNMENT) ==> !AllAligned(needs, MAXIMUM_ALIGNMENT)
    ensures ValidAlignment(needs[k].alignment, MAXIMUM_ALIGNMENT) ==> needs[k].alignment > 0
    ensures needs[k].alignment > 0 ==> RoundUp(Reach(start, first + needs[..k]), needs[k].alignment) + needs[k].size <= Reach(start, first + needs)
  {
    hide Reach, RoundUp;
    assert (first + needs)[..|first| + k] == first + needs[..k];
    assert (first + needs)[..|first| + k + 1] == first + needs[..k + 1] == first + needs[..k] + [needs[k]];
    assert (first + needs[..k + 1])[..|first| + k] == first + needs[..k];
    ReachUnfolds(start, first + needs[..k + 1]);
    ReachGrows(start, first + needs, |first| + k + 1);
  }

  lemma ReachUnfolds(start: nat, needs: seq<Need>)
    requires needs != []
    ensures var last := needs[|needs| - 1];
            Reach(start, needs) == RoundUp(Reach(start, needs[..|needs| - 1]), if last.alignment > 0 then last.alignment else 1) + last.size
  {
  }

  predicate HeaderIsPlaced(header: Header, placed: seq<Range>) {
    && (header.0.Some? ==> header.0.value in placed)
    && (header.1.Some? ==> header.1.value in placed)
    && (header.2.Some? ==> header.2.value in placed)
  }

  function PackPlaces(header: Header): map<Field, Range> {
    if header.1.Some? then map[Pack := header.1.value] else map[]
  }

  /// The surviving stack objects, values and drop flags, in order, behind the header.
  method PlaceFields(sequence: ObjectSequence, fields: seq<Field>, shapes: map<Field, Shape>, header: Header)
    returns (r: Result<map<Field, Range>, LayoutError>)
    requires forall i, j | 0 <= i < j < |fields| :: fields[i] != fields[j]
    requires sequence.Valid() && sequence.maximum == MAXIMUM_ALIGNMENT && (header.1.Some? <==> Pack in fields)
    requires header.1.Some? ==> header.1.value.size == header.1.value.alignment == WORD_SIZE
    requires HeaderIsPlaced(header, sequence.placed)
    requires Placing(PackPlaces(header), header.0, header.2, sequence.next)
    modifies sequence
    ensures sequence.Valid()
    ensures r.Ok? <==>
            var needs := FieldNeeds(fields, shapes);
            && AllPlaceable(fields, shapes) && AllAligned(needs, MAXIMUM_ALIGNMENT)
            && Reach(sequence.start, NeedsOf(old(sequence.placed)) + needs) < U64_LIMIT
    ensures r.Ok? ==>
              && Placing(r.value, header.0, header.2, sequence.next)
              && (forall f :: f in r.value <==> f in fields)
              && (forall f | f in r.value :: Fits(f, r.value[f], shapes) && r.value[f] in sequence.placed)
              && NeedsOf(sequence.placed) == NeedsOf(old(sequence.placed)) + FieldNeeds(fields, shapes)
              && HeaderIsPlaced(header, sequence.placed)
    ensures r.Err? ==>
              || LayoutFailure(r.error)
              || (r.error.UnknownField? && r.error.field in fields && r.error.field !in shapes)
              || (r.error.NonStoredValue? && r.error.field in fields
                  && r.error.field in shapes && shapes[r.error.field].NonStored?)
  {
    hide Reach, Strictest, RoundUp, PowerOfTwo, NeedsOf, FieldNeeds, FieldNeed, AllAligned, AllPlaceable, Placeable, Placing, Fits, HeaderIsPlaced, InPlace;
    var places := PackPlaces(header);
    ghost var first, needs := NeedsOf(sequence.placed), FieldNeeds(fields, shapes);
    ghost var k := 0;
    NoFieldsYet(header, sequence.placed, fields, shapes);
    for i := 0 to |fields|
      invariant sequence.Valid() && HeaderIsPlaced(header, sequence.placed) && k <= |needs|
      invariant Placing(places, header.0, header.2, sequence.next) && InPlace(places, fields, i, shapes, sequence.placed)
      invariant NeedsOf(sequence.placed) == first + needs[..k] && FieldNeeds(fields[..i], shapes) == needs[..k]
      invariant AllPlaceable(fields[..i], shapes) && AllAligned(needs[..k], MAXIMUM_ALIGNMENT)
    {
      var f := fields[i];
      OneFieldMore(fields, shapes, i);
      if f.Pack? {
        PackIsInPlace(places, fields, i, shapes, sequence.placed);
      } else {
        FieldIsNeeded(fields, shapes, i, k);
        ghost var before, next := sequence.placed, sequence.next;
        var placed := PlaceField(sequence, f, shapes, first, needs, k);
        if placed.Err? { return Err(placed.error); }
        PlacingGrows(places, header, f, placed.value, next, sequence.next);
        InPlaceGrows(places, fields, i, shapes, before, placed.value, header);
        places := places[f := placed.value];
        k := k + 1;
      }
    }
    AllInPlace(places, fields, shapes, sequence.placed, k);
    return Ok(places);
  }

  /// One field at the next offset that suits it.
  method PlaceField(sequence: ObjectSequence, f: Field, shapes: map<Field, Shape>, ghost first: seq<Need>, ghost needs: seq<Need>, ghost k: nat)
    returns (r: Result<Range, LayoutError>)
    requires sequence.Valid() && sequence.maximum == MAXIMUM_ALIGNMENT && !f.Pack?
    requires k < |needs| && needs[k] == FieldNeed(f, shapes)
    requires NeedsOf(sequence.placed) == first + needs[..k] && AllAligned(needs[..k], MAXIMUM_ALIGNMENT)
    modifies sequence
    ensures sequence.Valid()
    ensures r.Ok? ==>
              && Placeable(f, shapes) && Fits(f, r.value, shapes)
              && sequence.placed == old(sequence.placed) + [r.value]
              && NeedsOf(sequence.placed) == first + needs[..k + 1] && AllAligned(needs[..k + 1], MAXIMUM_ALIGNMENT)
              && old(sequence.next) <= r.value.offset && sequence.next == r.value.End()
    ensures r.Err? ==>
              || !Placeable(f, shapes) || !AllAligned(needs, MAXIMUM_ALIGNMENT)
              || Reach(sequence.start, first + needs) >= U64_LIMIT
    ensures r.Err? ==>
              || LayoutFailure(r.error)
              || (r.error == UnknownField(f) && f !in shapes)
              || (r.error == NonStoredValue(f) && f in shapes && shapes[f].NonStored?)
  {
    hide Reach, Strictest, RoundUp, PowerOfTwo, NeedsOf, FieldNeed, AllAligned, Fits;
    if f !in shapes { return Err(UnknownField(f)); }
    if !f.DropFlag? && shapes[f].NonStored? { return Err(NonStoredValue(f)); }
    var size, alignment := 1, 1;
    if !f.DropFlag? { size, alignment := shapes[f].size, shapes[f].alignment; }
    IsNeeded(f, shapes);
    r := AddNeeded(sequence, size, alignment, first, needs, k);
  }

  /// The first `i` fields, and a pack, have their ranges.
  ghost predicate InPlace(places: map<Field, Range>, fields: seq<Field>, i: nat, shapes: map<Field, Shape>, placed: seq<Range>)
    requires i <= |fields|
  {
    && (forall f :: f in places <==> f in fields[..i] || (f == Pack && Pack in fields))
    && (forall f | f in places :: Fits(f, places[f], shapes) && places[f] in placed)
  }

  lemma NoFieldsYet(header: Header, placed: seq<Range>, fields: seq<Field>, shapes: map<Field, Shape>)
    requires (header.1.Some? <==> Pack in fields) && HeaderIsPlaced(header, placed)
    requires header.1.Some? ==> header.1.value.size == header.1.value.alignment == WORD_SIZE
    ensures InPlace(PackPlaces(header), fields, 0, shapes, placed)
    ensures FieldNeeds(fields[..0], shapes) == FieldNeeds(fields, shapes)[..0] && NeedsOf(placed) + FieldNeeds(fields, shapes)[..0] == NeedsOf(placed)
    ensures AllPlaceable(fields[..0], shapes) && AllAligned(FieldNeeds(fields, shapes)[..0], MAXIMUM_ALIGNMENT)
  {
  }

  lemma PackIsInPlace(places: map<Field, Range>, fields: seq<Field>, i: nat, shapes: map<Field, Shape>, placed: seq<Range>)
    requires i < |fields| && fields[i].Pack? && InPlace(places, fields, i, shapes, placed)
    ensures InPlace(places, fields, i + 1, shapes, placed)
  {
    hide Fits;
    assert fields[..i + 1] == fields[..i] + [fields[i]];
  }

  lemma InPlaceGrows(places: map<Field, Range>, fields: seq<Field>, i: nat, shapes: map<Field, Shape>, before: seq<Range>, range: Range, header: Header)
    requires i < |fields| && Fits(fields[i], range, shapes) && InPlace(places, fields, i, shapes, before) && HeaderIsPlaced(header, before)
    ensures InPlace(places[fields[i] := range], fields, i + 1, shapes, before + [range]) && HeaderIsPlaced(header, before + [range])
  {
    hide Fits;
    assert fields[..i + 1] == fields[..i] + [fields[i]];
  }

  lemma AllInPlace(places: map<Field, Range>, fields: seq<Field>, shapes: map<Field, Shape>, placed: seq<Range>, k: nat)
    requires InPlace(places, fields, |fields|, shapes, placed)
    ensures (forall f :: f in places <==> f in fields) && (forall f | f in places :: Fits(f, places[f], shapes) && places[f] in placed)
    ensures fields[..|fields|] == fields
  {
    hide Fits;
    assert fields[..|fields|] == fields;
  }

  lemma IsNeeded(f: Field, shapes: map<Field, Shape>)
    requires !f.Pack? && f in shapes && (f.DropFlag? || shapes[f].Stored?)
    ensures FieldNeed(f, shapes) == if f.DropFlag? then Need(1, 1) else Need(shapes[f].size, shapes[f].alignment)
    ensures Placeable(f, shapes)
    ensures forall range: Range | Need(range.size, range.alignment) == FieldNeed(f, shapes) :: Fits(f, range, shapes)
  {
  }

  lemma OnePlacedMore(before: seq<Range>, range: Range)
    ensures NeedsOf(before + [range]) == NeedsOf(before) + [Need(range.size, range.alignment)]
  {
  }

  lemma OneFieldMore(fields: seq<Field>, shapes: map<Field, Shape>, i: nat)
    requires i < |fields|
    ensures FieldNeeds(fields[..i + 1], shapes) == FieldNeeds(fields[..i], shapes) + if fields[i].Pack? then [] else [FieldNeed(fields[i], shapes)]
    ensures AllPlaceable(fields[..i + 1], shapes) <==> AllPlaceable(fields[..i], shapes) && Placeable(fields[i], shapes)
    ensures !Placeable(fields[i], shapes) ==> !AllPlaceable(fields, shapes)
    ensures fields[i].Pack? ==> Placeable(fields[i], shapes)
    ensures fields[i] !in shapes || (!fields[i].DropFlag? && shapes[fields[i]].NonStored?) ==> fields[i].Pack? || !Placeable(fields[i], shapes)
  {
    assert fields[..i + 1][..i] == fields[..i] && fields[..i + 1] == fields[..i] + [fields[i]];
    assert fields[i] in fields;
    hide FieldNeed;
  }

  lemma FieldIsNeeded(fields: seq<Field>, shapes: map<Field, Shape>, i: nat, k: nat)
    requires i < |fields| && !fields[i].Pack? && k <= |FieldNeeds(fields, shapes)|
    requires FieldNeeds(fields[..i], shapes) == FieldNeeds(fields, shapes)[..k]
    ensures k < |FieldNeeds(fields, shapes)| && FieldNeeds(fields, shapes)[k] == FieldNeed(fields[i], shapes)
    ensures FieldNeeds(fields[..i + 1], shapes) == FieldNeeds(fields, shapes)[..k + 1]
  {
    hide *;
    FieldNeedsGrow(fields, shapes, i + 1);
    OneFieldMore(fields, shapes, i);
    OneMoreOfAll(FieldNeeds(fields[..i + 1], shapes), FieldNeeds(fields, shapes), FieldNeed(fields[i], shapes), k);
  }

  lemma OneMoreOfAll(after: seq<Need>, all: seq<Need>, next: Need, k: nat)
    requires k <= |all| && after == all[..k] + [next] && after <= all
    ensures k < |all| && all[k] == next && after == all[..k + 1]
  {
    assert all[k] == after[k];
  }

  lemma {:induction false} FieldNeedsGrow(fields: seq<Field>, shapes: map<Field, Shape>, i: nat)
    requires i <= |fields|
    ensures FieldNeeds(fields[..i], shapes) <= FieldNeeds(fields, shapes)
    decreases |fields| - i
  {
    hide FieldNeed;
    if i == |fields| {
      assert fields[..i] == fields;
    } else {
      assert fields[..i + 1][..i] == fields[..i];
      FieldNeedsGrow(fields, shapes, i + 1);
    }
  }

  lemma PlacingGrows(places: map<Field, Range>, header: Header, f: Field, range: Range, before: nat, next: nat)
    requires Placing(places, header.0, header.2, before) && before <= range.offset && next == range.End()
    ensures Placing(places[f := range], header.0, header.2, next)
  {
  }

  ghost predicate Placing(places: map<Field, Range>, context: Option<Range>, output: Option<Range>, next: nat) {
    && FIXED_HEADER_SIZE <= next
    && (forall f | f in places :: FIXED_HEADER_SIZE <= places[f].offset && places[f].End() <= next)
    && (output.Some? ==> FIXED_HEADER_SIZE <= output.value.offset && output.value.End() <= next)
    && (context.Some? ==> FIXED_HEADER_SIZE <= context.value.offset && context.value.End() <= next)
    && (forall f, g | f in places && g in places && f != g :: Apart(places[f], places[g]))
    && (forall f | f in places && output.Some? :: Apart(places[f], output.value))
    && (forall f | f in places && context.Some? :: Apart(places[f], context.value))
    && (output.Some? && context.Some? ==> Apart(output.value, context.value))
  }

  // ---------------------------------------------------------------- state tags

  datatype StateTags = StateTags(suspensions: nat) {
    function Initial(): nat { 0 }

    function Suspension(index: nat): Option<nat> {
      if index < suspensions then Some(1 + index) else None
    }

    function Completed(): nat { 1 + suspensions }

    /// Tag comparison identifies the state: no two states of one function share a tag.
    lemma TagsAreDistinct(i: nat, j: nat)
      requires i < suspensions && j < suspensions
      ensures Suspension(i) == Suspension(j) <==> i == j
      ensures Suspension(i) != Some(Initial()) && Suspension(i) != Some(Completed()) && Initial() != Completed()
    {
    }
  }

  function MakeStateTags(suspensions: nat): Result<StateTags, LayoutError> {
    if suspensions + 1 < U64_LIMIT then Ok(StateTags(suspensions)) else Err(StateTagExhausted)
  }
}
