/**
 What a selected aggregate holds, told from its writes alone.

 A write covers the bytes of its member, or of every copy of it. Each byte of the aggregate is that of
 the last member over it, and zero where there is none.
 */
module AggregateMembers {
  import opened Results
  import opened ByteRanges
  import opened ValuePlan
  import opened AggregatePlan
  import opened AggregateCode
  import opened AggregateSelection

  // ---------------------------------------------------------------- members

  /// Byte `b` of a value: of one of its words, of its floating register, or of its object.
  function ValueByte(body: Body, value: nat, b: nat, m: Machine): Byte {
    if value >= |body.storage| then 0
    else
      match body.storage[value]
      case Direct(registers) => if b / 8 < |registers| then Read(m, Virtual(registers[b / 8]))[b % 8] else 0
      case Floating(register, _) => if b < 8 then ReadFloat(m, register)[b] else 0
      case Memory(_, Some(home)) => if home in m.objects && b < |m.objects[home]| then m.objects[home][b] else 0
      case _ => 0
  }

  function SizeOf(body: Body, value: nat): nat {
    if value < |body.representations| && body.representations[value].Stored? then body.representations[value].size else 0
  }

  function Copies(w: Write): nat {
    if w.Repeated? then w.count else 1
  }

  /// Where copy `i` of a write starts.
  function Start(w: Write, i: nat): nat {
    if w.Repeated? then w.offset + i * w.stride else w.offset
  }

  function Width(body: Body, w: Write): nat {
    if w.Tag? then 1 else SizeOf(body, w.value)
  }

  predicate Covers(body: Body, w: Write, i: nat, k: nat) {
    i < Copies(w) && Start(w, i) <= k < Start(w, i) + Width(body, w)
  }

  predicate CoversSome(body: Body, w: Write, k: nat) {
    exists i | 0 <= i < Copies(w) :: Covers(body, w, i, k)
  }

  function MemberByte(body: Body, w: Write, b: nat, m: Machine): Byte {
    if w.Tag? then w.byte else ValueByte(body, w.value, b, m)
  }

  /// Copy `i` of write `j` is the last over byte `k`.
  predicate LastOver(body: Body, ws: seq<Write>, j: nat, i: nat, k: nat) {
    && j < |ws| && Covers(body, ws[j], i, k)
    && (forall l | i < l < Copies(ws[j]) :: !Covers(body, ws[j], l, k))
    && (forall l | j < l < |ws| :: !CoversSome(body, ws[l], k))
  }

  predicate Uncovered(body: Body, ws: seq<Write>, k: nat) {
    forall j | 0 <= j < |ws| :: !CoversSome(body, ws[j], k)
  }

  /// `byte` is what the writes leave at `k` over `under`.
  ghost predicate Tells(body: Body, ws: seq<Write>, k: nat, under: Byte, byte: Byte, m: Machine) {
    && (Uncovered(body, ws, k) ==> byte == under)
    && (forall j: nat, i: nat | LastOver(body, ws, j, i, k) :: byte == MemberByte(body, ws[j], k - Start(ws[j], i), m))
  }

  // ---------------------------------------------------------------- stores of one value

  lemma LaneOver(size: nat, b: nat)
    requires b < size
    ensures b / 8 < LaneCount(size) && 8 * (b / 8) <= b < 8 * (b / 8) + LaneWidth(size, b / 8) && b - 8 * (b / 8) == b % 8
  {
  }

  lemma RegisterPieceAt(s: Scope, offset: nat, value: nat, image: Bytes, m: Machine, k: nat)
    requires ValuePieces(s, offset, value).Ok? && s.body.storage[value].Direct?
    requires AllFit(ValuePieces(s, offset, value).value, |image|) && AllReadable(ValuePieces(s, offset, value).value, s.target, m)
    requires offset <= k < offset + SizeOf(s.body, value) && k < |image|
    ensures Image(image, ValuePieces(s, offset, value).value, s.target, m)[k] == ValueByte(s.body, value, k - offset, m)
  {
    hide Image, AllReadable, AllFit, LaneWidth, LaneCount;
    var ps, registers, size, lane: nat := ValuePieces(s, offset, value).value, s.body.storage[value].registers, SizeOf(s.body, value), (k - offset) / 8;
    LaneOver(size, k - offset);
    assert ps == RegisterPieces(size, offset, registers);
    hide ValuePieces;
    var p := ps[lane];
    assert p == RegisterPiece(offset + WORD_SIZE * lane, registers[lane], LaneWidth(size, lane)) && Within(p, k);
    assert forall j | lane < j < |ps| :: !Within(ps[j], k);
    LastStoreWins(image, ps, s.target, m, lane, k);
  }

  lemma OnePiece(p: Piece, image: Bytes, target: nat, m: Machine, k: nat)
    requires AllFit([p], |image|) && AllReadable([p], target, m) && k < |image|
    ensures Fits(p, |image|) && Readable(p, target, m)
    ensures Image(image, [p], target, m)[k] == if Within(p, k) then Data(p, m)[k - p.offset] else image[k]
  {
    assert [p][0] == p && [p][1..] == [];
    assert Fits([p][0], |image|) && Readable([p][0], target, m);
    hide Data;
  }

  lemma ValueIsStored(s: Scope, offset: nat, value: nat, image: Bytes, m: Machine, k: nat)
    requires ValuePieces(s, offset, value).Ok? && k < |image|
    requires AllFit(ValuePieces(s, offset, value).value, |image|) && AllReadable(ValuePieces(s, offset, value).value, s.target, m)
    ensures Image(image, ValuePieces(s, offset, value).value, s.target, m)[k]
            == if offset <= k < offset + SizeOf(s.body, value) then ValueByte(s.body, value, k - offset, m) else image[k]
  {
    var ps := ValuePieces(s, offset, value).value;
    match s.body.storage[value] {
      case Omitted =>
      case Direct(_) =>
        if offset <= k < offset + SizeOf(s.body, value) {
          RegisterPieceAt(s, offset, value, image, m, k);
        } else {
          assert forall j | 0 <= j < |ps| :: !Within(ps[j], k);
          hide Image, ValuePieces;
          UncoveredByteStays(image, ps, s.target, m, k);
        }
      case Floating(_, _) =>
        hide Image;
        OnePiece(ps[0], image, s.target, m, k);
      case Memory(_, _) =>
        hide Image;
        OnePiece(ps[0], image, s.target, m, k);
    }
  }

  // ---------------------------------------------------------------- stores of one write

  /// The same for the copies of one write from `index` on.
  ghost predicate CopiesTell(body: Body, w: Write, index: nat, k: nat, under: Byte, byte: Byte, m: Machine) {
    && ((forall i | index <= i < Copies(w) :: !Covers(body, w, i, k)) ==> byte == under)
    && (forall i: nat | index <= i && LastCopy(body, w, i, k) :: byte == MemberByte(body, w, k - Start(w, i), m))
  }

  predicate LastCopy(body: Body, w: Write, i: nat, k: nat) {
    Covers(body, w, i, k) && forall l | i < l < Copies(w) :: !Covers(body, w, l, k)
  }

  lemma {:induction false} RepeatedIsStored(s: Scope, w: Write, index: nat, image: Bytes, m: Machine, k: nat)
    requires w.Repeated? && index <= w.count && k < |image|
    requires RepeatedPieces(s, w.offset, w.stride, index, w.count, w.value).Ok?
    requires AllFit(RepeatedPieces(s, w.offset, w.stride, index, w.count, w.value).value, |image|)
    requires AllReadable(RepeatedPieces(s, w.offset, w.stride, index, w.count, w.value).value, s.target, m)
    ensures CopiesTell(s.body, w, index, k, image[k], Image(image, RepeatedPieces(s, w.offset, w.stride, index, w.count, w.value).value, s.target, m)[k], m)
    decreases w.count - index
  {
    hide Image, ValuePieces, ValueByte;
    if index == w.count {
      NoPieces(image, s.target, m);
    } else {
      var at := index * w.stride + w.offset;
      var one, rest := ValuePieces(s, at, w.value).value, RepeatedPieces(s, w.offset, w.stride, index + 1, w.count, w.value).value;
      ImageAppended(image, one, rest, s.target, m);
      ValueIsStored(s, at, w.value, image, m, k);
      RepeatedIsStored(s, w, index + 1, Image(image, one, s.target, m), m, k);
      assert Covers(s.body, w, index, k) <==> at <= k < at + SizeOf(s.body, w.value);
    }
  }

  lemma NoPieces(image: Bytes, target: nat, m: Machine)
    ensures Image(image, [], target, m) == image
  {
  }

  lemma WriteIsStored(s: Scope, w: Write, image: Bytes, m: Machine, k: nat)
    requires WritePieces(s, w).Ok? && k < |image|
    requires AllFit(WritePieces(s, w).value, |image|) && AllReadable(WritePieces(s, w).value, s.target, m)
    ensures CopiesTell(s.body, w, 0, k, image[k], Image(image, WritePieces(s, w).value, s.target, m)[k], m)
  {
    hide Image, ValuePieces, ValueByte, RepeatedPieces;
    match w
    case Tag(offset, byte) =>
      OnePiece(TagPiece(offset, byte), image, s.target, m, k);
      assert Covers(s.body, w, 0, k) <==> k == offset;
    case Value(offset, value) =>
      ValueIsStored(s, offset, value, image, m, k);
      assert Covers(s.body, w, 0, k) <==> offset <= k < offset + SizeOf(s.body, value);
    case Repeated(_, _, _, _) => RepeatedIsStored(s, w, 0, image, m, k);
  }

  lemma UncoveredInTurn(body: Body, ws: seq<Write>, k: nat)
    requires ws != []
    ensures Uncovered(body, ws, k) <==> !CoversSome(body, ws[0], k) && Uncovered(body, ws[1..], k)
  {
    hide CoversSome;
    assert forall j | 1 <= j < |ws| :: ws[j] == ws[1..][j - 1];
  }

  lemma LastInTurn(body: Body, ws: seq<Write>, j: nat, i: nat, k: nat)
    requires ws != [] && LastOver(body, ws, j, i, k)
    ensures if j == 0 then LastCopy(body, ws[0], i, k) && Uncovered(body, ws[1..], k) else LastOver(body, ws[1..], j - 1, i, k)
  {
    hide CoversSome, Covers, Copies;
    assert forall l | 0 <= l < |ws| - 1 :: ws[1..][l] == ws[l + 1];
  }

  lemma CoverIsInTurn(body: Body, w: Write, i: nat, k: nat)
    ensures Covers(body, w, i, k) ==> Start(w, i) <= k
    ensures !CoversSome(body, w, k) <==> forall l | 0 <= l < Copies(w) :: !Covers(body, w, l, k)
  {
  }

  lemma TellsInTurn(body: Body, ws: seq<Write>, k: nat, under: Byte, middle: Byte, byte: Byte, m: Machine)
    requires ws != [] && CopiesTell(body, ws[0], 0, k, under, middle, m) && Tells(body, ws[1..], k, middle, byte, m)
    ensures Tells(body, ws, k, under, byte, m)
  {
    hide MemberByte, Start, Covers, CoversSome, Uncovered, Copies;
    CoverIsInTurn(body, ws[0], 0, k);
    UncoveredInTurn(body, ws, k);
    forall j: nat, i: nat | LastOver(body, ws, j, i, k) ensures Start(ws[j], i) <= k && byte == MemberByte(body, ws[j], k - Start(ws[j], i), m) {
      CoverIsInTurn(body, ws[j], i, k);
      LastInTurn(body, ws, j, i, k);
      assert j > 0 ==> ws[1..][j - 1] == ws[j];
    }
  }

  lemma {:induction false} WritesAreStored(s: Scope, ws: seq<Write>, image: Bytes, m: Machine, k: nat)
    requires AllPieces(s, ws).Ok? && k < |image|
    requires AllFit(AllPieces(s, ws).value, |image|) && AllReadable(AllPieces(s, ws).value, s.target, m)
    ensures Tells(s.body, ws, k, image[k], Image(image, AllPieces(s, ws).value, s.target, m)[k], m)
  {
    hide Image, WritePieces, ValueByte, CopiesTell;
    if ws == [] {
      NoPieces(image, s.target, m);
    } else {
      var one, rest := WritePieces(s, ws[0]).value, AllPieces(s, ws[1..]).value;
      ImageAppended(image, one, rest, s.target, m);
      WriteIsStored(s, ws[0], image, m, k);
      var middle := Image(image, one, s.target, m);
      WritesAreStored(s, ws[1..], middle, m, k);
      TellsInTurn(s.body, ws, k, image[k], middle[k], Image(middle, rest, s.target, m)[k], m);
    }
  }

  // ---------------------------------------------------------------- what is selected

  /// MAIN RESULT. When selection succeeds for a result in memory, running the selected code leaves in its
  /// object, at each byte of the aggregate, that of the last member over it or zero, and nothing else in
  /// any object changes.
  lemma SelectedMemoryHoldsTheMembers(s: Scope, a: Aggregate, staging: Option<nat>, m: Machine)
    requires SelectedCode(s.body, a, s.result, staging).Ok? && a.size == s.total
    requires s.body.storage[s.result].Memory? && s.body.storage[s.result].home == Some(s.target)
    requires AllPieces(s, a.writes).Ok? ==> Prepared(s, a.writes, m)
    ensures Run(SelectedCode(s.body, a, s.result, staging).value, m).Done?
    ensures var n := Run(SelectedCode(s.body, a, s.result, staging).value, m).machine;
            && s.target in m.objects && s.target in n.objects && |n.objects[s.target]| == |m.objects[s.target]| && s.total <= |n.objects[s.target]|
            && SameInputs(m, n, s.target)
            && (forall k: nat | k < s.total :: Tells(s.body, a.writes, k, 0, n.objects[s.target][k], m))
            && (forall k: nat | s.total <= k < |n.objects[s.target]| :: n.objects[s.target][k] == m.objects[s.target][k])
  {
    hide AllPieces, Image, Tells;
    MemoryHoldsTheImage(s, a.writes, m);
    var ps, cleared := AllPieces(s, a.writes).value, Cleared(s, m);
    forall k: nat | k < s.total ensures Tells(s.body, a.writes, k, 0, Image(cleared, ps, s.target, m)[k], m) {
      WritesAreStored(s, a.writes, cleared, m, k);
    }
    forall k: nat | s.total <= k < |cleared| ensures Image(cleared, ps, s.target, m)[k] == m.objects[s.target][k] {
      assert forall i | 0 <= i < |ps| :: Fits(ps[i], s.total);
      UncoveredByteStays(cleared, ps, s.target, m, k);
    }
  }

  /// MAIN RESULT. When selection succeeds for a result in registers and memory accepts the writes, each
  /// byte of the aggregate lies in its register in the same way, whichever form is selected.
  lemma SelectedRegistersHoldTheMembers(s: Scope, a: Aggregate, registers: seq<nat>, m: Machine)
    requires SelectedCode(s.body, a, s.result, Some(s.target)).Ok? && a.size == s.total
    requires s.body.storage[s.result] == Direct(registers) && Distinct(registers)
    requires MemoryCode(s, a.writes, registers).Ok? && Prepared(s, a.writes, m)
    ensures Run(SelectedCode(s.body, a, s.result, Some(s.target)).value, m).Done?
    ensures var n := Run(SelectedCode(s.body, a, s.result, Some(s.target)).value, m).machine;
            forall j: nat, b: nat | j < |registers| && b < LaneWidth(s.total, j) ::
              Tells(s.body, a.writes, WORD_SIZE * j + b, 0, Read(n, Virtual(registers[j]))[b], m)
  {
    hide AllPieces, Image, Tells;
    SelectedRegistersHoldTheAggregate(s, a, registers, m);
    var n := Run(SelectedCode(s.body, a, s.result, Some(s.target)).value, m).machine;
    var ps, cleared := AllPieces(s, a.writes).value, Cleared(s, m);
    forall j: nat, b: nat | j < |registers| && b < LaneWidth(s.total, j)
      ensures Tells(s.body, a.writes, WORD_SIZE * j + b, 0, Read(n, Virtual(registers[j]))[b], m)
    {
      var k := WORD_SIZE * j + b;
      WritesAreStored(s, a.writes, cleared, m, k);
      var image, w := Image(cleared, ps, s.target, m), LaneWidth(s.total, j);
      assert Read(n, Virtual(registers[j]))[..w][b] == image[WORD_SIZE * j..WORD_SIZE * j + w][b];
    }
  }

  // ---------------------------------------------------------------- what is accepted

  /// A member that can be stored at an offset.
  predicate MemberAccepted(s: Scope, offset: nat, value: nat) {
    && value < |s.body.representations| && s.body.representations[value].Stored? && value < |s.body.storage|
    && offset + SizeOf(s.body, value) <= s.total
    && match s.body.storage[value]
       case Omitted => SizeOf(s.body, value) == 0
       case Direct(registers) => LaneCount(SizeOf(s.body, value)) == |registers|
       case Floating(_, bytes) => bytes == SizeOf(s.body, value) && (bytes == 4 || bytes == 8)
       case Memory(bytes, home) => bytes == SizeOf(s.body, value) && home.Some? && (home.value == s.target ==> offset > 0)
  }

  predicate CopyAccepted(s: Scope, w: Write, i: nat)
    requires w.Repeated?
  {
    i * w.stride + w.offset < U64_LIMIT && MemberAccepted(s, i * w.stride + w.offset, w.value)
  }

  predicate WriteAccepted(s: Scope, w: Write) {
    match w
    case Tag(offset, _) => offset < s.total
    case Value(offset, value) => MemberAccepted(s, offset, value)
    case Repeated(_, _, count, _) => forall i | 0 <= i < count :: CopyAccepted(s, w, i)
  }

  lemma MemberIsExact(s: Scope, offset: nat, value: nat)
    ensures ValuePieces(s, offset, value).Ok? <==> MemberAccepted(s, offset, value)
  {
    hide LaneCount;
  }

  lemma {:induction false} CopiesAreExact(s: Scope, w: Write, index: nat)
    requires w.Repeated? && index <= w.count
    ensures RepeatedPieces(s, w.offset, w.stride, index, w.count, w.value).Ok? <==> forall i | index <= i < w.count :: CopyAccepted(s, w, i)
    decreases w.count - index
  {
    hide ValuePieces, MemberAccepted;
    if index < w.count {
      MemberIsExact(s, index * w.stride + w.offset, w.value);
      CopiesAreExact(s, w, index + 1);
      assert CopyAccepted(s, w, index) <==> !OffsetOverflows(w.offset, w.stride, index) && MemberAccepted(s, index * w.stride + w.offset, w.value);
    }
  }

  lemma {:induction false} WritesAreExact(s: Scope, ws: seq<Write>)
    ensures AllPieces(s, ws).Ok? <==> forall i | 0 <= i < |ws| :: WriteAccepted(s, ws[i])
  {
    if ws != [] {
      WriteIsExact(s, ws[0]);
      hide WritePieces, WriteAccepted;
      WritesAreExact(s, ws[1..]);
      assert forall i | 0 < i < |ws| :: ws[i] == ws[1..][i - 1];
      assert forall i | 0 <= i < |ws| - 1 :: ws[1..][i] == ws[i + 1];
    }
  }

  lemma WriteIsExact(s: Scope, w: Write)
    ensures WritePieces(s, w).Ok? <==> WriteAccepted(s, w)
  {
    hide ValuePieces, RepeatedPieces, MemberAccepted, CopyAccepted;
    match w
    case Tag(_, _) =>
    case Value(offset, value) => MemberIsExact(s, offset, value);
    case Repeated(_, _, _, _) => CopiesAreExact(s, w, 0);
  }

  predicate EmptyMember(body: Body, w: Write) {
    !w.Tag? && w.value < |body.representations| && body.representations[w.value].Stored? && body.representations[w.value].size == 0
  }

  lemma {:induction false} OmittedIsExact(body: Body, result: nat, ws: seq<Write>)
    ensures OmittedCode(body, result, ws) == Ok([]) || OmittedCode(body, result, ws).Err?
    ensures OmittedCode(body, result, ws).Ok? <==> forall i | 0 <= i < |ws| :: EmptyMember(body, ws[i])
  {
    if ws != [] {
      OmittedIsExact(body, result, ws[1..]);
      assert forall i | 0 < i < |ws| :: ws[i] == ws[1..][i - 1];
      assert forall i | 0 <= i < |ws| - 1 :: ws[1..][i] == ws[i + 1];
    }
  }

  /// MAIN RESULT. An aggregate of its result's shape is selected exactly in these cases: in registers
  /// when there is a plan with at most two lanes from general registers, or when there is none but the
  /// staging object can take every write; in memory when its object can; and without bytes when it has
  /// only empty members.
  lemma SelectionIsExact(body: Body, a: Aggregate, result: nat, staging: Option<nat>)
    requires result < |body.representations| && result < |body.storage| && body.representations[result] == Stored(a.size, a.alignment)
    ensures SelectedCode(body, a, result, staging).Ok? <==>
            match body.storage[result]
            case Omitted => a.size == 0 && forall i | 0 <= i < |a.writes| :: EmptyMember(body, a.writes[i])
            case Direct(registers) =>
              if Plan(body, a, |registers|).Some?
              then |GeneralCopies(registers, Plan(body, a, |registers|).value, 0)| <= 2
              else
                && staging.Some? && LaneCount(a.size) == |registers|
                && forall i | 0 <= i < |a.writes| :: WriteAccepted(Scope(body, a.size, result, staging.value), a.writes[i])
            case Memory(_, home) =>
              home.Some? && forall i | 0 <= i < |a.writes| :: WriteAccepted(Scope(body, a.size, result, home.value), a.writes[i])
            case Floating(_, _) => false
  {
    hide Plan, AllPieces, OmittedCode, EmptyMember, WriteAccepted, GeneralCopies, DirectCode;
    match body.storage[result] {
      case Omitted => OmittedIsExact(body, result, a.writes);
      case Direct(registers) =>
        if Plan(body, a, |registers|).Some? {
          PlansAreSelectable(body, a, registers);
        } else if staging.Some? {
          WritesAreExact(Scope(body, a.size, result, staging.value), a.writes);
        }
      case Memory(_, home) =>
        if home.Some? { WritesAreExact(Scope(body, a.size, result, home.value), a.writes); }
      case Floating(_, _) =>
    }
  }

  /// A result of another shape is refused.
  lemma OtherShapesAreRefused(body: Body, a: Aggregate, result: nat, staging: Option<nat>)
    requires result >= |body.representations| || result >= |body.storage| || body.representations[result] != Stored(a.size, a.alignment)
    ensures SelectedCode(body, a, result, staging).Err?
  {
  }
}
