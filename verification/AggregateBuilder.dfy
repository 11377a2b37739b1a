/**
 The loops that build a plan and select an aggregate.
 */
module AggregateBuilder {
  import opened Results
  import opened ByteRanges
  import opened ValuePlan
  import opened AggregatePlan
  import opened AggregateCode
  import opened AggregateSelection

  // ---------------------------------------------------------------- building a plan

  /// What a list of lane writes makes of the lanes.
  function After(lanes: seq<Lane>, ws: Option<seq<LaneWrite>>): (r: Option<seq<Lane>>)
    requires ValidLanes(lanes)
    ensures r.Some? ==> |r.value| == |lanes| && ValidLanes(r.value)
  {
    if ws.None? then None else ApplyAll(lanes, ws.value)
  }

  lemma RepeatedStep(lanes: seq<Lane>, body: Body, total: nat, offset: nat, stride: nat, index: nat, count: nat, value: nat)
    requires index < count && ValidLanes(lanes)
    ensures After(lanes, RepeatedWrites(body, total, offset, stride, index, count, value)) ==
            if OffsetOverflows(offset, stride, index) then None
            else
              var one := After(lanes, ValueWrites(body, total, index * stride + offset, value));
              if one.None? then None else After(one.value, RepeatedWrites(body, total, offset, stride, index + 1, count, value))
  {
    hide ApplyAll, ValueWrites;
    var one := ValueWrites(body, total, index * stride + offset, value);
    var rest := RepeatedWrites(body, total, offset, stride, index + 1, count, value);
    if one.Some? && rest.Some? {
      ApplyAppended(lanes, one.value, rest.value);
    }
  }

  lemma WritesStep(lanes: seq<Lane>, body: Body, total: nat, ws: seq<Write>)
    requires ws != [] && ValidLanes(lanes)
    ensures After(lanes, AllLaneWrites(body, total, ws)) ==
            var one := After(lanes, LaneWrites(body, total, ws[0]));
            if one.None? then None else After(one.value, AllLaneWrites(body, total, ws[1..]))
  {
    hide ApplyAll, LaneWrites;
    var one, rest := LaneWrites(body, total, ws[0]), AllLaneWrites(body, total, ws[1..]);
    if one.Some? && rest.Some? {
      ApplyAppended(lanes, one.value, rest.value);
    }
  }

  lemma DirectStep(lanes: seq<Lane>, first: nat, registers: seq<nat>, k: nat)
    requires ValidLanes(lanes) && k < |registers|
    ensures ApplyAll(lanes, DirectWrites(first, registers)[k..]) ==
            var one := Apply(lanes, Whole(first + k, General(registers[k])));
            if one.None? then None else ApplyAll(one.value, DirectWrites(first, registers)[k + 1..])
  {
    var ws := DirectWrites(first, registers);
    assert ws[k..][0] == ws[k] && ws[k..][1..] == ws[k + 1..];
  }

  lemma ApplyOne(lanes: seq<Lane>, w: LaneWrite)
    requires ValidLanes(lanes)
    ensures ApplyAll(lanes, [w]) == Apply(lanes, w)
  {
    assert [w][1..] == [];
  }

  lemma NothingApplied(lanes: seq<Lane>)
    requires ValidLanes(lanes)
    ensures ApplyAll(lanes, []) == Some(lanes)
  {
  }

  /// The lanes of one aggregate while its plan is built.
  class LaneBuilder {
    const body: Body
    const total: nat
    var lanes: seq<Lane>

    constructor (body: Body, total: nat)
      ensures this.body == body && this.total == total && lanes == FreshLanes(LaneCount(total))
    {
      this.body := body;
      this.total := total;
      lanes := FreshLanes(LaneCount(total));
    }

    ghost predicate Valid()
      reads this
    {
      ValidLanes(lanes) && |lanes| == LaneCount(total)
    }

    method WriteTag(lane: nat, byte: nat, value: Byte) returns (ok: bool)
      requires Valid()
      modifies this
      ensures Valid() && ok == Apply(old(lanes), TagByte(lane, byte, value)).Some?
      ensures lanes == if ok then Apply(old(lanes), TagByte(lane, byte, value)).value else old(lanes)
    {
      if lane >= |lanes| { return false; }
      var l := lanes[lane];
      if l.source.Some? || byte >= WORD_SIZE { return false; }
      if l.written[byte] { return false; }
      lanes := lanes[lane := l.(written := l.written[byte := true], immediate := l.immediate[byte := value])];
      return true;
    }

    method WriteFull(lane: nat, source: Source) returns (ok: bool)
      requires Valid()
      modifies this
      ensures Valid() && ok == Apply(old(lanes), Whole(lane, source)).Some?
      ensures lanes == if ok then Apply(old(lanes), Whole(lane, source)).value else old(lanes)
    {
      if lane >= |lanes| { return false; }
      var l := lanes[lane];
      if l.source.Some? || l.written != FRESH_LANE.written { return false; }
      lanes := lanes[lane := l.(source := Some(source), written := ALL_WRITTEN)];
      return true;
    }

    method ApplyDirect(first: nat, size: nat, registers: seq<nat>) returns (ok: bool)
      requires Valid()
      modifies this
      ensures Valid()
      ensures ok <==> LanesMatch(total, size, first, |registers|) && ApplyAll(old(lanes), DirectWrites(first, registers)).Some?
      ensures ok ==> lanes == ApplyAll(old(lanes), DirectWrites(first, registers)).value
    {
      hide ApplyAll, Apply;
      if LaneCount(size) != |registers| { return false; }
      assert DirectWrites(first, registers)[0..] == DirectWrites(first, registers);
      for k := 0 to |registers|
        invariant Valid() && forall i | 0 <= i < k :: first + i < LaneCount(total) && LaneWidth(total, first + i) == LaneWidth(size, i)
        invariant ApplyAll(lanes, DirectWrites(first, registers)[k..]) == ApplyAll(old(lanes), DirectWrites(first, registers))
      {
        DirectStep(lanes, first, registers, k);
        if first + k >= LaneCount(total) || LaneWidth(total, first + k) != LaneWidth(size, k) { return false; }
        var written := WriteFull(first + k, General(registers[k]));
        if !written { return false; }
      }
      assert DirectWrites(first, registers)[|registers|..] == [];
      NothingApplied(lanes);
      ok := true;
    }

    method ApplyValue(offset: nat, value: nat) returns (ok: bool)
      requires Valid()
      modifies this
      ensures Valid() && ok == After(old(lanes), ValueWrites(body, total, offset, value)).Some?
      ensures ok ==> lanes == After(old(lanes), ValueWrites(body, total, offset, value)).value
    {
      hide ApplyAll, Apply, LanesMatch;
      if value >= |body.representations| || !body.representations[value].Stored? { return false; }
      var size := body.representations[value].size;
      if size == 0 {
        NothingApplied(lanes);
        return true;
      }
      if offset % WORD_SIZE != 0 || offset + size > total { return false; }
      var first := offset / WORD_SIZE;
      if value >= |body.storage| { return false; }
      match body.storage[value]
      case Direct(registers) =>
        ok := ApplyDirect(first, size, registers);
      case Floating(register, bytes) =>
        if LaneWidth(total, first) != bytes { return false; }
        ApplyOne(lanes, Whole(first, Float(register, bytes)));
        ok := WriteFull(first, Float(register, bytes));
      case _ =>
        return false;
    }

    method ApplyRepeated(offset: nat, stride: nat, count: nat, value: nat) returns (ok: bool)
      requires Valid()
      modifies this
      ensures Valid() && ok == After(old(lanes), RepeatedWrites(body, total, offset, stride, 0, count, value)).Some?
      ensures ok ==> lanes == After(old(lanes), RepeatedWrites(body, total, offset, stride, 0, count, value)).value
    {
      hide ApplyAll, ValueWrites;
      for index := 0 to count
        invariant Valid()
        invariant After(lanes, RepeatedWrites(body, total, offset, stride, index, count, value)) ==
                  After(old(lanes), RepeatedWrites(body, total, offset, stride, 0, count, value))
      {
        RepeatedStep(lanes, body, total, offset, stride, index, count, value);
        if index * stride >= U64_LIMIT { return false; }
        if index * stride + offset >= U64_LIMIT { return false; }
        var applied := ApplyValue(index * stride + offset, value);
        if !applied { return false; }
      }
      assert RepeatedWrites(body, total, offset, stride, count, count, value) == Some([]);
      NothingApplied(lanes);
      ok := true;
    }

    method ApplyWrite(w: Write) returns (ok: bool)
      requires Valid()
      modifies this
      ensures Valid() && ok == After(old(lanes), LaneWrites(body, total, w)).Some?
      ensures ok ==> lanes == After(old(lanes), LaneWrites(body, total, w)).value
    {
      hide ApplyAll, ValueWrites, RepeatedWrites;
      match w
      case Tag(offset, byte) =>
        if offset >= total { return false; }
        ApplyOne(lanes, TagByte(offset / WORD_SIZE, offset % WORD_SIZE, byte));
        ok := WriteTag(offset / WORD_SIZE, offset % WORD_SIZE, byte);
      case Value(offset, value) =>
        ok := ApplyValue(offset, value);
      case Repeated(offset, stride, count, value) =>
        ok := ApplyRepeated(offset, stride, count, value);
    }
  }

  /// The plan of an aggregate in `count` registers, or nothing when a member does not fit a lane.
  method BuildPlan(body: Body, a: Aggregate, count: nat) returns (r: Option<seq<Lane>>)
    ensures r == Plan(body, a, count)
  {
    if count != LaneCount(a.size) { return None; }
    var builder := new LaneBuilder(body, a.size);
    for i := 0 to |a.writes|
      invariant builder.Valid()
      invariant After(builder.lanes, AllLaneWrites(body, a.size, a.writes[i..])) ==
                After(FreshLanes(count), AllLaneWrites(body, a.size, a.writes))
    {
      ghost var rest := a.writes[i..];
      assert rest[0] == a.writes[i] && rest[1..] == a.writes[i + 1..];
      WritesStep(builder.lanes, body, a.size, rest);
      var applied := builder.ApplyWrite(a.writes[i]);
      if !applied { return None; }
    }
    r := Some(builder.lanes);
  }

  // ---------------------------------------------------------------- selecting instructions

  lemma {:induction false} PiecesCodeJoin(a: seq<Piece>, b: seq<Piece>, target: nat)
    ensures PiecesCode(a + b, target) == PiecesCode(a, target) + PiecesCode(b, target)
    decreases |a|
  {
    if a == [] {
      assert a + b == b;
    } else {
      assert (a + b)[0] == a[0] && (a + b)[1..] == a[1..] + b;
      PiecesCodeJoin(a[1..], b, target);
    }
  }

  lemma OnePieceCode(p: Piece, target: nat)
    ensures PiecesCode([p], target) == PieceCode(p, target)
  {
    assert [p][1..] == [];
  }

  /// The selected code once the stores still to come are appended.
  function Joined(selected: seq<Instruction>, ps: Result<seq<Piece>, SelectionError>, target: nat): Result<seq<Instruction>, SelectionError> {
    if ps.Err? then Err(ps.error) else Ok(selected + PiecesCode(ps.value, target))
  }

  lemma JoinedInTurn(selected: seq<Instruction>, a: seq<Piece>, b: seq<Piece>, target: nat)
    ensures Joined(selected, Ok(a + b), target) == Joined(selected + PiecesCode(a, target), Ok(b), target)
  {
    PiecesCodeJoin(a, b, target);
    assert selected + (PiecesCode(a, target) + PiecesCode(b, target)) == selected + PiecesCode(a, target) + PiecesCode(b, target);
  }

  lemma RepeatedPiecesStep(selected: seq<Instruction>, s: Scope, offset: nat, stride: nat, index: nat, count: nat, value: nat)
    requires index < count && !OffsetOverflows(offset, stride, index)
    ensures var one := ValuePieces(s, index * stride + offset, value);
            Joined(selected, RepeatedPieces(s, offset, stride, index, count, value), s.target) ==
            if one.Err? then Err(one.error)
            else Joined(selected + PiecesCode(one.value, s.target), RepeatedPieces(s, offset, stride, index + 1, count, value), s.target)
  {
    hide ValuePieces, PiecesCode;
    var one, rest := ValuePieces(s, index * stride + offset, value), RepeatedPieces(s, offset, stride, index + 1, count, value);
    if one.Ok? && rest.Ok? {
      JoinedInTurn(selected, one.value, rest.value, s.target);
    }
  }

  lemma AllPiecesStep(selected: seq<Instruction>, s: Scope, ws: seq<Write>)
    requires ws != []
    ensures var one := WritePieces(s, ws[0]);
            Joined(selected, AllPieces(s, ws), s.target) ==
            if one.Err? then Err(one.error)
            else Joined(selected + PiecesCode(one.value, s.target), AllPieces(s, ws[1..]), s.target)
  {
    hide WritePieces, PiecesCode;
    var one, rest := WritePieces(s, ws[0]), AllPieces(s, ws[1..]);
    if one.Ok? && rest.Ok? {
      JoinedInTurn(selected, one.value, rest.value, s.target);
    }
  }

  /// The instructions selected so far for one aggregate that is built in memory.
  class AggregateWriteSelection {
    const scope: Scope
    var selected: seq<Instruction>

    constructor (scope: Scope)
      ensures this.scope == scope && selected == [ZeroStack(scope.target, scope.total)]
    {
      this.scope := scope;
      selected := [ZeroStack(scope.target, scope.total)];
    }

    method SelectValue(offset: nat, value: nat) returns (error: Option<SelectionError>)
      modifies this
      ensures Joined(old(selected), ValuePieces(scope, offset, value), scope.target) ==
              if error.Some? then Err(error.value) else Ok(selected)
    {
      if value >= |scope.body.representations| { return Some(UnknownValue(value)); }
      if !scope.body.representations[value].Stored? { return Some(AggregateValueShape(value)); }
      var size := scope.body.representations[value].size;
      if offset + size > scope.total { return Some(AggregateWriteBounds(scope.result)); }
      if value >= |scope.body.storage| { return Some(UnknownValue(value)); }
      hide PiecesCode;
      match scope.body.storage[value] {
        case Omitted =>
          if size != 0 { return Some(AggregateValueShape(value)); }
          NoPieces(selected, scope.target);
        case Direct(registers) =>
          if LaneCount(size) != |registers| { return Some(DirectMemoryWidth(size)); }
          SelectLanes(size, offset, registers);
        case Floating(register, bytes) =>
          if bytes != size || (bytes != 4 && bytes != 8) { return Some(AggregateValueShape(value)); }
          OnePieceCode(FloatPiece(offset, register, bytes), scope.target);
          selected := selected + [FloatStoreMemory(bytes, scope.target, offset, register)];
        case Memory(bytes, home) =>
          if bytes != size { return Some(AggregateValueShape(value)); }
          if home.None? { return Some(MemoryValue(value)); }
          if home.value == scope.target && offset == 0 { return Some(AggregateStorageAlias(scope.result)); }
          OnePieceCode(ObjectPiece(offset, home.value, size), scope.target);
          selected := selected + [CopyMemoryNonOverlapping(scope.target, offset, home.value, size)];
      }
      error := None;
    }

    method SelectLanes(size: nat, offset: nat, registers: seq<nat>)
      requires LaneCount(size) == |registers|
      modifies this
      ensures selected == old(selected) + PiecesCode(RegisterPieces(size, offset, registers), scope.target)
    {
      ghost var ps := RegisterPieces(size, offset, registers);
      assert ps[..0] == [];
      for k := 0 to |registers|
        invariant selected == old(selected) + PiecesCode(ps[..k], scope.target)
      {
        assert ps[..k + 1] == ps[..k] + [ps[k]];
        PiecesCodeJoin(ps[..k], [ps[k]], scope.target);
        OnePieceCode(ps[k], scope.target);
        selected := selected + [StoreMemory(LaneWidth(size, k), scope.target, offset + WORD_SIZE * k, Virtual(registers[k]))];
      }
      assert ps[..|registers|] == ps;
    }

    method SelectRepeated(offset: nat, stride: nat, count: nat, value: nat) returns (error: Option<SelectionError>)
      modifies this
      ensures Joined(old(selected), RepeatedPieces(scope, offset, stride, 0, count, value), scope.target) ==
              if error.Some? then Err(error.value) else Ok(selected)
    {
      hide Joined, ValuePieces, PiecesCode;
      for index := 0 to count
        invariant Joined(selected, RepeatedPieces(scope, offset, stride, index, count, value), scope.target) ==
                  Joined(old(selected), RepeatedPieces(scope, offset, stride, 0, count, value), scope.target)
      {
        if OffsetOverflows(offset, stride, index) {
          JoinedError(selected, AggregateWriteBounds(scope.result), scope.target);
          return Some(AggregateWriteBounds(scope.result));
        }
        RepeatedPiecesStep(selected, scope, offset, stride, index, count, value);
        JoinedValue(selected, ValuePieces(scope, index * stride + offset, value), scope.target);
        error := SelectValue(index * stride + offset, value);
        if error.Some? { return; }
      }
      JoinedValue(selected, Ok([]), scope.target);
      NoPieces(selected, scope.target);
      error := None;
    }

    method Select(w: Write) returns (error: Option<SelectionError>)
      modifies this
      ensures Joined(old(selected), WritePieces(scope, w), scope.target) ==
              if error.Some? then Err(error.value) else Ok(selected)
    {
      match w
      case Tag(offset, byte) =>
        if offset + 1 > scope.total { return Some(AggregateWriteBounds(scope.result)); }
        OnePieceCode(TagPiece(offset, byte), scope.target);
        selected := selected + [LoadImmediate(4, SCRATCH, [byte, 0, 0, 0, 0, 0, 0, 0])];
        selected := selected + [StoreMemory(1, scope.target, offset, SCRATCH)];
        assert selected == old(selected) + PieceCode(TagPiece(offset, byte), scope.target);
        error := None;
      case Value(offset, value) =>
        error := SelectValue(offset, value);
      case Repeated(offset, stride, count, value) =>
        error := SelectRepeated(offset, stride, count, value);
    }

    method SelectAll(ws: seq<Write>) returns (error: Option<SelectionError>)
      modifies this
      ensures Joined(old(selected), AllPieces(scope, ws), scope.target) ==
              if error.Some? then Err(error.value) else Ok(selected)
    {
      hide Joined, WritePieces, PiecesCode;
      assert ws[0..] == ws;
      for i := 0 to |ws|
        invariant Joined(selected, AllPieces(scope, ws[i..]), scope.target) == Joined(old(selected), AllPieces(scope, ws), scope.target)
      {
        ghost var rest := ws[i..];
        assert rest[0] == ws[i] && rest[1..] == ws[i + 1..];
        AllPiecesStep(selected, scope, rest);
        JoinedValue(selected, WritePieces(scope, ws[i]), scope.target);
        error := Select(ws[i]);
        if error.Some? { return; }
      }
      assert ws[|ws|..] == [];
      NoPieces(selected, scope.target);
      error := None;
    }

    method SelectLoads(destinations: seq<nat>)
      requires |destinations| == LaneCount(scope.total)
      modifies this
      ensures selected == old(selected) + Loads(destinations, scope.total, scope.target, 0)
    {
      for lane := 0 to |destinations|
        invariant selected + Loads(destinations, scope.total, scope.target, lane) == old(selected) + Loads(destinations, scope.total, scope.target, 0)
      {
        selected := selected + [LoadMemory(LaneWidth(scope.total, lane), Virtual(destinations[lane]), scope.target, WORD_SIZE * lane)];
      }
    }
  }

  lemma JoinedError(selected: seq<Instruction>, e: SelectionError, target: nat)
    ensures Joined(selected, Err(e), target) == Err(e)
  {
  }

  lemma JoinedValue(selected: seq<Instruction>, ps: Result<seq<Piece>, SelectionError>, target: nat)
    ensures Joined(selected, ps, target) == if ps.Err? then Err(ps.error) else Ok(selected + PiecesCode(ps.value, target))
  {
  }

  lemma NoPieces(selected: seq<Instruction>, target: nat)
    ensures Joined(selected, Ok([]), target) == Ok(selected)
  {
    assert selected + [] == selected;
  }

  /// General copies go first and together; the other lanes follow.
  method SelectDirectAggregate(destinations: seq<nat>, lanes: seq<Lane>, total: nat) returns (r: Result<seq<Instruction>, SelectionError>)
    requires |lanes| == LaneCount(total)
    ensures r == DirectCode(destinations, lanes, total)
  {
    if |destinations| != |lanes| { return Err(DirectAggregatePlan); }
    var copies: seq<Copy>, deferred: seq<Instruction> := [], [];
    for i := 0 to |lanes|
      invariant copies + GeneralCopies(destinations, lanes, i) == GeneralCopies(destinations, lanes, 0)
      invariant deferred + Deferred(destinations, lanes, total, i) == Deferred(destinations, lanes, total, 0)
      invariant forall j | 0 <= j < i :: lanes[j].source.Some? && lanes[j].source.value.Float? ==> lanes[j].source.value.bytes == LaneWidth(total, j)
    {
      var width := LaneWidth(total, i);
      var bytes := if width <= 4 then 4 else 8;
      var destination := Virtual(destinations[i]);
      match lanes[i].source
      case None => deferred := deferred + [LoadImmediate(bytes, destination, lanes[i].immediate)];
      case Some(General(register)) => copies := copies + [Copy(destination, Virtual(register))];
      case Some(Float(register, sourceBytes)) =>
        if sourceBytes != width { return Err(DirectAggregatePlan); }
        deferred := deferred + [FloatMoveToGeneral(bytes, destination, register)];
    }
    assert copies == GeneralCopies(destinations, lanes, 0) && deferred == Deferred(destinations, lanes, total, 0);
    assert FloatsMatch(lanes, total);
    if |copies| > 2 { return Err(DirectAggregatePlan); }
    return Ok(CopyCode(copies) + deferred);
  }

  method ValidateOmittedAggregate(body: Body, result: nat, a: Aggregate) returns (r: Result<seq<Instruction>, SelectionError>)
    ensures r == if a.size != 0 then Err(AggregateValueShape(result)) else OmittedCode(body, result, a.writes)
  {
    if a.size != 0 { return Err(AggregateValueShape(result)); }
    for i := 0 to |a.writes|
      invariant OmittedCode(body, result, a.writes[i..]) == OmittedCode(body, result, a.writes)
    {
      var w := a.writes[i];
      assert a.writes[i..][0] == w && a.writes[i..][1..] == a.writes[i + 1..];
      if w.Tag? { return Err(AggregateWriteBounds(result)); }
      if w.value >= |body.representations| { return Err(UnknownValue(w.value)); }
      if !body.representations[w.value].Stored? { return Err(AggregateValueShape(w.value)); }
      if body.representations[w.value].size != 0 { return Err(AggregateWriteBounds(result)); }
    }
    return Ok([]);
  }

  /// One aggregate: in its registers when it has a plan, in memory otherwise.
  method SelectAggregate(body: Body, a: Aggregate, result: nat, staging: Option<nat>) returns (r: Result<seq<Instruction>, SelectionError>)
    ensures r == SelectedCode(body, a, result, staging)
  {
    hide Plan, DirectCode, AllPieces, OmittedCode;
    if result >= |body.representations| { return Err(UnknownValue(result)); }
    if body.representations[result] != Stored(a.size, a.alignment) { return Err(AggregateValueShape(result)); }
    if result >= |body.storage| { return Err(UnknownValue(result)); }
    match body.storage[result]
    case Omitted =>
      r := ValidateOmittedAggregate(body, result, a);
    case Direct(registers) =>
      var plan := BuildPlan(body, a, |registers|);
      if plan.Some? {
        r := SelectDirectAggregate(registers, plan.value, a.size);
        return;
      }
      if staging.None? { return Err(MissingDirectMemoryStaging); }
      r := SelectStores(Scope(body, a.size, result, staging.value), a.writes, Some(registers));
    case Memory(_, home) =>
      if home.None? { return Err(MemoryValue(result)); }
      r := SelectStores(Scope(body, a.size, result, home.value), a.writes, None);
    case Floating(_, _) =>
      return Err(AggregateValueShape(result));
  }

  method SelectStores(s: Scope, ws: seq<Write>, destinations: Option<seq<nat>>) returns (r: Result<seq<Instruction>, SelectionError>)
    ensures r == if destinations.None? then StoreCode(s, ws) else MemoryCode(s, ws, destinations.value)
  {
    var selection := new AggregateWriteSelection(s);
    ghost var zeroed := selection.selected;
    var error := selection.SelectAll(ws);
    JoinedValue(zeroed, AllPieces(s, ws), s.target);
    if error.Some? { return Err(error.value); }
    if destinations.Some? {
      if LaneCount(s.total) != |destinations.value| { return Err(DirectMemoryWidth(s.total)); }
      selection.SelectLoads(destinations.value);
    }
    r := Ok(selection.selected);
  }
}
