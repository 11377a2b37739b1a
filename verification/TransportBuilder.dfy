/**
 The loops that select argument moves, entry code, and the constructor's captures.
 */
module TransportBuilder {
  import opened Results
  import opened ByteRanges
  import opened NocterAbi
  import opened Transport
  import opened TransportEntry
  import opened Constructor

  /// The code once the rest is appended.
  function Joined<E>(code: seq<Instruction>, rest: Result<seq<Instruction>, E>): Result<seq<Instruction>, E> {
    if rest.Err? then rest else Ok(code + rest.value)
  }

  /// One part of a list, and then the others.
  function Then<E>(first: Result<seq<Instruction>, E>, rest: Result<seq<Instruction>, E>): Result<seq<Instruction>, E> {
    if first.Err? then first else if rest.Err? then rest else Ok(first.value + rest.value)
  }

  lemma JoinedThen<E>(code: seq<Instruction>, first: Result<seq<Instruction>, E>, rest: Result<seq<Instruction>, E>)
    ensures Joined(code, Then(first, rest)) == if first.Err? then first else Joined(code + first.value, rest)
  {
    if first.Ok? && rest.Ok? {
      assert code + (first.value + rest.value) == code + first.value + rest.value;
    }
  }

  lemma JoinedNothing<E>(code: seq<Instruction>)
    ensures Joined<E>(code, Ok([])) == Ok(code)
  {
    assert code + [] == code;
  }

  /// Selected code.
  class Selection {
    var code: seq<Instruction>

    constructor ()
      ensures code == []
    {
      code := [];
    }

    method Push(i: Instruction)
      modifies this
      ensures code == old(code) + [i]
    {
      code := code + [i];
    }

    // -------------------------------------------------------------- the caller

    method SelectDirectRegisterArgument(words: nat, first: nat, s: Source) returns (error: Option<TransportError>)
      modifies this
      ensures Joined(old(code), ArgumentCode(s, ArgumentAbi(Direct(words), Some(Registers(first, words))), 0)) ==
              if error.Some? then Err(error.value) else Ok(code)
    {
      if !s.Words? || |s.places| != words { return Some(CallArguments); }
      if words > 0 && first + words > ARGUMENT_REGISTERS { return Some(RegisterOverflow); }
      for lane := 0 to words
        invariant code + Moves(first, s.places, lane) == old(code) + Moves(first, s.places, 0)
      {
        Push(Move(first + lane, s.places[lane]));
      }
      assert code == old(code) + Moves(first, s.places, 0);
      error := None;
    }

    method SelectDirectStackArgument(words: nat, offset: nat, size: nat, s: Source, sp: nat) returns (error: Option<TransportError>)
      modifies this
      ensures Joined(old(code), ArgumentCode(s, ArgumentAbi(Direct(words), Some(Slot(offset, size))), sp)) ==
              if error.Some? then Err(error.value) else Ok(code)
    {
      if !s.Words? || |s.places| != words || size < WORD_SIZE * words { return Some(CallArguments); }
      for lane := 0 to words
        invariant code + Stores(sp + offset, s.places, lane) == old(code) + Stores(sp + offset, s.places, 0)
      {
        Push(Store(WORD_SIZE, sp + offset + WORD_SIZE * lane, s.places[lane]));
      }
      assert code == old(code) + Stores(sp + offset, s.places, 0);
      error := None;
    }

    method SelectIndirectArgument(location: Location, s: Source, sp: nat) returns (error: Option<TransportError>)
      modifies this
      ensures Joined(old(code), ArgumentCode(s, ArgumentAbi(Indirect, Some(location)), sp)) ==
              if error.Some? then Err(error.value) else Ok(code)
    {
      if !s.Object? { return Some(CallArguments); }
      match location
      case Registers(first, span) =>
        if span != 1 { return Some(CallArguments); }
        if first > 30 { return Some(RegisterOverflow); }
        Push(FormAddress(first, s.address));
        error := None;
      case Slot(offset, size) =>
        if size < WORD_SIZE { return Some(CallArguments); }
        Push(FormAddress(17, s.address));
        Push(Store(WORD_SIZE, sp + offset, InRegister(17)));
        assert code == old(code) + [FormAddress(17, s.address), Store(WORD_SIZE, sp + offset, InRegister(17))];
        error := None;
    }

    method SelectFloatArgument(bytes: nat, location: Location, s: Source, sp: nat) returns (error: Option<TransportError>)
      modifies this
      ensures Joined(old(code), FloatCode(s, bytes, location, sp)) == if error.Some? then Err(error.value) else Ok(code)
    {
      if !s.Floating? || s.bytes != bytes { return Some(CallArguments); }
      match location
      case Registers(first, span) =>
        if span != 1 { return Some(CallArguments); }
        if first >= FLOATING_ARGUMENT_REGISTERS { return Some(RegisterOverflow); }
        Push(FloatMove(bytes, first, s.place));
        error := None;
      case Slot(offset, size) =>
        if size < bytes { return Some(CallArguments); }
        Push(FloatStore(bytes, sp + offset, s.place));
        error := None;
    }

    method SelectArgument(s: Source, a: ArgumentAbi, sp: nat) returns (error: Option<TransportError>)
      modifies this
      ensures Joined(old(code), ArgumentCode(s, a, sp)) == if error.Some? then Err(error.value) else Ok(code)
    {
      if a.location.None? {
        if a.class_.Zero? {
          JoinedNothing<TransportError>(code);
          return None;
        }
        return Some(CallArguments);
      }
      match a.class_
      case Zero => return Some(CallArguments);
      case Direct(words) =>
        match a.location.value {
          case Registers(first, span) =>
            if span != words { return Some(CallArguments); }
            error := SelectDirectRegisterArgument(words, first, s);
          case Slot(offset, size) =>
            error := SelectDirectStackArgument(words, offset, size, s, sp);
        }
      case Float32 => error := SelectFloatArgument(4, a.location.value, s, sp);
      case Float64 => error := SelectFloatArgument(8, a.location.value, s, sp);
      case Indirect => error := SelectIndirectArgument(a.location.value, s, sp);
    }

    /// The moves of a call, one argument after another.
    method SelectCallArguments(sources: seq<Source>, abi: seq<ArgumentAbi>, sp: nat) returns (error: Option<TransportError>)
      modifies this
      ensures |sources| != |abi| ==> error == Some(CallArguments)
      ensures |sources| == |abi| ==> Joined(old(code), CallCode(sources, abi, 0, sp)) == if error.Some? then Err(error.value) else Ok(code)
    {
      hide ArgumentCode, Joined;
      if |sources| != |abi| { return Some(CallArguments); }
      for i := 0 to |abi|
        invariant Joined(code, CallCode(sources, abi, i, sp)) == Joined(old(code), CallCode(sources, abi, 0, sp))
      {
        ghost var part := ArgumentCode(sources[i], abi[i], sp);
        JoinedThen(code, part, CallCode(sources, abi, i + 1, sp));
        JoinedPart(code, part);
        error := SelectArgument(sources[i], abi[i], sp);
        if error.Some? { return; }
      }
      JoinedNothing<TransportError>(code);
      error := None;
    }

    // -------------------------------------------------------------- the callee

    method SelectLaneStores(p: Parameter, first: nat)
      modifies this
      ensures code == old(code) + LaneStores(p, first, 0)
    {
      for lane := 0 to LaneCount(p.size)
        invariant code + LaneStores(p, first, lane) == old(code) + LaneStores(p, first, 0)
      {
        Push(Store(LaneWidth(p.size, lane), p.address + WORD_SIZE * lane, InRegister(first + lane)));
      }
    }

    method SelectRegisterParameter(a: ArgumentAbi, p: Parameter) returns (error: Option<TransportError>)
      modifies this
      ensures Joined(old(code), EarlyCode(a, p)) == if error.Some? then Err(error.value) else Ok(code)
    {
      JoinedNothing<TransportError>(code);
      if a.location.None? { return if a.class_.Zero? then None else Some(ParameterTransport); }
      if a.class_.Zero? { return Some(ParameterTransport); }
      if a.location.value.Slot? { return None; }
      var first, span := a.location.value.first, a.location.value.words;
      match a.class_
      case Direct(words) =>
        if words != span { return Some(ParameterTransport); }
        if LaneCount(p.size) != words { return Some(DirectMemoryWidth); }
        if words > 0 && first + words > ARGUMENT_REGISTERS { return Some(RegisterOverflow); }
        SelectLaneStores(p, first);
        error := None;
      case Indirect =>
        if span != 1 { return Some(ParameterTransport); }
        if first > 30 { return Some(RegisterOverflow); }
        Push(Store(WORD_SIZE, p.address, InRegister(first)));
        error := None;
      case Float32 => error := SelectFloatRegister(first, span, 4, p);
      case Float64 => error := SelectFloatRegister(first, span, 8, p);
    }

    method SelectFloatRegister(first: nat, span: nat, bytes: nat, p: Parameter) returns (error: Option<TransportError>)
      modifies this
      ensures Joined(old(code), EarlyFloatCode(first, span, bytes, p)) == if error.Some? then Err(error.value) else Ok(code)
    {
      if span != 1 { return Some(ParameterTransport); }
      if first >= FLOATING_ARGUMENT_REGISTERS { return Some(RegisterOverflow); }
      Push(FloatStore(bytes, p.address, InRegister(first)));
      error := None;
    }

    method SelectLaneCopies(p: Parameter, source: nat)
      modifies this
      ensures code == old(code) + LaneCopies(p, source, 0)
    {
      for lane := 0 to LaneCount(p.size)
        invariant code + LaneCopies(p, source, lane) == old(code) + LaneCopies(p, source, 0)
      {
        Push(Load(LaneWidth(p.size, lane), 17, source + WORD_SIZE * lane));
        Push(Store(LaneWidth(p.size, lane), p.address + WORD_SIZE * lane, InRegister(17)));
      }
    }

    method SelectLateParameter(a: ArgumentAbi, p: Parameter, incoming: nat) returns (error: Option<TransportError>)
      modifies this
      ensures Joined(old(code), LateCode(a, p, incoming)) == if error.Some? then Err(error.value) else Ok(code)
    {
      JoinedNothing<TransportError>(code);
      if a.location.None? { return if a.class_.Zero? then None else Some(ParameterTransport); }
      if a.class_.Zero? { return Some(ParameterTransport); }
      match a.class_
      case Direct(words) =>
        if a.location.value.Registers? {
          return if words == a.location.value.words then None else Some(ParameterTransport);
        }
        if LaneCount(p.size) != words { return Some(DirectMemoryWidth); }
        if a.location.value.size < WORD_SIZE * words { return Some(ParameterTransport); }
        SelectLaneCopies(p, incoming + a.location.value.offset);
        error := None;
      case Indirect => error := SelectIndirectParameter(a.location.value, p, incoming);
      case Float32 => error := SelectFloatStackParameter(a.location.value, 4, p, incoming);
      case Float64 => error := SelectFloatStackParameter(a.location.value, 8, p, incoming);
    }

    method SelectIndirectParameter(location: Location, p: Parameter, incoming: nat) returns (error: Option<TransportError>)
      modifies this
      ensures Joined(old(code), LateCode(ArgumentAbi(Indirect, Some(location)), p, incoming)) == if error.Some? then Err(error.value) else Ok(code)
    {
      if location.Registers? {
        if location.words != 1 { return Some(ParameterTransport); }
        Push(Load(WORD_SIZE, 17, p.address));
      } else {
        if location.size < WORD_SIZE { return Some(ParameterTransport); }
        Push(Load(WORD_SIZE, 17, incoming + location.offset));
      }
      Push(CopyFrom(p.address, 17, p.size));
      assert code == old(code) + LateCode(ArgumentAbi(Indirect, Some(location)), p, incoming).value;
      error := None;
    }

    method SelectFloatStackParameter(location: Location, bytes: nat, p: Parameter, incoming: nat) returns (error: Option<TransportError>)
      modifies this
      ensures location.Registers? ==> error.None? && code == old(code)
      ensures location.Slot? ==> Joined(old(code), LateFloatCode(location.offset, location.size, bytes, p, incoming)) ==
                                 if error.Some? then Err(error.value) else Ok(code)
    {
      if location.Registers? { return None; }
      if location.size < bytes { return Some(ParameterTransport); }
      Push(FloatLoad(bytes, 30, incoming + location.offset));
      Push(FloatStore(bytes, p.address, InRegister(30)));
      assert code == old(code) + LateFloatCode(location.offset, location.size, bytes, p, incoming).value;
      error := None;
    }

    /// Register arguments are stored before any other argument is taken over.
    method SelectParameters(abi: seq<ArgumentAbi>, ps: seq<Parameter>, incoming: nat) returns (error: Option<TransportError>)
      modifies this
      ensures Joined(old(code), EntryCode(abi, ps, incoming)) == if error.Some? then Err(error.value) else Ok(code)
    {
      if |abi| != |ps| { return Some(ParameterTransport); }
      ghost var early, late := EarlyCodes(abi, ps, 0), LateCodes(abi, ps, 0, incoming);
      JoinedThen(code, early, late);
      assert EntryCode(abi, ps, incoming) == Then(early, late);
      hide EarlyCode, LateCode, Joined;
      for i := 0 to |abi|
        invariant Joined(code, EarlyCodes(abi, ps, i)) == Joined(old(code), early)
      {
        ghost var part := EarlyCode(abi[i], ps[i]);
        JoinedThen(code, part, EarlyCodes(abi, ps, i + 1));
        JoinedPart(code, part);
        error := SelectRegisterParameter(abi[i], ps[i]);
        JoinedPart(old(code), early);
        if error.Some? { return; }
      }
      JoinedNothing<TransportError>(code);
      JoinedPart(old(code), early);
      ghost var stored := code;
      for i := 0 to |abi|
        invariant Joined(code, LateCodes(abi, ps, i, incoming)) == Joined(stored, late)
      {
        ghost var part := LateCode(abi[i], ps[i], incoming);
        JoinedThen(code, part, LateCodes(abi, ps, i + 1, incoming));
        JoinedPart(code, part);
        error := SelectLateParameter(abi[i], ps[i], incoming);
        if error.Some? { return; }
      }
      JoinedNothing<TransportError>(code);
      error := None;
    }

    // -------------------------------------------------------------- the constructor

    method StageLanes(p: Parameter, first: nat, words: nat) returns (error: Option<CaptureError>)
      modifies this
      ensures Joined(old(code), StagedLanes(p, first, 0, words)) == if error.Some? then Err(error.value) else Ok(code)
    {
      for lane := 0 to words
        invariant Joined(code, StagedLanes(p, first, lane, words)) == Joined(old(code), StagedLanes(p, first, 0, words))
      {
        if lane >= LaneCount(p.size) { return Some(InvalidMemoryWidth); }
        if first + lane >= ARGUMENT_REGISTERS { return Some(BadRegister); }
        var store := Store(LaneWidth(p.size, lane), p.address + WORD_SIZE * lane, InRegister(first + lane));
        JoinedThen(code, Ok([store]), StagedLanes(p, first, lane + 1, words));
        Push(store);
      }
      JoinedNothing<CaptureError>(code);
      error := None;
    }

    method StageRegisterParameter(a: ArgumentAbi, p: Parameter) returns (error: Option<CaptureError>)
      modifies this
      ensures Joined(old(code), RegisterStaging(a, p)) == if error.Some? then Err(error.value) else Ok(code)
    {
      JoinedNothing<CaptureError>(code);
      if a.location.None? { return None; }
      if a.location.value.Slot? { return None; }
      var first, span := a.location.value.first, a.location.value.words;
      match a.class_
      case Zero => return None;
      case Direct(words) =>
        if words != span { return Some(BadTransport); }
        error := StageLanes(p, first, words);
      case Indirect =>
        if span != 1 || p.size < WORD_SIZE { return Some(BadTransport); }
        if first >= ARGUMENT_REGISTERS { return Some(BadRegister); }
        Push(Store(WORD_SIZE, p.address, InRegister(first)));
        error := None;
      case Float32 => error := StageFloat(first, span, 4, p);
      case Float64 => error := StageFloat(first, span, 8, p);
    }

    method StageFloat(first: nat, span: nat, bytes: nat, p: Parameter) returns (error: Option<CaptureError>)
      modifies this
      ensures span != 1 ==> error == Some(BadTransport)
      ensures span == 1 && first >= FLOATING_ARGUMENT_REGISTERS ==> error == Some(BadRegister)
      ensures span == 1 && first < FLOATING_ARGUMENT_REGISTERS ==>
                error.None? && code == old(code) + [FloatStore(bytes, p.address, InRegister(first))]
    {
      if span != 1 { return Some(BadTransport); }
      if first >= FLOATING_ARGUMENT_REGISTERS { return Some(BadRegister); }
      Push(FloatStore(bytes, p.address, InRegister(first)));
      error := None;
    }

    method CopyStackToObject(to: nat, from: nat, total: nat)
      modifies this
      ensures code == old(code) + StackChunks(to, from, total, 0)
    {
      var offset := 0;
      while offset < total
        invariant offset <= total && code + StackChunks(to, from, total, offset) == old(code) + StackChunks(to, from, total, 0)
      {
        var width := ChunkWidth(total - offset);
        Push(Load(width, 16, from + offset));
        Push(Store(width, to + offset, InRegister(16)));
        offset := offset + width;
      }
    }

    method StageStackParameter(a: ArgumentAbi, p: Parameter, incoming: nat) returns (error: Option<CaptureError>)
      modifies this
      ensures Joined(old(code), StackStaging(a, p, incoming)) == if error.Some? then Err(error.value) else Ok(code)
    {
      JoinedNothing<CaptureError>(code);
      if a.location.None? { return None; }
      if a.location.value.Registers? { return None; }
      if a.location.value.size < TransportBytes(a.class_) { return Some(BadTransport); }
      var stored := if a.class_.Indirect? then WORD_SIZE else p.size;
      if stored > p.size { return Some(FrameObjectBounds); }
      CopyStackToObject(p.address, incoming + a.location.value.offset, stored);
      error := None;
    }

    method CopyPointee(to: nat, total: nat)
      modifies this
      ensures code == old(code) + PointeeChunks(to, 0, total, 0)
    {
      var offset := 0;
      while offset < total
        invariant offset <= total && code + PointeeChunks(to, 0, total, offset) == old(code) + PointeeChunks(to, 0, total, 0)
      {
        var width := ChunkWidth(total - offset);
        Push(LoadThrough(width, 16, 0, offset));
        Push(Store(width, to + offset, InRegister(16)));
        offset := offset + width;
      }
    }

    method CloseIndirectParameter(a: ArgumentAbi, p: Parameter) returns (error: Option<CaptureError>)
      modifies this
      ensures Joined(old(code), IndirectClosing(a, p)) == if error.Some? then Err(error.value) else Ok(code)
    {
      JoinedNothing<CaptureError>(code);
      if !a.class_.Indirect? { return None; }
      if p.size < WORD_SIZE { return Some(FrameObjectBounds); }
      JoinedThen<CaptureError>(code, Ok([Load(WORD_SIZE, 0, p.address)]), Ok(PointeeChunks(p.address, 0, p.size, 0)));
      Push(Load(WORD_SIZE, 0, p.address));
      CopyPointee(p.address, p.size);
      error := None;
    }

    method CopyObjectToHeap(p: Parameter, field: Field, mapping: nat) returns (error: Option<CaptureError>)
      modifies this
      ensures Joined(old(code), CaptureCode(p, field, mapping)) == if error.Some? then Err(error.value) else Ok(code)
    {
      if p.size != field.size { return Some(CaptureLayout); }
      var offset := 0;
      while offset < p.size
        invariant offset <= p.size
        invariant code + HeapChunks(p.address, mapping, field.offset, p.size, offset) ==
                  old(code) + HeapChunks(p.address, mapping, field.offset, p.size, 0)
      {
        var width := ChunkWidth(p.size - offset);
        ghost var before := code;
        Push(Load(width, 16, p.address + offset));
        Push(Load(WORD_SIZE, 17, mapping));
        Push(StoreThrough(width, 17, field.offset + offset, 16));
        assert code == before + [Load(width, 16, p.address + offset), Load(WORD_SIZE, 17, mapping), StoreThrough(width, 17, field.offset + offset, 16)];
        offset := offset + width;
      }
      assert code == old(code) + HeapChunks(p.address, mapping, field.offset, p.size, 0);
      error := None;
    }

    /// Registers, then stack slots, then what the staged pointers point to.
    method StageParameters(abi: seq<ArgumentAbi>, ps: seq<Parameter>, incoming: nat) returns (error: Option<CaptureError>)
      requires |abi| == |ps|
      modifies this
      ensures Joined(old(code), StagingCode(abi, ps, incoming)) == if error.Some? then Err(error.value) else Ok(code)
    {
      ghost var early, stack, closing := RegisterStagings(abi, ps, 0), StackStagings(abi, ps, 0, incoming), IndirectClosings(abi, ps, 0);
      assert Joined(code, StagingCode(abi, ps, incoming)) == Joined(code, Then(early, Then(stack, closing))) by {
        if early.Ok? && stack.Ok? && closing.Ok? {
          assert early.value + stack.value + closing.value == early.value + (stack.value + closing.value);
        }
      }
      JoinedThen(code, early, Then(stack, closing));
      error := StageRegisters(abi, ps);
      JoinedPart(old(code), early);
      if error.Some? { return; }
      JoinedThen(code, stack, closing);
      ghost var first := code;
      error := StageStacks(abi, ps, incoming);
      JoinedPart(first, stack);
      if error.Some? { return; }
      error := CloseIndirects(abi, ps);
    }

    method StageRegisters(abi: seq<ArgumentAbi>, ps: seq<Parameter>) returns (error: Option<CaptureError>)
      requires |abi| == |ps|
      modifies this
      ensures Joined(old(code), RegisterStagings(abi, ps, 0)) == if error.Some? then Err(error.value) else Ok(code)
    {
      hide Joined, RegisterStaging;
      for i := 0 to |abi|
        invariant Joined(code, RegisterStagings(abi, ps, i)) == Joined(old(code), RegisterStagings(abi, ps, 0))
      {
        ghost var part := RegisterStaging(abi[i], ps[i]);
        JoinedThen(code, part, RegisterStagings(abi, ps, i + 1));
        JoinedPart(code, part);
        error := StageRegisterParameter(abi[i], ps[i]);
        if error.Some? { return; }
      }
      JoinedNothing<CaptureError>(code);
      error := None;
    }

    method StageStacks(abi: seq<ArgumentAbi>, ps: seq<Parameter>, incoming: nat) returns (error: Option<CaptureError>)
      requires |abi| == |ps|
      modifies this
      ensures Joined(old(code), StackStagings(abi, ps, 0, incoming)) == if error.Some? then Err(error.value) else Ok(code)
    {
      hide Joined, StackStaging;
      for i := 0 to |abi|
        invariant Joined(code, StackStagings(abi, ps, i, incoming)) == Joined(old(code), StackStagings(abi, ps, 0, incoming))
      {
        ghost var part := StackStaging(abi[i], ps[i], incoming);
        JoinedThen(code, part, StackStagings(abi, ps, i + 1, incoming));
        JoinedPart(code, part);
        error := StageStackParameter(abi[i], ps[i], incoming);
        if error.Some? { return; }
      }
      JoinedNothing<CaptureError>(code);
      error := None;
    }

    method CloseIndirects(abi: seq<ArgumentAbi>, ps: seq<Parameter>) returns (error: Option<CaptureError>)
      requires |abi| == |ps|
      modifies this
      ensures Joined(old(code), IndirectClosings(abi, ps, 0)) == if error.Some? then Err(error.value) else Ok(code)
    {
      hide Joined, IndirectClosing;
      for i := 0 to |abi|
        invariant Joined(code, IndirectClosings(abi, ps, i)) == Joined(old(code), IndirectClosings(abi, ps, 0))
      {
        ghost var part := IndirectClosing(abi[i], ps[i]);
        JoinedThen(code, part, IndirectClosings(abi, ps, i + 1));
        JoinedPart(code, part);
        error := CloseIndirectParameter(abi[i], ps[i]);
        if error.Some? { return; }
      }
      JoinedNothing<CaptureError>(code);
      error := None;
    }

    method CopyCapturesToHeap(ps: seq<Parameter>, fields: seq<Field>, mapping: nat) returns (error: Option<CaptureError>)
      requires |ps| == |fields|
      modifies this
      ensures Joined(old(code), Captures(ps, fields, 0, mapping)) == if error.Some? then Err(error.value) else Ok(code)
    {
      hide Joined, CaptureCode;
      for i := 0 to |ps|
        invariant Joined(code, Captures(ps, fields, i, mapping)) == Joined(old(code), Captures(ps, fields, 0, mapping))
      {
        ghost var part := CaptureCode(ps[i], fields[i], mapping);
        JoinedThen(code, part, Captures(ps, fields, i + 1, mapping));
        JoinedPart(code, part);
        error := CopyObjectToHeap(ps[i], fields[i], mapping);
        if error.Some? { return; }
      }
      JoinedNothing<CaptureError>(code);
      error := None;
    }
  }

  lemma JoinedPart<E>(code: seq<Instruction>, part: Result<seq<Instruction>, E>)
    ensures Joined(code, part) == if part.Err? then Err(part.error) else Ok(code + part.value)
  {
  }
}
