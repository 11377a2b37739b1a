/**
 The loops that select an address and emit the code that resolves it.
 */
module AddressBuilder {
  import opened Results
  import opened ByteRanges
  import opened Arithmetic
  import opened CodeLayout
  import opened CodeWords
  import opened Isa
  import opened Addresses
  import opened AddressCode

  // ---------------------------------------------------------------- selection

  /// A stack path of offsets alone, folded.
  method SelectStaticStack(s: Scope, a: Address) returns (r: Result<Option<Selected>, SelectionError>)
    ensures r == SelectStatic(s, a)
  {
    if !a.root.StackRoot? { return Ok(None); }
    if a.root.stack in s.persistent { return Ok(None); }
    var offset: Word64 := 0;
    for i := 0 to |a.steps|
      invariant StaticOffset(a.steps[i..], offset) == StaticOffset(a.steps, 0)
    {
      assert a.steps[i..][0] == a.steps[i] && a.steps[i..][1..] == a.steps[i + 1..];
      if !a.steps[i].Offset? { return Ok(None); }
      if offset + a.steps[i].offset >= M64 { return Err(AddressOverflow); }
      offset := offset + a.steps[i].offset;
    }
    if a.root.stack !in s.objects { return Err(UnknownStack(a.root.stack)); }
    return Ok(Some(Static(s.objects[a.root.stack], offset)));
  }

  /// The steps still to select, behind the ones selected.
  function Joined(selected: seq<SelectedStep>, rest: Result<(seq<SelectedStep>, bool), SelectionError>): Result<(seq<SelectedStep>, bool), SelectionError> {
    if rest.Err? then rest else Ok((selected + rest.value.0, rest.value.1))
  }

  lemma SelectedInTurn(s: Scope, selected: seq<SelectedStep>, steps: seq<Step>, view: bool)
    requires steps != []
    ensures Joined(selected, SelectSteps(s, steps, view)) ==
            var first := SelectStep(s, steps[0], view);
            if first.Err? then Err(first.error) else Joined(selected + [first.value.0], SelectSteps(s, steps[1..], first.value.1))
  {
    hide SelectStep;
    var first := SelectStep(s, steps[0], view);
    if first.Ok? {
      var rest := SelectSteps(s, steps[1..], first.value.1);
      if rest.Ok? {
        assert selected + ([first.value.0] + rest.value.0) == selected + [first.value.0] + rest.value.0;
      }
    }
  }

  method SelectAddress(s: Scope, a: Address) returns (r: Result<Selected, SelectionError>)
    ensures r == Select(s, a)
  {
    hide SelectStatic, SelectRoot;
    var fixed := SelectStaticStack(s, a);
    if fixed.Err? { return Err(fixed.error); }
    if fixed.value.Some? { return Ok(fixed.value.value); }
    var root := SelectRoot(s, a.root);
    if root.Err? { return Err(root.error); }
    var currentView := root.value.1;
    var steps: seq<SelectedStep> := [];
    assert a.steps[0..] == a.steps;
    NothingSelected(SelectSteps(s, a.steps, root.value.1));
    for i := 0 to |a.steps|
      invariant Joined(steps, SelectSteps(s, a.steps[i..], currentView)) == SelectSteps(s, a.steps, root.value.1)
    {
      ghost var rest := a.steps[i..];
      assert rest[0] == a.steps[i] && rest[1..] == a.steps[i + 1..];
      SelectedInTurn(s, steps, rest, currentView);
      match a.steps[i]
      case Offset(offset) =>
        steps := steps + [SelectedOffset(offset)];
      case OffsetValue(value) =>
        var register := OneWord(s, value);
        if register.Err? { return Err(register.error); }
        steps := steps + [OffsetRegister(register.value)];
      case Dereference =>
        currentView := false;
        steps := steps + [SelectedDereference];
      case ViewDereference(pointerOffset, lengthOffset) =>
        currentView := true;
        steps := steps + [SelectedViewDereference(pointerOffset, lengthOffset)];
      case IndexStep(index, stride, bound, check) =>
        if bound.CurrentView? && !currentView { return Err(ProjectedAddress); }
        currentView := false;
        var selected := SelectIndex(s, index);
        if selected.Err? { return Err(selected.error); }
        steps := steps + [SelectedIndexStep(selected.value, stride, bound, check)];
    }
    assert a.steps[|a.steps|..] == [];
    assert steps + [] == steps;
    assert Joined(steps, SelectSteps(s, [], currentView)) == Ok((steps, currentView));
    if currentView != a.expectsView { return Err(ProjectedAddress); }
    return Ok(Runtime(root.value.0, steps, currentView));
  }

  lemma NothingSelected(rest: Result<(seq<SelectedStep>, bool), SelectionError>)
    ensures Joined([], rest) == rest
  {
    if rest.Ok? {
      assert [] + rest.value.0 == rest.value.0;
    }
  }

  // ---------------------------------------------------------------- emission

  /// The code built so far.
  class AddressEmitter {
    var code: seq<Operation>

    constructor ()
      ensures code == []
    {
      code := [];
    }

    method Append(o: Operation)
      modifies this
      ensures code == old(code) + [o]
    {
      code := code + [o];
    }

    method EmitImmediate(destination: nat, value: Word64)
      modifies this
      ensures code == old(code) + Immediate(destination, value)
    {
      hide Piece, PartMove;
      var wroteZero := false;
      assert Lift([]) == [];
      for part := 0 to 4
        invariant code + Lift(ImmediateParts(destination, value, Bits64, part, wroteZero)) == old(code) + Immediate(destination, value)
      {
        var piece := Piece(value, part);
        if piece != 0 {
          LiftJoins([PartMove(destination, value, Bits64, part, wroteZero)], ImmediateParts(destination, value, Bits64, part + 1, true));
          code := code + [Core(PartMove(destination, value, Bits64, part, wroteZero))];
          wroteZero := true;
        }
      }
      if !wroteZero {
        code := code + [Core(MoveWideZero(Bits64, destination, 0, 0))];
      }
    }

    method EmitMove(source: nat, destination: nat)
      modifies this
      ensures code == old(code) + MoveCode(source, destination)
    {
      if source != destination {
        Append(AddImmediate(destination, source, 0));
      }
    }

    method EmitAddOffset(register: nat, offset: Word64)
      modifies this
      ensures code == old(code) + AddOffset(register, offset)
    {
      if offset == 0 { return; }
      if Encodable(offset) {
        Append(AddImmediate(register, register, offset));
        return;
      }
      var other := if register == SCRATCH_1 then SCRATCH_0 else SCRATCH_1;
      EmitImmediate(other, offset);
      Append(AddRegister(register, register, other));
    }

    method EmitLoadNative(destination: nat, base: nat, offset: Word64)
      requires base <= 1 && destination <= 1
      modifies this
      ensures code == old(code) + LoadNative(destination, base, offset)
    {
      hide Free, Immediate, MoveCode, ScaledOffset, CANDIDATES;
      ScratchIsFree(base, destination);
      if ScaledOffset(offset) {
        Append(LoadDouble(destination, base, offset));
        return;
      }
      var free := Free(CANDIDATES, base, [destination]);
      EmitMove(base, free[0]);
      EmitImmediate(free[1], offset);
      Append(AddRegister(free[0], free[0], free[1]));
      Append(LoadDouble(destination, free[0], 0));
    }

    method EmitFormStackAddress(destination: nat, offset: Word64)
      modifies this
      ensures code == old(code) + FormStackAddress(destination, offset)
    {
      if Encodable(offset) {
        Append(AddImmediate(destination, STACK_POINTER, offset));
        return;
      }
      EmitImmediate(destination, offset);
      Append(AddRegister(destination, STACK_POINTER, destination));
    }

    method EmitLoadStack(destination: nat, offset: Word64)
      modifies this
      ensures code == old(code) + LoadStack(destination, offset)
    {
      if ScaledOffset(offset) {
        Append(LoadDouble(destination, STACK_POINTER, offset));
        return;
      }
      EmitFormStackAddress(destination, offset);
      Append(LoadDouble(destination, destination, 0));
    }

    method EmitRead(l: Layout, register: nat, scratch: nat) returns (r: Result<nat, EmissionError>)
      modifies this
      ensures register >= |l.locations| ==> r == Err(UnknownVirtualRegister(register))
      ensures register < |l.locations| ==>
                r == Ok(ReadRegister(l.locations[register], scratch).1) && code == old(code) + ReadRegister(l.locations[register], scratch).0
    {
      if register >= |l.locations| { return Err(UnknownVirtualRegister(register)); }
      match l.locations[register]
      case Physical(physical) => r := Ok(physical);
      case Spilled(offset) =>
        EmitLoadStack(scratch, offset);
        r := Ok(scratch);
    }

    method EmitMoveSelected(l: Layout, register: nat, destination: nat) returns (r: Result<(), EmissionError>)
      modifies this
      ensures register >= |l.locations| ==> r == Err(UnknownVirtualRegister(register))
      ensures register < |l.locations| ==> r == Ok(()) && code == old(code) + MoveSelected(l.locations[register], destination)
    {
      var source := EmitRead(l, register, SCRATCH_0);
      if source.Err? { return Err(source.error); }
      EmitMove(source.value, destination);
      r := Ok(());
    }

    method EmitBoundsCheck(index: nat, bound: nat)
      modifies this
      ensures code == old(code) + BoundsCheck(index, bound)
    {
      Append(Core(AddSubtractRegister(Bits64, true, true, ZERO_REGISTER, index, bound)));
      // A branch over the trap when the index is below the bound.
      Append(Core(Skip(CarryClear, 2)));
      Append(Core(Break));
      assert [Core(CompareRegisters(Bits64, index, bound)[0]), Core(Skip(CarryClear, 2)), Core(Break)] == BoundsCheck(index, bound);
    }

    method EmitIndex(l: Layout, index: SelectedIndex, stride: Word64, bound: Bound, check: Check) returns (r: Result<(), EmissionError>)
      modifies this
      ensures IndexCode(l, index, stride, bound, check).Err? ==> r == Err(IndexCode(l, index, stride, bound, check).error)
      ensures IndexCode(l, index, stride, bound, check).Ok? ==> r == Ok(()) && code == old(code) + IndexCode(l, index, stride, bound, check).value
    {
      hide BoundsCheck, Immediate, ReadRegister, AddOffset;
      if check.ProvenTrap? {
        Append(Core(Break));
        return Ok(());
      }
      if check.ProvenInBounds? && index.ConstantIndex? {
        ProductIsMonotone(0, index.constant, stride);
        if index.constant * stride >= M64 { return Err(OffsetOverflow); }
        EmitAddOffset(ADDRESS, index.constant * stride);
        return Ok(());
      }
      var register;
      match index {
        case ConstantIndex(i) =>
          EmitImmediate(SCRATCH_0, i);
          register := SCRATCH_0;
        case RegisterIndex(v) =>
          var read := EmitRead(l, v, SCRATCH_0);
          if read.Err? { return Err(read.error); }
          register := read.value;
      }
      if check.Required? {
        if bound.CurrentView? {
          EmitBoundsCheck(register, VIEW_LENGTH);
        } else {
          EmitImmediate(SCRATCH_1, bound.length);
          EmitBoundsCheck(register, SCRATCH_1);
        }
      }
      EmitImmediate(SCRATCH_1, stride);
      Append(Core(MultiplyAdd(Bits64, ADDRESS, register, SCRATCH_1, ADDRESS, false)));
      r := Ok(());
    }

    method EmitStep(l: Layout, step: SelectedStep) returns (r: Result<(), EmissionError>)
      modifies this
      ensures StepCode(l, step).Err? ==> r == Err(StepCode(l, step).error)
      ensures StepCode(l, step).Ok? ==> r == Ok(()) && code == old(code) + StepCode(l, step).value
    {
      hide IndexCode, ReadRegister, AddOffset, LoadNative;
      match step
      case SelectedOffset(offset) =>
        EmitAddOffset(ADDRESS, offset);
        r := Ok(());
      case OffsetRegister(v) =>
        var read := EmitRead(l, v, SCRATCH_0);
        if read.Err? { return Err(read.error); }
        Append(AddRegister(ADDRESS, ADDRESS, read.value));
        r := Ok(());
      case SelectedDereference =>
        EmitLoadNative(ADDRESS, ADDRESS, 0);
        r := Ok(());
      case SelectedViewDereference(pointerOffset, lengthOffset) =>
        EmitLoadNative(VIEW_LENGTH, ADDRESS, lengthOffset);
        EmitLoadNative(ADDRESS, ADDRESS, pointerOffset);
        r := Ok(());
      case SelectedIndexStep(index, stride, bound, check) =>
        r := EmitIndex(l, index, stride, bound, check);
    }

    method EmitRoot(l: Layout, root: SelectedRoot) returns (r: Result<(), EmissionError>)
      modifies this
      ensures RootCode(l, root).Err? ==> r == Err(RootCode(l, root).error)
      ensures RootCode(l, root).Ok? ==> r == Ok(()) && code == old(code) + RootCode(l, root).value
    {
      hide FormStackAddress, LoadStack, AddOffset, MoveSelected;
      match root
      case FrameObject(o) =>
        if o !in l.objects { return Err(UnknownFrameObject(o)); }
        EmitFormStackAddress(ADDRESS, l.objects[o]);
        r := Ok(());
      case AsyncField(offset) =>
        if l.heapFramePointer.None? { return Err(MissingAsyncFramePointer); }
        EmitLoadStack(ADDRESS, l.heapFramePointer.value);
        EmitAddOffset(ADDRESS, offset);
        r := Ok(());
      case DataAddress(d) =>
        if d !in l.data { return Err(UnknownData(d)); }
        Append(LoadDataAddress(ADDRESS, d));
        r := Ok(());
      case Pointer(v) =>
        r := EmitMoveSelected(l, v, ADDRESS);
      case View(pointer, length) =>
        r := EmitMoveSelected(l, pointer, ADDRESS);
        if r.Err? { return; }
        r := EmitMoveSelected(l, length, VIEW_LENGTH);
    }

    method EmitResolve(l: Layout, root: SelectedRoot, steps: seq<SelectedStep>) returns (r: Result<(), EmissionError>)
      modifies this
      ensures ResolveCode(l, root, steps).Err? ==> r == Err(ResolveCode(l, root, steps).error)
      ensures ResolveCode(l, root, steps).Ok? ==> r == Ok(()) && code == old(code) + ResolveCode(l, root, steps).value
    {
      hide RootCode, StepCode;
      r := EmitRoot(l, root);
      if r.Err? { return; }
      ghost var rooted := code;
      assert steps[0..] == steps;
      for i := 0 to |steps|
        invariant StepsCode(l, steps[i..]).Err? ==> StepsCode(l, steps) == StepsCode(l, steps[i..])
        invariant StepsCode(l, steps[i..]).Ok? ==>
                    StepsCode(l, steps).Ok? && code + StepsCode(l, steps[i..]).value == rooted + StepsCode(l, steps).value
      {
        ghost var rest := steps[i..];
        assert rest[0] == steps[i] && rest[1..] == steps[i + 1..];
        r := EmitStep(l, steps[i]);
        if r.Err? { return; }
      }
      assert steps[|steps|..] == [];
      assert code == rooted + StepsCode(l, steps).value;
      r := Ok(());
    }
  }

  lemma LiftJoins(a: seq<Instruction>, b: seq<Instruction>)
    ensures Lift(a + b) == Lift(a) + Lift(b)
  {
  }
}
