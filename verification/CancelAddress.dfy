/**
 Addresses of what a cancelled deferred function destroys, resolved from its heap frame.

 The address is built in x16 and the length of the current view in x17, which are also the registers
 that wide offsets are materialized in. The lemmas say exactly what both registers hold after any step,
 at any offset; `CancelPath` compares that with what the path means.
 */
module CancelAddress {
  import opened Results
  import opened ByteRanges
  import opened Arithmetic
  import opened Isa
  import opened Addresses
  import opened AddressCode

  // ---------------------------------------------------------------- selection

  datatype CancelError =
    | UnavailableValue(value: nat)
    | NonWordValue(value: nat)
    | UnavailableStack(stack: nat)
    | InvalidViewLayout
    | MissingViewBound
    | ViewDestruction
    | NonOwnedAddress
    | OffsetsOverflow

  datatype FrameField = FrameField(offset: Word64, size: nat)

  /// The fields that one state keeps, and which values are single words.
  datatype FrameScope = FrameScope(values: map<nat, FrameField>, words: set<nat>, stacks: map<nat, FrameField>)

  datatype FrameIndex = FrameConstant(constant: Word64) | FrameWordIndex(offset: Word64)

  datatype FrameStep =
    | FrameOffset(offset: Word64)
    | OffsetFrame(offset: Word64)
    | FrameDereference
    | FrameViewDereference(pointerOffset: Word64, lengthOffset: Word64)
    | FrameIndexStep(index: FrameIndex, stride: Word64, bound: Bound, check: Check)

  datatype FrameRoot =
    | InFrame(offset: Word64)
    | FramePointer(offset: Word64)
    | FrameView(field: Word64, pointerOffset: Word64, lengthOffset: Word64)

  function RequireWord(s: FrameScope, value: nat): Result<Word64, CancelError> {
    if value !in s.values then Err(UnavailableValue(value))
    else if value !in s.words then Err(NonWordValue(value))
    else Ok(s.values[value].offset)
  }

  function SelectFrameRoot(s: FrameScope, root: Root): Result<(FrameRoot, bool), CancelError> {
    match root
    case StackRoot(stack) =>
      if stack !in s.stacks then Err(UnavailableStack(stack)) else Ok((InFrame(s.stacks[stack].offset), false))
    case PointerRoot(value) =>
      var word := RequireWord(s, value);
      if word.Err? then Err(word.error) else Ok((FramePointer(word.value), false))
    case ViewRoot(value, pointer, length) =>
      if value !in s.values then Err(UnavailableValue(value))
      else if pointer + WORD_SIZE > s.values[value].size || length + WORD_SIZE > s.values[value].size then Err(InvalidViewLayout)
      else Ok((FrameView(s.values[value].offset, pointer, length), true))
    case DataRoot(_) => Err(NonOwnedAddress)
  }

  function SelectFrameStep(s: FrameScope, step: Step, view: bool): Result<(FrameStep, bool), CancelError> {
    match step
    case Offset(o) => Ok((FrameOffset(o), view))
    case OffsetValue(v) =>
      var word := RequireWord(s, v);
      if word.Err? then Err(word.error) else Ok((OffsetFrame(word.value), view))
    case Dereference => Ok((FrameDereference, false))
    case ViewDereference(pointer, length) => Ok((FrameViewDereference(pointer, length), true))
    case IndexStep(index, stride, bound, check) =>
      if bound.CurrentView? && !view then Err(MissingViewBound)
      else
        match index
        case Constant(i) => Ok((FrameIndexStep(FrameConstant(i), stride, bound, check), false))
        case FromValue(v) =>
          var word := RequireWord(s, v);
          if word.Err? then Err(word.error) else Ok((FrameIndexStep(FrameWordIndex(word.value), stride, bound, check), false))
  }

  function SelectFrameSteps(s: FrameScope, steps: seq<Step>, view: bool): Result<seq<FrameStep>, CancelError>
    decreases |steps|
  {
    if steps == [] then (if view then Err(ViewDestruction) else Ok([]))
    else
      var first := SelectFrameStep(s, steps[0], view);
      if first.Err? then Err(first.error)
      else
        var rest := SelectFrameSteps(s, steps[1..], first.value.1);
        if rest.Err? then rest else Ok([first.value.0] + rest.value)
  }

  function SelectFrameAddress(s: FrameScope, a: Address): Result<(FrameRoot, seq<FrameStep>), CancelError> {
    if a.expectsView then Err(ViewDestruction)
    else
      var root := SelectFrameRoot(s, a.root);
      if root.Err? then Err(root.error)
      else
        var steps := SelectFrameSteps(s, a.steps, root.value.1);
        if steps.Err? then Err(steps.error) else Ok((root.value.0, steps.value))
  }

  /// The steps still to select, behind the ones selected.
  function Behind(selected: seq<FrameStep>, rest: Result<seq<FrameStep>, CancelError>): Result<seq<FrameStep>, CancelError> {
    if rest.Err? then rest else Ok(selected + rest.value)
  }

  lemma SelectedInTurn(s: FrameScope, selected: seq<FrameStep>, steps: seq<Step>, view: bool)
    requires steps != []
    ensures Behind(selected, SelectFrameSteps(s, steps, view)) ==
            var first := SelectFrameStep(s, steps[0], view);
            if first.Err? then Err(first.error) else Behind(selected + [first.value.0], SelectFrameSteps(s, steps[1..], first.value.1))
  {
    hide SelectFrameStep;
    var first := SelectFrameStep(s, steps[0], view);
    if first.Ok? {
      var rest := SelectFrameSteps(s, steps[1..], first.value.1);
      if rest.Ok? {
        assert selected + ([first.value.0] + rest.value) == selected + [first.value.0] + rest.value;
      }
    }
  }

  lemma NothingSelected(rest: Result<seq<FrameStep>, CancelError>)
    ensures Behind([], rest) == rest
  {
    if rest.Ok? {
      assert [] + rest.value == rest.value;
    }
  }

  /// The loop over the steps, with the view tracked in a variable.
  method SelectAddressSteps(s: FrameScope, source: seq<Step>, rootView: bool) returns (r: Result<seq<FrameStep>, CancelError>)
    ensures r == SelectFrameSteps(s, source, rootView)
  {
    var currentView := rootView;
    var steps: seq<FrameStep> := [];
    assert source[0..] == source;
    NothingSelected(SelectFrameSteps(s, source, rootView));
    for i := 0 to |source|
      invariant Behind(steps, SelectFrameSteps(s, source[i..], currentView)) == SelectFrameSteps(s, source, rootView)
    {
      ghost var rest := source[i..];
      assert rest[0] == source[i] && rest[1..] == source[i + 1..];
      SelectedInTurn(s, steps, rest, currentView);
      match source[i]
      case Offset(offset) =>
        steps := steps + [FrameOffset(offset)];
      case OffsetValue(value) =>
        var word := RequireWord(s, value);
        if word.Err? { return Err(word.error); }
        steps := steps + [OffsetFrame(word.value)];
      case Dereference =>
        currentView := false;
        steps := steps + [FrameDereference];
      case ViewDereference(pointerOffset, lengthOffset) =>
        currentView := true;
        steps := steps + [FrameViewDereference(pointerOffset, lengthOffset)];
      case IndexStep(index, stride, bound, check) =>
        if bound.CurrentView? && !currentView { return Err(MissingViewBound); }
        currentView := false;
        match index {
          case Constant(constant) =>
            steps := steps + [FrameIndexStep(FrameConstant(constant), stride, bound, check)];
          case FromValue(value) =>
            var word := RequireWord(s, value);
            if word.Err? { return Err(word.error); }
            steps := steps + [FrameIndexStep(FrameWordIndex(word.value), stride, bound, check)];
        }
    }
    assert source[|source|..] == [];
    if currentView { return Err(ViewDestruction); }
    assert steps + [] == steps;
    return Ok(steps);
  }

  // ---------------------------------------------------------------- code

  const DESTINATION: nat := 16
  const LENGTH: nat := 17
  const FIRST: nat := 0
  const SECOND: nat := 1

  /// A word of the heap frame, whose address is at `mapping` on the stack.
  function FrameWord(destination: nat, offset: Word64, mapping: Word64): seq<Operation> {
    LoadStack(SECOND, mapping) + LoadNative(destination, SECOND, offset)
  }

  function LoadIndex(index: FrameIndex, mapping: Word64): seq<Operation> {
    match index
    case FrameConstant(i) => Immediate(FIRST, i)
    case FrameWordIndex(offset) => FrameWord(FIRST, offset, mapping)
  }

  function AdvanceFrame(stride: Word64): seq<Operation> {
    Immediate(SECOND, stride) + [Core(MultiplyAdd(Bits64, DESTINATION, FIRST, SECOND, DESTINATION, false))]
  }

  function FrameBoundCode(bound: Bound): seq<Operation> {
    if bound.CurrentView? then BoundsCheck(FIRST, LENGTH) else Immediate(SECOND, bound.length) + BoundsCheck(FIRST, SECOND)
  }

  function FrameIndexCode(index: FrameIndex, stride: Word64, bound: Bound, check: Check, mapping: Word64): Result<seq<Operation>, CancelError> {
    if check.ProvenTrap? then Ok([Core(Break)])
    else if check.ProvenInBounds? && index.FrameConstant? then
      ProductIsMonotone(0, index.constant, stride);
      if index.constant * stride >= M64 then Err(OffsetsOverflow) else Ok(AddOffset(DESTINATION, index.constant * stride))
    else Ok(LoadIndex(index, mapping) + ((if check.Required? then FrameBoundCode(bound) else []) + AdvanceFrame(stride)))
  }

  function FrameStepCode(step: FrameStep, mapping: Word64): Result<seq<Operation>, CancelError> {
    match step
    case FrameOffset(o) => Ok(AddOffset(DESTINATION, o))
    case OffsetFrame(o) => Ok(FrameWord(SECOND, o, mapping) + [AddRegister(DESTINATION, DESTINATION, SECOND)])
    case FrameDereference => Ok(LoadNative(DESTINATION, DESTINATION, 0))
    case FrameViewDereference(pointer, length) =>
      Ok(LoadNative(LENGTH, DESTINATION, length) + LoadNative(DESTINATION, DESTINATION, pointer))
    case FrameIndexStep(index, stride, bound, check) => FrameIndexCode(index, stride, bound, check, mapping)
  }

  function FrameStepsCode(steps: seq<FrameStep>, mapping: Word64): Result<seq<Operation>, CancelError> {
    if steps == [] then Ok([])
    else
      var first := FrameStepCode(steps[0], mapping);
      if first.Err? then first
      else
        var rest := FrameStepsCode(steps[1..], mapping);
        if rest.Err? then rest else Ok(first.value + rest.value)
  }

  /// The length first, then the pointer.
  function FrameRootCode(root: FrameRoot, mapping: Word64): Result<seq<Operation>, CancelError> {
    match root
    case InFrame(offset) => Ok(LoadStack(DESTINATION, mapping) + AddOffset(DESTINATION, offset))
    case FramePointer(offset) => Ok(FrameWord(DESTINATION, offset, mapping))
    case FrameView(field, pointer, length) =>
      if field + length >= M64 || field + pointer >= M64 then Err(OffsetsOverflow)
      else Ok(FrameWord(LENGTH, field + length, mapping) + FrameWord(DESTINATION, field + pointer, mapping))
  }

  /// The address ends in x0.
  function FrameAddressCode(root: FrameRoot, steps: seq<FrameStep>, mapping: Word64): Result<seq<Operation>, CancelError> {
    var first := FrameRootCode(root, mapping);
    if first.Err? then first
    else
      var rest := FrameStepsCode(steps, mapping);
      if rest.Err? then rest else Ok(first.value + rest.value + MoveCode(DESTINATION, FIRST))
  }

  // ---------------------------------------------------------------- what the registers hold

  /// The address and the length register while a path is resolved.
  datatype Held = Held(address: Word64, length: Word64)

  /// A wide offset is materialized in the length register.
  function AfterOffset(offset: Word64, h: Held): Held {
    Held(Sum(h.address, offset), if Encodable(offset) then h.length else offset)
  }

  /// A frame word at a wide offset is read through both registers.
  function AfterFrameWord(offset: Word64, base: Word64, h: Held): Held {
    if ScaledOffset(offset) then h else Held(offset, Sum(base, offset))
  }

  function IndexValue(index: FrameIndex, base: Word64, memory: Word64 -> Word64): Word64 {
    if index.FrameConstant? then index.constant else memory(Sum(base, index.offset))
  }

  /// Nothing when the code traps.
  function HeldIndex(index: FrameIndex, stride: Word64, bound: Bound, check: Check, h: Held, base: Word64, memory: Word64 -> Word64): Option<Held> {
    if check.ProvenTrap? then None
    else if check.ProvenInBounds? && index.FrameConstant? then Some(AfterOffset(Sum(index.constant * stride, 0), h))
    else
      var g := if index.FrameWordIndex? then AfterFrameWord(index.offset, base, h) else h;
      var i := IndexValue(index, base, memory);
      if check.Required? && i >= (if bound.CurrentView? then g.length else bound.length) then None
      else Some(g.(address := Sum(g.address, i * stride)))
  }

  function HeldStep(step: FrameStep, h: Held, base: Word64, memory: Word64 -> Word64): Option<Held> {
    match step
    case FrameOffset(o) => Some(AfterOffset(o, h))
    case OffsetFrame(o) =>
      var g := AfterFrameWord(o, base, h);
      Some(g.(address := Sum(g.address, memory(Sum(base, o)))))
    case FrameDereference => Some(Held(memory(h.address), h.length))
    case FrameViewDereference(pointer, size) =>
      Some(Held(memory(Sum(h.address, pointer)),
                if ScaledOffset(pointer) then memory(Sum(h.address, size)) else Sum(h.address, pointer)))
    case FrameIndexStep(index, stride, bound, check) => HeldIndex(index, stride, bound, check, h, base, memory)
  }

  function HeldSteps(steps: seq<FrameStep>, h: Held, base: Word64, memory: Word64 -> Word64): Option<Held>
    decreases |steps|
  {
    if steps == [] then Some(h)
    else
      var next := HeldStep(steps[0], h, base, memory);
      if next.None? then None else HeldSteps(steps[1..], next.value, base, memory)
  }

  /// The root leaves the length register alone when there is no view and its offset is narrow.
  function HeldRoot(root: FrameRoot, length: Word64, base: Word64, memory: Word64 -> Word64): Held {
    match root
    case InFrame(offset) => AfterOffset(offset, Held(base, length))
    case FramePointer(offset) => Held(memory(Sum(base, offset)), if ScaledOffset(offset) then length else Sum(base, offset))
    case FrameView(field, pointer, size) =>
      Held(memory(Sum(base, field + pointer)),
           if ScaledOffset(field + pointer) then memory(Sum(base, field + size)) else Sum(base, field + pointer))
  }

  // ---------------------------------------------------------------- loads from the frame

  const CANCEL_CLOBBERED: set<nat> := {0, 1, 2, 3, 16, 17}

  lemma NarrowLoad(d: nat, base: nat, offset: Word64, s: State, w: World)
    requires ScaledOffset(offset) && d != ZERO_REGISTER
    ensures AllStraight(LoadNative(d, base, offset))
    ensures var t := After(LoadNative(d, base, offset), s, w);
            Reg(t, d) == w.memory(Sum(Reg(s, base), offset)) && Touches(s, t, {d})
  {
    NarrowLoadForm(d, base, offset);
    LoadLoads(d, base, offset, s, w);
    hide Put, Sum, Reg, Low, LoadNative, After;
  }

  lemma NarrowLoadForm(d: nat, base: nat, offset: Word64)
    requires ScaledOffset(offset)
    ensures LoadNative(d, base, offset) == [LoadDouble(d, base, offset)]
  {
    hide Free;
  }

  lemma WideLoadForm(d: nat, base: nat, x: nat, y: nat, offset: Word64)
    requires !ScaledOffset(offset) && |Free(CANDIDATES, base, [d])| >= 2
    requires Free(CANDIDATES, base, [d])[0] == x && Free(CANDIDATES, base, [d])[1] == y
    ensures LoadNative(d, base, offset) == MoveCode(base, x) + (Immediate(y, offset) + [AddRegister(x, x, y)]) + [LoadDouble(d, x, 0)]
  {
    hide Free, MoveCode, Immediate;
  }

  /// A wide offset stays in the register that it was materialized in.
  lemma OffsetStaysBehind(d: nat, left: nat, scratch: nat, offset: Word64, s: State, w: World)
    requires d != ZERO_REGISTER && scratch != ZERO_REGISTER && d != scratch
    ensures AllStraight(Immediate(scratch, offset) + [AddRegister(d, left, scratch)])
    ensures Reg(After(Immediate(scratch, offset) + [AddRegister(d, left, scratch)], s, w), scratch) == offset
  {
    hide Reg, Put, Low, Sum, After, AllStraight, Immediate, Touches;
    var load, add := Immediate(scratch, offset), AddRegister(d, left, scratch);
    ImmediateIsLoaded(scratch, offset, s, w);
    AddIsStraight(d, left, scratch);
    AfterJoin(load, [add], s, w);
    var u := Put(s, scratch, Bits64, offset);
    PutTouches(s, scratch, offset);
    WordIsLow(offset);
    AddRegisterAdds(d, left, scratch, u, w);
    var sum := Sum(Reg(u, left), Reg(u, scratch));
    PutTouches(u, d, sum);
    TouchesSpares(u, Put(u, d, Bits64, sum), {d}, scratch);
  }

  /// What two scratch registers do to a load that they are free for.
  lemma WideLoad(d: nat, base: nat, x: nat, y: nat, offset: Word64, s: State, w: World)
    requires !ScaledOffset(offset) && |Free(CANDIDATES, base, [d])| >= 2
    requires Free(CANDIDATES, base, [d])[0] == x && Free(CANDIDATES, base, [d])[1] == y
    requires x != y && x != base && x < ZERO_REGISTER && y < ZERO_REGISTER && d != ZERO_REGISTER
    ensures AllStraight(LoadNative(d, base, offset))
    ensures var t := After(LoadNative(d, base, offset), s, w);
            && Reg(t, d) == w.memory(Sum(Reg(s, base), offset)) && Touches(s, t, {d, x, y})
            && (d != x ==> Reg(t, x) == Sum(Reg(s, base), offset)) && (d != y ==> Reg(t, y) == offset)
  {
    hide Put, Sum, Reg, Low, LoadNative, MoveCode, Immediate, After, AllStraight, Touches, ScaledOffset, Free;
    var move, add, load := MoveCode(base, x), Immediate(y, offset) + [AddRegister(x, x, y)], [LoadDouble(d, x, 0)];
    WideLoadForm(d, base, x, y, offset);
    MoveMoves(base, x, s, w);
    var t := After(move, s, w);
    LargeOffsetAdds(x, x, y, offset, t, w);
    OffsetStaysBehind(x, x, y, offset, t, w);
    var u := After(add, t, w);
    WordIsLow(Sum(Reg(s, base), offset));
    LoadLoads(d, x, 0, u, w);
    var v := After(load, u, w);
    if d != x {
      TouchesSpares(u, v, {d}, x);
    }
    if d != y {
      TouchesSpares(u, v, {d}, y);
    }
    AfterJoin(move, add, s, w);
    AfterJoin(move + add, load, s, w);
    TouchesJoin(s, t, u, {x}, {x, y});
    TouchesJoin(s, u, v, {x} + {x, y}, {d});
    assert {x} + {x, y} + {d} == {d, x, y};
  }

  /// The registers that loads in this module find free.
  lemma FreeRegisters(base: nat, d: nat)
    requires base in {1, 16} && d in {0, 1, 16, 17} && (base == 16 ==> d >= 16)
    ensures var free := Free(CANDIDATES, base, [d]);
            && |free| >= 2
            && free[0] == (if base != 17 && d != 17 then 17 else if base != 16 && d != 16 then 16 else 2)
            && free[1] == (if base == 1 && d <= 1 then 16 else if base == 16 && d == 17 then 1 else 2)
  {
    FreeUnfolds(CANDIDATES, base, d);
    FreeUnfolds([16, 2, 1, 3], base, d);
    FreeUnfolds([2, 1, 3], base, d);
    FreeUnfolds([1, 3], base, d);
    hide Free;
    assert CANDIDATES[1..] == [16, 2, 1, 3] && [16, 2, 1, 3][1..] == [2, 1, 3] && [2, 1, 3][1..] == [1, 3] && [1, 3][1..] == [3];
  }

  lemma FreeUnfolds(candidates: seq<nat>, base: nat, d: nat)
    requires candidates != []
    ensures Free(candidates, base, [d]) ==
            (if candidates[0] == base || candidates[0] == d then [] else [candidates[0]]) + Free(candidates[1..], base, [d])
  {
  }

  lemma LoadIsStraight(d: nat, base: nat, offset: Word64, s: State, w: World)
    requires base in {1, 16} && d in {0, 1, 16, 17} && (base == 16 ==> d >= 16)
    ensures AllStraight(LoadNative(d, base, offset))
  {
    if ScaledOffset(offset) {
      NarrowLoad(d, base, offset, s, w);
    } else {
      FreeRegisters(base, d);
      var free := Free(CANDIDATES, base, [d]);
      hide Free, LoadNative, AllStraight, After, Touches, Reg, Sum;
      WideLoad(d, base, free[0], free[1], offset, s, w);
    }
  }

  // ---------------------------------------------------------------- the code computes what is held

  /// The frame word that the mapping slot leads to.
  function FrameBase(s: State, mapping: Word64, w: World): Word64 {
    w.memory(Sum(Reg(s, STACK_POINTER), mapping))
  }

  ghost predicate FrameKept(s0: State, s: State) {
    Touches(s0, s, CANCEL_CLOBBERED)
  }

  lemma FrameKeptMore(s0: State, s: State, t: State, touched: set<nat>)
    requires FrameKept(s0, s) && Touches(s, t, touched) && touched <= CANCEL_CLOBBERED
    ensures FrameKept(s0, t)
  {
    hide Reg;
  }

  lemma BaseIsKept(s0: State, s: State, mapping: Word64, w: World)
    requires FrameKept(s0, s)
    ensures FrameBase(s, mapping, w) == FrameBase(s0, mapping, w)
  {
    hide Reg, Sum;
  }

  lemma FrameKeptSelf(s: State)
    ensures FrameKept(s, s)
  {
  }

  function Holding(s: State): Held {
    Held(Reg(s, DESTINATION), Reg(s, LENGTH))
  }

  /// Code without branches that leaves `h` in the two registers.
  ghost predicate Computes(code: seq<Operation>, h: Held, s: State, w: World) {
    AllStraight(code) && Holding(After(code, s, w)) == h && Touches(s, After(code, s, w), CANCEL_CLOBBERED)
  }

  /// A frame word read into x0 or x1.
  lemma FrameWordIsRead(d: nat, offset: Word64, mapping: Word64, s: State, w: World)
    requires d <= 1
    ensures Computes(FrameWord(d, offset, mapping), AfterFrameWord(offset, FrameBase(s, mapping, w), Holding(s)), s, w)
    ensures Reg(After(FrameWord(d, offset, mapping), s, w), d) == w.memory(Sum(FrameBase(s, mapping, w), offset))
  {
    hide Put, Sum, Reg, Low, LoadNative, LoadStack, After, AllStraight, Touches, ScaledOffset, Free;
    var read, load := LoadStack(SECOND, mapping), LoadNative(d, SECOND, offset);
    LoadIsStraight(d, SECOND, offset, s, w);
    LoadStackLoads(SECOND, mapping, s, w);
    var t := After(read, s, w);
    TouchesSpares(s, t, {SECOND}, DESTINATION);
    TouchesSpares(s, t, {SECOND}, LENGTH);
    AfterJoin(read, load, s, w);
    var u := After(read + load, s, w);
    if ScaledOffset(offset) {
      NarrowLoad(d, SECOND, offset, t, w);
      TouchesSpares(t, u, {d}, DESTINATION);
      TouchesSpares(t, u, {d}, LENGTH);
      TouchesJoin(s, t, u, {SECOND}, {d});
      TouchesMore(s, u, {SECOND} + {d}, CANCEL_CLOBBERED);
    } else {
      FreeRegisters(SECOND, d);
      WideLoad(d, SECOND, LENGTH, DESTINATION, offset, t, w);
      TouchesJoin(s, t, u, {SECOND}, {d, LENGTH, DESTINATION});
      TouchesMore(s, u, {SECOND} + {d, LENGTH, DESTINATION}, CANCEL_CLOBBERED);
    }
  }

  /// A frame word read into the address register.
  lemma AddressIsRead(offset: Word64, mapping: Word64, s: State, w: World)
    ensures var base := FrameBase(s, mapping, w);
            Computes(FrameWord(DESTINATION, offset, mapping),
                     Held(w.memory(Sum(base, offset)), if ScaledOffset(offset) then Reg(s, LENGTH) else Sum(base, offset)), s, w)
  {
    hide Put, Sum, Reg, Low, LoadNative, LoadStack, After, AllStraight, Touches, ScaledOffset, Free;
    var read, load := LoadStack(SECOND, mapping), LoadNative(DESTINATION, SECOND, offset);
    LoadIsStraight(DESTINATION, SECOND, offset, s, w);
    LoadStackLoads(SECOND, mapping, s, w);
    var t := After(read, s, w);
    TouchesSpares(s, t, {SECOND}, LENGTH);
    AfterJoin(read, load, s, w);
    var u := After(read + load, s, w);
    if ScaledOffset(offset) {
      NarrowLoad(DESTINATION, SECOND, offset, t, w);
      TouchesSpares(t, u, {DESTINATION}, LENGTH);
      TouchesJoin(s, t, u, {SECOND}, {DESTINATION});
      TouchesMore(s, u, {SECOND} + {DESTINATION}, CANCEL_CLOBBERED);
    } else {
      FreeRegisters(SECOND, DESTINATION);
      WideLoad(DESTINATION, SECOND, LENGTH, 2, offset, t, w);
      TouchesJoin(s, t, u, {SECOND}, {DESTINATION, LENGTH, 2});
      TouchesMore(s, u, {SECOND} + {DESTINATION, LENGTH, 2}, CANCEL_CLOBBERED);
    }
  }

  /// The length of a view root is read before its pointer.
  lemma LengthIsRead(offset: Word64, mapping: Word64, s: State, w: World)
    ensures AllStraight(FrameWord(LENGTH, offset, mapping))
    ensures var t := After(FrameWord(LENGTH, offset, mapping), s, w);
            Reg(t, LENGTH) == w.memory(Sum(FrameBase(s, mapping, w), offset)) && Touches(s, t, CANCEL_CLOBBERED)
  {
    hide Put, Sum, Reg, Low, LoadNative, LoadStack, After, AllStraight, Touches, ScaledOffset, Free;
    var read, load := LoadStack(SECOND, mapping), LoadNative(LENGTH, SECOND, offset);
    LoadIsStraight(LENGTH, SECOND, offset, s, w);
    LoadStackLoads(SECOND, mapping, s, w);
    var t := After(read, s, w);
    AfterJoin(read, load, s, w);
    var u := After(read + load, s, w);
    if ScaledOffset(offset) {
      NarrowLoad(LENGTH, SECOND, offset, t, w);
      TouchesJoin(s, t, u, {SECOND}, {LENGTH});
      TouchesMore(s, u, {SECOND} + {LENGTH}, CANCEL_CLOBBERED);
    } else {
      FreeRegisters(SECOND, LENGTH);
      WideLoad(LENGTH, SECOND, DESTINATION, 2, offset, t, w);
      TouchesJoin(s, t, u, {SECOND}, {LENGTH, DESTINATION, 2});
      TouchesMore(s, u, {SECOND} + {LENGTH, DESTINATION, 2}, CANCEL_CLOBBERED);
    }
  }

  lemma OffsetComputes(offset: Word64, s: State, w: World)
    ensures Computes(AddOffset(DESTINATION, offset), AfterOffset(offset, Holding(s)), s, w)
  {
    hide Immediate, Put, Sum, Reg, Low;
    if offset == 0 {
      WordIsLow(Reg(s, DESTINATION));
    } else if Encodable(offset) {
      AddImmediateAdds(DESTINATION, DESTINATION, offset, s, w);
      PutTouches(s, DESTINATION, Sum(Reg(s, DESTINATION), offset));
      WordIsLow(Sum(Reg(s, DESTINATION), offset));
    } else {
      LargeOffsetAdds(DESTINATION, DESTINATION, LENGTH, offset, s, w);
      OffsetStaysBehind(DESTINATION, DESTINATION, LENGTH, offset, s, w);
      hide After, Touches;
      TouchesMore(s, After(AddOffset(DESTINATION, offset), s, w), {DESTINATION, LENGTH}, CANCEL_CLOBBERED);
    }
  }

  lemma ComputesInTurn(a: seq<Operation>, b: seq<Operation>, g: Held, h: Held, s: State, w: World)
    requires Computes(a, g, s, w) && Computes(b, h, After(a, s, w), w)
    ensures Computes(a + b, h, s, w) && After(a + b, s, w) == After(b, After(a, s, w), w)
  {
    hide After, AllStraight, Touches;
    AfterJoin(a, b, s, w);
    TouchesJoin(s, After(a, s, w), After(b, After(a, s, w), w), CANCEL_CLOBBERED, CANCEL_CLOBBERED);
    assert CANCEL_CLOBBERED + CANCEL_CLOBBERED == CANCEL_CLOBBERED;
  }

  /// Adding x1 to the address.
  lemma AddComputes(s: State, w: World)
    ensures Computes([AddRegister(DESTINATION, DESTINATION, SECOND)], Held(Sum(Reg(s, DESTINATION), Reg(s, SECOND)), Reg(s, LENGTH)), s, w)
  {
    hide Put, Sum, Reg, Low, After, AllStraight, Touches;
    AddIsStraight(DESTINATION, DESTINATION, SECOND);
    AddRegisterAdds(DESTINATION, DESTINATION, SECOND, s, w);
    var sum := Sum(Reg(s, DESTINATION), Reg(s, SECOND));
    PutTouches(s, DESTINATION, sum);
    WordIsLow(sum);
    TouchesSpares(s, Put(s, DESTINATION, Bits64, sum), {DESTINATION}, LENGTH);
    TouchesMore(s, Put(s, DESTINATION, Bits64, sum), {DESTINATION}, CANCEL_CLOBBERED);
  }

  /// The length of a view is loaded through x2 and x1 at most, its pointer through x17 and x2.
  lemma ViewDereferenceComputes(pointer: Word64, size: Word64, s: State, w: World)
    ensures Computes(LoadNative(LENGTH, DESTINATION, size) + LoadNative(DESTINATION, DESTINATION, pointer),
                     HeldStep(FrameViewDereference(pointer, size), Holding(s), 0, w.memory).value, s, w)
  {
    hide Put, Sum, Reg, Low, LoadNative, After, AllStraight, Touches, ScaledOffset, Free;
    var a, b := LoadNative(LENGTH, DESTINATION, size), LoadNative(DESTINATION, DESTINATION, pointer);
    LengthLoads(size, s, w);
    PointerLoads(pointer, After(a, s, w), w);
    ComputesInTurn(a, b, Held(Reg(s, DESTINATION), w.memory(Sum(Reg(s, DESTINATION), size))),
                   HeldStep(FrameViewDereference(pointer, size), Holding(s), 0, w.memory).value, s, w);
  }

  lemma LengthLoads(size: Word64, s: State, w: World)
    ensures Computes(LoadNative(LENGTH, DESTINATION, size), Held(Reg(s, DESTINATION), w.memory(Sum(Reg(s, DESTINATION), size))), s, w)
  {
    hide Put, Sum, Reg, Low, LoadNative, After, AllStraight, Touches, ScaledOffset, Free;
    LoadIsStraight(LENGTH, DESTINATION, size, s, w);
    var t := After(LoadNative(LENGTH, DESTINATION, size), s, w);
    if ScaledOffset(size) {
      NarrowLoad(LENGTH, DESTINATION, size, s, w);
      TouchesSpares(s, t, {LENGTH}, DESTINATION);
      TouchesMore(s, t, {LENGTH}, CANCEL_CLOBBERED);
    } else {
      FreeRegisters(DESTINATION, LENGTH);
      WideLoad(LENGTH, DESTINATION, 2, 1, size, s, w);
      TouchesSpares(s, t, {LENGTH, 2, 1}, DESTINATION);
      TouchesMore(s, t, {LENGTH, 2, 1}, CANCEL_CLOBBERED);
    }
  }

  lemma PointerLoads(pointer: Word64, s: State, w: World)
    ensures var at := Sum(Reg(s, DESTINATION), pointer);
            Computes(LoadNative(DESTINATION, DESTINATION, pointer), Held(w.memory(at), if ScaledOffset(pointer) then Reg(s, LENGTH) else at), s, w)
  {
    hide Put, Sum, Reg, Low, LoadNative, After, AllStraight, Touches, ScaledOffset, Free;
    LoadIsStraight(DESTINATION, DESTINATION, pointer, s, w);
    var t := After(LoadNative(DESTINATION, DESTINATION, pointer), s, w);
    if ScaledOffset(pointer) {
      NarrowLoad(DESTINATION, DESTINATION, pointer, s, w);
      TouchesSpares(s, t, {DESTINATION}, LENGTH);
      TouchesMore(s, t, {DESTINATION}, CANCEL_CLOBBERED);
    } else {
      FreeRegisters(DESTINATION, DESTINATION);
      WideLoad(DESTINATION, DESTINATION, LENGTH, 2, pointer, s, w);
      TouchesMore(s, t, {DESTINATION, LENGTH, 2}, CANCEL_CLOBBERED);
    }
  }

  lemma IndexIsLoaded(index: FrameIndex, mapping: Word64, s: State, w: World)
    ensures var base := FrameBase(s, mapping, w);
            && Computes(LoadIndex(index, mapping), if index.FrameWordIndex? then AfterFrameWord(index.offset, base, Holding(s)) else Holding(s), s, w)
            && Reg(After(LoadIndex(index, mapping), s, w), FIRST) == IndexValue(index, base, w.memory)
  {
    hide Put, Sum, Reg, Low, Immediate, FrameWord, After, AllStraight, Touches, ScaledOffset, FrameBase;
    if index.FrameConstant? {
      ImmediateIsLoaded(FIRST, index.constant, s, w);
      var t := Put(s, FIRST, Bits64, index.constant);
      PutTouches(s, FIRST, index.constant);
      WordIsLow(index.constant);
      TouchesSpares(s, t, {FIRST}, DESTINATION);
      TouchesSpares(s, t, {FIRST}, LENGTH);
      TouchesMore(s, t, {FIRST}, CANCEL_CLOBBERED);
    } else {
      FrameWordIsRead(FIRST, index.offset, mapping, s, w);
    }
  }

  lemma FrameBoundTraps(bound: Bound, rest: seq<Operation>, s: State, w: World) returns (t: State)
    ensures Touches(s, t, {SECOND})
    ensures Exec2(FrameBoundCode(bound) + rest, s, w) ==
            if Reg(s, FIRST) >= (if bound.CurrentView? then Reg(s, LENGTH) else bound.length) then Trap else Exec2(rest, t, w)
  {
    hide Reg, Low, Put, Exec2, Exec, BoundsCheck, Immediate, After, Touches;
    if bound.CurrentView? {
      t := BoundsCheckTraps(FIRST, LENGTH, rest, s, w);
      TouchesMore(s, t, {}, {SECOND});
    } else {
      var load := Immediate(SECOND, bound.length);
      ImmediateIsLoaded(SECOND, bound.length, s, w);
      var u := After(load, s, w);
      PutTouches(s, SECOND, bound.length);
      WordIsLow(bound.length);
      TouchesSpares(s, u, {SECOND}, FIRST);
      t := BoundsCheckTraps(FIRST, SECOND, rest, u, w);
      ExecAfter(load, BoundsCheck(FIRST, SECOND) + rest, s, w);
      assert load + BoundsCheck(FIRST, SECOND) + rest == load + (BoundsCheck(FIRST, SECOND) + rest);
      TouchesJoin(s, u, t, {SECOND}, {});
      assert {SECOND} + {} == {SECOND};
    }
  }

  lemma AdvanceFrameAdds(stride: Word64, s: State, w: World)
    ensures AllStraight(AdvanceFrame(stride))
    ensures var t := After(AdvanceFrame(stride), s, w);
            Reg(t, DESTINATION) == Sum(Reg(s, DESTINATION), Reg(s, FIRST) * stride) && Touches(s, t, {DESTINATION, SECOND})
  {
    hide Put, Reg, Low, Sum, Immediate, After, Exec2, Exec, Touches;
    var load, add := Immediate(SECOND, stride), Core(MultiplyAdd(Bits64, DESTINATION, FIRST, SECOND, DESTINATION, false));
    ImmediateIsLoaded(SECOND, stride, s, w);
    var u := Put(s, SECOND, Bits64, stride);
    PutTouches(s, SECOND, stride);
    WordIsLow(stride);
    TouchesSpares(s, u, {SECOND}, DESTINATION);
    TouchesSpares(s, u, {SECOND}, FIRST);
    AfterOne(add, u, w);
    AfterJoin(load, [add], s, w);
    var sum := Reg(s, DESTINATION) + Reg(s, FIRST) * stride;
    WordIsLow(Reg(s, DESTINATION));
    WordIsLow(Reg(s, FIRST));
    assert Effect(add, u, w) == Put(u, DESTINATION, Bits64, sum);
    PutTouches(u, DESTINATION, sum);
    TouchesJoin(s, u, Put(u, DESTINATION, Bits64, sum), {SECOND}, {DESTINATION});
    assert {SECOND} + {DESTINATION} == {DESTINATION, SECOND};
    SumIsLow();
  }

  /// What one step's code does: it traps, or leaves `h` and runs on.
  ghost predicate Leads(code: seq<Operation>, rest: seq<Operation>, h: Option<Held>, s: State, t: State, w: World) {
    if h.None? then Exec2(code + rest, s, w) == Trap
    else Exec2(code + rest, s, w) == Exec2(rest, t, w) && Holding(t) == h.value && FrameKept(s, t)
  }

  lemma ComputedLeads(code: seq<Operation>, rest: seq<Operation>, h: Held, s: State, w: World)
    requires Computes(code, h, s, w)
    ensures Leads(code, rest, Some(h), s, After(code, s, w), w)
  {
    hide Exec2, After, Touches, AllStraight;
    ExecAfter(code, rest, s, w);
  }

  /// A checked or computed index.
  lemma IndexLeads(index: FrameIndex, stride: Word64, bound: Bound, check: Check, mapping: Word64, s: State, w: World, rest: seq<Operation>) returns (t: State)
    requires !check.ProvenTrap? && !(check.ProvenInBounds? && index.FrameConstant?)
    ensures Leads(LoadIndex(index, mapping) + ((if check.Required? then FrameBoundCode(bound) else []) + AdvanceFrame(stride)), rest,
                  HeldIndex(index, stride, bound, check, Holding(s), FrameBase(s, mapping, w), w.memory), s, t, w)
  {
    hide Reg, Low, Put, Exec, Exec2, After, AllStraight, Touches, Sum, LoadIndex, FrameBoundCode, AdvanceFrame, FrameBase, ScaledOffset, AfterFrameWord;
    var read, bounds, add := LoadIndex(index, mapping), if check.Required? then FrameBoundCode(bound) else [], AdvanceFrame(stride);
    IndexIsLoaded(index, mapping, s, w);
    var u := After(read, s, w);
    ExecAfter(read, bounds + add + rest, s, w);
    assert read + (bounds + add) + rest == read + (bounds + add + rest);
    t := u;
    var v := u;
    if check.Required? {
      v := FrameBoundTraps(bound, add + rest, u, w);
      assert bounds + add + rest == bounds + (add + rest);
    } else {
      assert bounds + add + rest == add + rest;
      TouchesNothing(u, {SECOND});
    }
    TouchesSpares(u, v, {SECOND}, DESTINATION);
    TouchesSpares(u, v, {SECOND}, LENGTH);
    TouchesSpares(u, v, {SECOND}, FIRST);
    AdvanceFrameAdds(stride, v, w);
    ExecAfter(add, rest, v, w);
    t := After(add, v, w);
    TouchesSpares(v, t, {DESTINATION, SECOND}, LENGTH);
    FrameKeptMore(s, u, v, {SECOND});
    FrameKeptMore(s, v, t, {DESTINATION, SECOND});
  }

  lemma IndexStepLeads(index: FrameIndex, stride: Word64, bound: Bound, check: Check, mapping: Word64, s: State, w: World, rest: seq<Operation>) returns (t: State)
    requires FrameIndexCode(index, stride, bound, check, mapping).Ok?
    ensures Leads(FrameIndexCode(index, stride, bound, check, mapping).value, rest,
                  HeldIndex(index, stride, bound, check, Holding(s), FrameBase(s, mapping, w), w.memory), s, t, w)
  {
    hide Reg, Low, Put, Exec, Exec2, After, AllStraight, Touches, Sum, LoadIndex, FrameBoundCode, AdvanceFrame, AddOffset, FrameBase, AfterFrameWord, AfterOffset, Holding, FrameKept;
    t := s;
    if check.ProvenTrap? {
      ExecBreak(rest, s, w);
    } else if check.ProvenInBounds? && index.FrameConstant? {
      var offset: Word64 := index.constant * stride;
      WordIsLow(offset);
      OffsetComputes(offset, s, w);
      ComputedLeads(AddOffset(DESTINATION, offset), rest, AfterOffset(offset, Holding(s)), s, w);
      t := After(AddOffset(DESTINATION, offset), s, w);
    } else {
      t := IndexLeads(index, stride, bound, check, mapping, s, w, rest);
    }
  }

  /// Each step's code computes exactly what is held, at any offset.
  lemma StepLeads(step: FrameStep, mapping: Word64, s: State, w: World, rest: seq<Operation>) returns (t: State)
    requires FrameStepCode(step, mapping).Ok?
    ensures Leads(FrameStepCode(step, mapping).value, rest, HeldStep(step, Holding(s), FrameBase(s, mapping, w), w.memory), s, t, w)
  {
    hide Reg, Low, Put, Exec, Exec2, After, AllStraight, Touches, Sum, LoadNative, FrameWord, FrameIndexCode, AddOffset, FrameKept, FrameBase, ScaledOffset, Encodable, Leads;
    var base, h := FrameBase(s, mapping, w), Holding(s);
    match step
    case FrameOffset(o) =>
      OffsetComputes(o, s, w);
      ComputedLeads(AddOffset(DESTINATION, o), rest, AfterOffset(o, h), s, w);
      t := After(AddOffset(DESTINATION, o), s, w);
    case OffsetFrame(o) =>
      var read, add := FrameWord(SECOND, o, mapping), [AddRegister(DESTINATION, DESTINATION, SECOND)];
      FrameWordIsRead(SECOND, o, mapping, s, w);
      AddComputes(After(read, s, w), w);
      ComputesInTurn(read, add, AfterFrameWord(o, base, h), HeldStep(step, h, base, w.memory).value, s, w);
      ComputedLeads(read + add, rest, HeldStep(step, h, base, w.memory).value, s, w);
      t := After(read + add, s, w);
    case FrameDereference =>
      ZeroIsScaled();
      WordIsLow(h.address);
      PointerLoads(0, s, w);
      ComputedLeads(LoadNative(DESTINATION, DESTINATION, 0), rest, HeldStep(step, h, base, w.memory).value, s, w);
      t := After(LoadNative(DESTINATION, DESTINATION, 0), s, w);
    case FrameViewDereference(pointer, size) =>
      var code := LoadNative(LENGTH, DESTINATION, size) + LoadNative(DESTINATION, DESTINATION, pointer);
      ViewDereferenceComputes(pointer, size, s, w);
      ComputedLeads(code, rest, HeldStep(step, h, base, w.memory).value, s, w);
      t := After(code, s, w);
    case FrameIndexStep(index, stride, bound, check) =>
      t := IndexStepLeads(index, stride, bound, check, mapping, s, w, rest);
  }

  lemma ZeroIsScaled()
    ensures ScaledOffset(0)
  {
  }

  lemma KeptInTurn(s: State, t: State, u: State)
    requires FrameKept(s, t) && FrameKept(t, u)
    ensures FrameKept(s, u)
  {
    hide Reg;
  }

  lemma {:induction false} StepsLead(steps: seq<FrameStep>, mapping: Word64, s: State, w: World, rest: seq<Operation>) returns (t: State)
    requires FrameStepsCode(steps, mapping).Ok?
    ensures Leads(FrameStepsCode(steps, mapping).value, rest, HeldSteps(steps, Holding(s), FrameBase(s, mapping, w), w.memory), s, t, w)
    decreases |steps|
  {
    hide Exec2, FrameKept, FrameBase, FrameStepCode, HeldStep, Holding;
    t := s;
    if steps == [] {
      assert [] + rest == rest;
      FrameKeptSelf(s);
    } else {
      var code, more := FrameStepCode(steps[0], mapping).value, FrameStepsCode(steps[1..], mapping).value;
      var u := StepLeads(steps[0], mapping, s, w, more + rest);
      assert code + more + rest == code + (more + rest);
      if HeldStep(steps[0], Holding(s), FrameBase(s, mapping, w), w.memory).Some? {
        BaseIsKept(s, u, mapping, w);
        t := StepsLead(steps[1..], mapping, u, w, rest);
        if HeldSteps(steps[1..], Holding(u), FrameBase(u, mapping, w), w.memory).Some? {
          KeptInTurn(s, u, t);
        }
      }
    }
  }

  lemma RootComputes(root: FrameRoot, mapping: Word64, s: State, w: World)
    requires FrameRootCode(root, mapping).Ok?
    ensures Computes(FrameRootCode(root, mapping).value, HeldRoot(root, Reg(s, LENGTH), FrameBase(s, mapping, w), w.memory), s, w)
  {
    hide Reg, Low, Put, After, AllStraight, Touches, Sum, LoadStack, FrameWord, AddOffset, ScaledOffset, Encodable;
    var base := FrameBase(s, mapping, w);
    match root
    case InFrame(offset) =>
      var load, add := LoadStack(DESTINATION, mapping), AddOffset(DESTINATION, offset);
      LoadStackLoads(DESTINATION, mapping, s, w);
      var u := After(load, s, w);
      TouchesSpares(s, u, {DESTINATION}, LENGTH);
      TouchesMore(s, u, {DESTINATION}, CANCEL_CLOBBERED);
      OffsetComputes(offset, u, w);
      ComputesInTurn(load, add, Held(base, Reg(s, LENGTH)), AfterOffset(offset, Held(base, Reg(s, LENGTH))), s, w);
    case FramePointer(offset) => AddressIsRead(offset, mapping, s, w);
    case FrameView(field, pointer, size) =>
      var a, b := FrameWord(LENGTH, field + size, mapping), FrameWord(DESTINATION, field + pointer, mapping);
      LengthIsRead(field + size, mapping, s, w);
      var u := After(a, s, w);
      BaseIsKept(s, u, mapping, w);
      AddressIsRead(field + pointer, mapping, u, w);
      ComputesInTurn(a, b, Holding(u), HeldRoot(root, Reg(s, LENGTH), base, w.memory), s, w);
  }

  function HeldPath(root: FrameRoot, steps: seq<FrameStep>, length: Word64, base: Word64, memory: Word64 -> Word64): Option<Held> {
    HeldSteps(steps, HeldRoot(root, length, base, memory), base, memory)
  }

  /// The code of any address computes in x0 exactly what the registers hold, and traps when they say so.
  lemma AddressCodeComputes(root: FrameRoot, steps: seq<FrameStep>, mapping: Word64, s: State, w: World) returns (t: State)
    requires FrameAddressCode(root, steps, mapping).Ok?
    ensures var h := HeldPath(root, steps, Reg(s, LENGTH), FrameBase(s, mapping, w), w.memory);
            var result := Exec2(FrameAddressCode(root, steps, mapping).value, s, w);
            if h.None? then result == Trap else result == Done(t) && Reg(t, FIRST) == h.value.address
  {
    hide Reg, Exec2, After, AllStraight, FrameBase, HeldSteps, HeldRoot, MoveCode, Touches, FrameRootCode, FrameStepsCode;
    var first, middle, last := FrameRootCode(root, mapping).value, FrameStepsCode(steps, mapping).value, MoveCode(DESTINATION, FIRST);
    RootComputes(root, mapping, s, w);
    var u := After(first, s, w);
    BaseIsKept(s, u, mapping, w);
    ExecAfter(first, middle + last, s, w);
    assert first + middle + last == first + (middle + last);
    t := StepsLead(steps, mapping, u, w, last);
    if HeldPath(root, steps, Reg(s, LENGTH), FrameBase(s, mapping, w), w.memory).Some? {
      MoveMoves(DESTINATION, FIRST, t, w);
      ExecAfter(last, [], t, w);
      assert last + [] == last;
      t := After(last, t, w);
      ExecDone(t, w);
    }
  }

  lemma ExecDone(s: State, w: World)
    ensures Exec2([], s, w) == Done(s)
  {
  }
}
