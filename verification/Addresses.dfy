/**
 Machine addresses: what a path of steps denotes, and the selected form of the path.

 An index may be bounded by the current view, the one that the latest view root or view dereference
 gave. Selection follows statically whether there is a current view; the selected form keeps its
 length in one register, which holds a stale length when there is none.
 */
module Addresses {
  import opened Results
  import opened ByteRanges
  import opened ValuePlan
  import opened Arithmetic
  import opened Isa

  // ---------------------------------------------------------------- machine addresses

  datatype Check = ProvenTrap | ProvenInBounds | Required

  datatype Index = Constant(constant: Word64) | FromValue(value: nat)

  datatype Bound = Fixed(length: Word64) | CurrentView

  datatype Step =
    | Offset(offset: Word64)
    | OffsetValue(value: nat)
    | Dereference
    | ViewDereference(pointerOffset: Word64, lengthOffset: Word64)
    | IndexStep(index: Index, stride: Word64, bound: Bound, check: Check)

  datatype Root =
    | StackRoot(stack: nat)
    | DataRoot(data: nat)
    | PointerRoot(value: nat)
    | ViewRoot(value: nat, pointerOffset: Word64, lengthOffset: Word64)

  datatype Address = Address(root: Root, steps: seq<Step>, expectsView: bool)

  /// The words of values, the addresses of stack objects and data, and memory as doublewords.
  datatype Env = Env(words: (nat, nat) -> Word64, stack: nat -> Word64, data: nat -> Word64, memory: Word64 -> Word64)

  /// `length` is the length of the current view. An index bounded by no view has no meaning.
  datatype Meaning = Trapped | At(address: Word64, length: Option<Word64>) | Unbounded

  function Sum(a: int, b: int): Word64 {
    Low(a + b, Bits64)
  }

  function IndexOf(index: Index, env: Env): Word64 {
    match index
    case Constant(i) => i
    case FromValue(v) => env.words(v, 0)
  }

  function IndexMeaning(at: Word64, length: Option<Word64>, i: Word64, stride: Word64, bound: Bound, check: Check): Meaning {
    if bound.CurrentView? && length.None? then Unbounded
    else
      var limit := if bound.CurrentView? then length.value else bound.length;
      if check.ProvenTrap? || (check.Required? && i >= limit) then Trapped
      else At(Sum(at, i * stride), None)
  }

  function StepMeaning(step: Step, at: Word64, length: Option<Word64>, env: Env): Meaning {
    match step
    case Offset(o) => At(Sum(at, o), length)
    case OffsetValue(v) => At(Sum(at, env.words(v, 0)), length)
    case Dereference => At(env.memory(at), None)
    case ViewDereference(pointer, size) => At(env.memory(Sum(at, pointer)), Some(env.memory(Sum(at, size))))
    case IndexStep(index, stride, bound, check) => IndexMeaning(at, length, IndexOf(index, env), stride, bound, check)
  }

  function StepsMeaning(steps: seq<Step>, at: Word64, length: Option<Word64>, env: Env): Meaning
    decreases |steps|
  {
    if steps == [] then At(at, length)
    else
      var next := StepMeaning(steps[0], at, length, env);
      if !next.At? then next else StepsMeaning(steps[1..], next.address, next.length, env)
  }

  function RootMeaning(root: Root, env: Env): (Word64, Option<Word64>) {
    match root
    case StackRoot(stack) => (env.stack(stack), None)
    case DataRoot(data) => (env.data(data), None)
    case PointerRoot(value) => (env.words(value, 0), None)
    case ViewRoot(value, pointer, size) => (env.words(value, pointer / WORD_SIZE), Some(env.words(value, size / WORD_SIZE)))
  }

  /// The address that a machine path denotes.
  function Denotes(a: Address, env: Env): Meaning {
    var (at, length) := RootMeaning(a.root, env);
    StepsMeaning(a.steps, at, length, env)
  }

  // ---------------------------------------------------------------- selected addresses

  datatype SelectedIndex = ConstantIndex(constant: Word64) | RegisterIndex(register: nat)

  datatype SelectedStep =
    | SelectedOffset(offset: Word64)
    | OffsetRegister(register: nat)
    | SelectedDereference
    | SelectedViewDereference(pointerOffset: Word64, lengthOffset: Word64)
    | SelectedIndexStep(index: SelectedIndex, stride: Word64, bound: Bound, check: Check)

  datatype SelectedRoot =
    | FrameObject(frameObject: nat)
    | AsyncField(offset: Word64)
    | DataAddress(data: nat)
    | Pointer(register: nat)
    | View(pointer: nat, length: nat)

  datatype Selected =
    | Static(frameObject: nat, offset: Word64)
    | Runtime(root: SelectedRoot, steps: seq<SelectedStep>, view: bool)

  datatype SelectionError =
    | UnknownValue(value: nat)
    | MemoryValue(value: nat)
    | ExpectedOneWord(value: nat)
    | DirectLaneOffset(offset: Word64)
    | UnknownStack(stack: nat)
    | AddressOverflow
    | ProjectedAddress

  /// Storage of the values, frame objects of stack objects, and the stack objects that the heap frame
  /// of a deferred function keeps, with their offsets in it.
  datatype Scope = Scope(storage: seq<Storage>, objects: map<nat, nat>, persistent: map<nat, Word64>)

  function DirectRegisters(s: Scope, value: nat): Result<seq<nat>, SelectionError> {
    if value >= |s.storage| then Err(UnknownValue(value))
    else if s.storage[value].Direct? then Ok(s.storage[value].registers)
    else Err(MemoryValue(value))
  }

  function OneWord(s: Scope, value: nat): Result<nat, SelectionError> {
    var registers := DirectRegisters(s, value);
    if registers.Err? then Err(registers.error)
    else if |registers.value| == 1 then Ok(registers.value[0])
    else Err(ExpectedOneWord(value))
  }

  function DirectLane(offset: Word64, count: nat): (r: Result<nat, SelectionError>)
    ensures r.Ok? ==> r.value < count && WORD_SIZE * r.value == offset
  {
    if offset % WORD_SIZE != 0 || offset / WORD_SIZE >= count then Err(DirectLaneOffset(offset))
    else Ok(offset / WORD_SIZE)
  }

  function SelectIndex(s: Scope, index: Index): Result<SelectedIndex, SelectionError> {
    match index
    case Constant(i) => Ok(ConstantIndex(i))
    case FromValue(v) =>
      var register := OneWord(s, v);
      if register.Err? then Err(register.error) else Ok(RegisterIndex(register.value))
  }

  /// One selected step, and whether there is a current view behind it.
  function SelectStep(s: Scope, step: Step, view: bool): Result<(SelectedStep, bool), SelectionError> {
    match step
    case Offset(o) => Ok((SelectedOffset(o), view))
    case OffsetValue(v) =>
      var register := OneWord(s, v);
      if register.Err? then Err(register.error) else Ok((OffsetRegister(register.value), view))
    case Dereference => Ok((SelectedDereference, false))
    case ViewDereference(pointer, size) => Ok((SelectedViewDereference(pointer, size), true))
    case IndexStep(index, stride, bound, check) =>
      if bound.CurrentView? && !view then Err(ProjectedAddress)
      else
        var selected := SelectIndex(s, index);
        if selected.Err? then Err(selected.error) else Ok((SelectedIndexStep(selected.value, stride, bound, check), false))
  }

  function SelectSteps(s: Scope, steps: seq<Step>, view: bool): Result<(seq<SelectedStep>, bool), SelectionError>
    decreases |steps|
  {
    if steps == [] then Ok(([], view))
    else
      var first := SelectStep(s, steps[0], view);
      if first.Err? then Err(first.error)
      else
        var rest := SelectSteps(s, steps[1..], first.value.1);
        if rest.Err? then Err(rest.error) else Ok(([first.value.0] + rest.value.0, rest.value.1))
  }

  function SelectRoot(s: Scope, root: Root): Result<(SelectedRoot, bool), SelectionError> {
    match root
    case StackRoot(stack) =>
      if stack in s.persistent then Ok((AsyncField(s.persistent[stack]), false))
      else if stack in s.objects then Ok((FrameObject(s.objects[stack]), false))
      else Err(UnknownStack(stack))
    case DataRoot(data) => Ok((DataAddress(data), false))
    case PointerRoot(value) =>
      var register := OneWord(s, value);
      if register.Err? then Err(register.error) else Ok((Pointer(register.value), false))
    case ViewRoot(value, pointerOffset, lengthOffset) =>
      var registers := DirectRegisters(s, value);
      if registers.Err? then Err(registers.error)
      else
        var pointer, length := DirectLane(pointerOffset, |registers.value|), DirectLane(lengthOffset, |registers.value|);
        if pointer.Err? then Err(pointer.error)
        else if length.Err? then Err(length.error)
        else Ok((View(registers.value[pointer.value], registers.value[length.value]), true))
  }

  /// The sum of the offsets, or nothing when another step comes first.
  function StaticOffset(steps: seq<Step>, offset: Word64): Result<Option<Word64>, SelectionError>
    decreases |steps|
  {
    if steps == [] then Ok(Some(offset))
    else if !steps[0].Offset? then Ok(None)
    else if offset + steps[0].offset >= M64 then Err(AddressOverflow)
    else StaticOffset(steps[1..], offset + steps[0].offset)
  }

  function SelectStatic(s: Scope, a: Address): Result<Option<Selected>, SelectionError> {
    if !a.root.StackRoot? || a.root.stack in s.persistent then Ok(None)
    else
      var offset := StaticOffset(a.steps, 0);
      if offset.Err? then Err(offset.error)
      else if offset.value.None? then Ok(None)
      else if a.root.stack !in s.objects then Err(UnknownStack(a.root.stack))
      else Ok(Some(Static(s.objects[a.root.stack], offset.value.value)))
  }

  function Select(s: Scope, a: Address): Result<Selected, SelectionError> {
    var fixed := SelectStatic(s, a);
    if fixed.Err? then Err(fixed.error)
    else if fixed.value.Some? then Ok(fixed.value.value)
    else
      var root := SelectRoot(s, a.root);
      if root.Err? then Err(root.error)
      else
        var steps := SelectSteps(s, a.steps, root.value.1);
        if steps.Err? then Err(steps.error)
        else if steps.value.1 != a.expectsView then Err(ProjectedAddress)
        else Ok(Runtime(root.value.0, steps.value.0, steps.value.1))
  }

  // ---------------------------------------------------------------- what a selected address denotes

  /// The words of virtual registers, the addresses of frame objects, and the heap frame.
  datatype Registers = Registers(words: nat -> Word64, frameObjects: nat -> Word64, heapFrame: Word64, data: nat -> Word64, memory: Word64 -> Word64)

  /// The address register and the view length register.
  datatype Place = Stopped | Reached(address: Word64, length: Word64)

  function SelectedStepPlace(step: SelectedStep, at: Word64, length: Word64, r: Registers): Place {
    match step
    case SelectedOffset(o) => Reached(Sum(at, o), length)
    case OffsetRegister(v) => Reached(Sum(at, r.words(v)), length)
    case SelectedDereference => Reached(r.memory(at), length)
    case SelectedViewDereference(pointer, size) => Reached(r.memory(Sum(at, pointer)), r.memory(Sum(at, size)))
    case SelectedIndexStep(index, stride, bound, check) =>
      var i := if index.ConstantIndex? then index.constant else r.words(index.register);
      var limit := if bound.CurrentView? then length else bound.length;
      if check.ProvenTrap? || (check.Required? && i >= limit) then Stopped
      else Reached(Sum(at, i * stride), length)
  }

  function SelectedStepsPlace(steps: seq<SelectedStep>, at: Word64, length: Word64, r: Registers): Place
    decreases |steps|
  {
    if steps == [] then Reached(at, length)
    else
      var next := SelectedStepPlace(steps[0], at, length, r);
      if next.Stopped? then Stopped else SelectedStepsPlace(steps[1..], next.address, next.length, r)
  }

  /// Only a view root sets the length register; otherwise it keeps what it held.
  function SelectedRootPlace(root: SelectedRoot, before: Word64, r: Registers): (Word64, Word64) {
    match root
    case FrameObject(o) => (r.frameObjects(o), before)
    case AsyncField(offset) => (Sum(r.heapFrame, offset), before)
    case DataAddress(d) => (r.data(d), before)
    case Pointer(register) => (r.words(register), before)
    case View(pointer, length) => (r.words(pointer), r.words(length))
  }

  function SelectedPlace(root: SelectedRoot, steps: seq<SelectedStep>, before: Word64, r: Registers): Place {
    var (at, length) := SelectedRootPlace(root, before, r);
    SelectedStepsPlace(steps, at, length, r)
  }

  /// Registers and frame hold what the environment says.
  ghost predicate Carries(s: Scope, env: Env, r: Registers) {
    && env.memory == r.memory && env.data == r.data
    && (forall v, k | 0 <= v < |s.storage| && s.storage[v].Direct? && 0 <= k < |s.storage[v].registers| ::
          env.words(v, k) == r.words(s.storage[v].registers[k]))
    && (forall stack | stack in s.persistent :: env.stack(stack) == Sum(r.heapFrame, s.persistent[stack]))
    && (forall stack | stack in s.objects && stack !in s.persistent :: env.stack(stack) == r.frameObjects(s.objects[stack]))
  }

  /// The selected place means the same address, and the current view when there is one.
  predicate Tracks(m: Meaning, p: Place, view: bool) {
    match m
    case Trapped => p.Stopped?
    case At(address, length) =>
      p.Reached? && p.address == address && length.Some? == view && (view ==> p.length == length.value)
    case Unbounded => false
  }

  lemma StepIsTracked(s: Scope, step: Step, view: bool, at: Word64, length: Option<Word64>, register: Word64, env: Env, r: Registers)
    requires SelectStep(s, step, view).Ok? && Carries(s, env, r)
    requires length.Some? == view && (view ==> register == length.value)
    ensures Tracks(StepMeaning(step, at, length, env),
                   SelectedStepPlace(SelectStep(s, step, view).value.0, at, register, r), SelectStep(s, step, view).value.1)
  {
    hide Low;
    match step
    case OffsetValue(v) => assert env.words(v, 0) == r.words(s.storage[v].registers[0]);
    case IndexStep(index, _, _, _) =>
      if index.FromValue? {
        assert env.words(index.value, 0) == r.words(s.storage[index.value].registers[0]);
      }
    case _ =>
  }

  lemma {:induction false} StepsAreTracked(s: Scope, steps: seq<Step>, view: bool, at: Word64, length: Option<Word64>, register: Word64, env: Env, r: Registers)
    requires SelectSteps(s, steps, view).Ok? && Carries(s, env, r)
    requires length.Some? == view && (view ==> register == length.value)
    ensures var m := StepsMeaning(steps, at, length, env);
            Tracks(m, SelectedStepsPlace(SelectSteps(s, steps, view).value.0, at, register, r),
                   if m.At? then SelectSteps(s, steps, view).value.1 else view)
    decreases |steps|
  {
    hide SelectStep, StepMeaning, SelectedStepPlace, Carries;
    if steps != [] {
      var first := SelectStep(s, steps[0], view).value;
      StepIsTracked(s, steps[0], view, at, length, register, env, r);
      var m, p := StepMeaning(steps[0], at, length, env), SelectedStepPlace(first.0, at, register, r);
      if m.At? {
        StepsAreTracked(s, steps[1..], first.1, m.address, m.length, p.length, env, r);
      }
    }
  }

  lemma {:induction false} OffsetsAddUp(steps: seq<Step>, base: Word64, offset: Word64, env: Env)
    requires StaticOffset(steps, offset).Ok? && StaticOffset(steps, offset).value.Some?
    ensures StepsMeaning(steps, Sum(base, offset), None, env) == At(Sum(base, StaticOffset(steps, offset).value.value), None)
    decreases |steps|
  {
    if steps != [] {
      SumsNest(base, offset, steps[0].offset);
      OffsetsAddUp(steps[1..], base, offset + steps[0].offset, env);
    }
  }

  lemma SumsNest(a: int, b: int, c: int)
    ensures Sum(Sum(a, b), c) == Sum(a, b + c)
  {
    RemainderIsCongruent(a + b, M64);
    CongruentSums((a + b) % M64, a + b, c, c, M64);
    CongruentRemainders((a + b) % M64 + c, a + b + c, M64);
  }

  /// What selection accepts has the meaning of the machine path in every environment.
  lemma SelectionPreservesMeaning(s: Scope, a: Address, env: Env, r: Registers, before: Word64)
    requires Select(s, a).Ok? && Carries(s, env, r)
    ensures var m := Denotes(a, env);
            match Select(s, a).value
            case Static(o, offset) => m == At(Sum(r.frameObjects(o), offset), None)
            case Runtime(root, steps, view) => Tracks(m, SelectedPlace(root, steps, before, r), if m.At? then a.expectsView else false)
  {
    hide StepsMeaning, SelectSteps, SelectedStepsPlace;
    if Select(s, a).value.Static? {
      var base := r.frameObjects(s.objects[a.root.stack]);
      OffsetsAddUp(a.steps, base, 0, env);
      assert Sum(base, 0) == base;
    } else {
      RootIsTracked(s, a.root, env, r, before);
      var root := SelectRoot(s, a.root).value;
      var (at, length) := RootMeaning(a.root, env);
      StepsAreTracked(s, a.steps, root.1, at, length, SelectedRootPlace(root.0, before, r).1, env, r);
    }
  }

  lemma RootIsTracked(s: Scope, root: Root, env: Env, r: Registers, before: Word64)
    requires SelectRoot(s, root).Ok? && Carries(s, env, r)
    ensures var (at, length) := RootMeaning(root, env);
            var (address, register) := SelectedRootPlace(SelectRoot(s, root).value.0, before, r);
            address == at && length.Some? == SelectRoot(s, root).value.1 && (length.Some? ==> register == length.value)
  {
    hide Low;
    match root
    case PointerRoot(value) => assert env.words(value, 0) == r.words(s.storage[value].registers[0]);
    case ViewRoot(value, pointer, size) =>
      var registers := s.storage[value].registers;
      assert env.words(value, pointer / WORD_SIZE) == r.words(registers[pointer / WORD_SIZE]);
      assert env.words(value, size / WORD_SIZE) == r.words(registers[size / WORD_SIZE]);
    case _ =>
  }
}
