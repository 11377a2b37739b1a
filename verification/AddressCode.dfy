/**
 The instructions that resolve a selected address into x0, with the length of its view in x1.

 Spilled virtual registers are loaded from the stack into a compiler scratch register. Large offsets
 take the scratch registers too; the lemmas say that nothing else is touched.
 */
module AddressCode {
  import opened Results
  import opened ByteRanges
  import opened Arithmetic
  import opened Isa
  import opened Addresses
  import opened NocterAbi
  import opened CodeLayout
  import opened CodeWords

  // ---------------------------------------------------------------- instructions

  /// Instructions of `Isa`, doubleword loads, and the address of a data object.
  datatype Operation =
    | Core(instruction: Instruction)
    | LoadDouble(destination: nat, base: nat, offset: nat)
    | LoadDataAddress(destination: nat, data: nat)

  const ADDRESS: nat := 0
  const VIEW_LENGTH: nat := 1
  const SCRATCH_0: nat := 16
  const SCRATCH_1: nat := 17
  const STACK_POINTER: nat := 32

  /// Memory as doublewords, and where data objects are.
  datatype World = World(memory: Word64 -> Word64, data: nat -> Word64)

  function Exec2(code: seq<Operation>, s: State, w: World): Execution
    decreases |code|
  {
    if code == [] then Done(s)
    else
      match code[0]
      case LoadDouble(d, base, offset) => Exec2(code[1..], Put(s, d, Bits64, w.memory(Sum(Reg(s, base), offset))), w)
      case LoadDataAddress(d, data) => Exec2(code[1..], Put(s, d, Bits64, w.data(data)), w)
      case Core(Break) => Trap
      case Core(Skip(condition, distance)) =>
        if !Holds(condition, s.flags) then Exec2(code[1..], s, w)
        else if 1 <= distance <= |code| then Exec2(code[distance..], s, w) else Stuck
      case Core(Jump(distance)) => if 1 <= distance <= |code| then Exec2(code[distance..], s, w) else Stuck
      case Core(i) => Exec2(code[1..], Perform(i, s), w)
  }

  // ---------------------------------------------------------------- code without branches

  predicate Straight(o: Operation) {
    o.Core? ==> !o.instruction.Break? && !o.instruction.Skip? && !o.instruction.Jump?
  }

  predicate AllStraight(code: seq<Operation>) {
    forall i | 0 <= i < |code| :: Straight(code[i])
  }

  function Effect(o: Operation, s: State, w: World): State
    requires Straight(o)
  {
    match o
    case Core(i) => Perform(i, s)
    case LoadDouble(d, base, offset) => Put(s, d, Bits64, w.memory(Sum(Reg(s, base), offset)))
    case LoadDataAddress(d, data) => Put(s, d, Bits64, w.data(data))
  }

  function After(code: seq<Operation>, s: State, w: World): State
    requires AllStraight(code)
    decreases |code|
  {
    if code == [] then s
    else
      assert Straight(code[0]);
      assert forall i | 0 <= i < |code| - 1 :: code[1..][i] == code[i + 1];
      After(code[1..], Effect(code[0], s, w), w)
  }

  lemma ExecOne(o: Operation, rest: seq<Operation>, s: State, w: World)
    requires Straight(o)
    ensures Exec2([o] + rest, s, w) == Exec2(rest, Effect(o, s, w), w)
  {
    assert ([o] + rest)[0] == o && ([o] + rest)[1..] == rest;
  }

  lemma {:induction false} ExecAfter(code: seq<Operation>, rest: seq<Operation>, s: State, w: World)
    requires AllStraight(code)
    ensures Exec2(code + rest, s, w) == Exec2(rest, After(code, s, w), w)
    decreases |code|
  {
    hide Exec2, Effect;
    if code == [] {
      assert code + rest == rest;
    } else {
      assert Straight(code[0]);
      assert forall i | 0 <= i < |code| - 1 :: code[1..][i] == code[i + 1];
      assert code + rest == [code[0]] + (code[1..] + rest);
      ExecOne(code[0], code[1..] + rest, s, w);
      ExecAfter(code[1..], rest, Effect(code[0], s, w), w);
    }
  }

  lemma {:induction false} AfterJoin(a: seq<Operation>, b: seq<Operation>, s: State, w: World)
    requires AllStraight(a) && AllStraight(b)
    ensures AllStraight(a + b) && After(a + b, s, w) == After(b, After(a, s, w), w)
    decreases |a|
  {
    hide Effect;
    if a == [] {
      assert a + b == b;
    } else {
      assert Straight(a[0]);
      assert forall i | 0 <= i < |a| - 1 :: a[1..][i] == a[i + 1];
      assert (a + b)[0] == a[0] && (a + b)[1..] == a[1..] + b;
      AfterJoin(a[1..], b, Effect(a[0], s, w), w);
    }
  }

  lemma AfterOne(o: Operation, s: State, w: World)
    requires Straight(o)
    ensures AllStraight([o]) && After([o], s, w) == Effect(o, s, w)
  {
    assert [o][1..] == [];
  }

  function Lift(code: seq<Instruction>): (r: seq<Operation>)
    ensures |r| == |code| && forall i | 0 <= i < |code| :: r[i] == Core(code[i])
  {
    seq(|code|, i requires 0 <= i < |code| => Core(code[i]))
  }

  lemma {:induction false} LiftedCodeRuns(code: seq<Instruction>, s: State, w: World)
    requires AllStraight(Lift(code))
    ensures Exec(code, s) == Done(After(Lift(code), s, w))
    decreases |code|
  {
    hide Perform;
    if code != [] {
      var lifted := Lift(code);
      assert Straight(lifted[0]);
      assert lifted[1..] == Lift(code[1..]);
      assert forall i | 0 <= i < |lifted| - 1 :: lifted[1..][i] == lifted[i + 1];
      LiftedCodeRuns(code[1..], Perform(code[0], s), w);
    }
  }

  lemma {:induction false} ImmediatesAreStraight(d: nat, value: nat, size: DataSize, part: nat, wroteZero: bool)
    requires part <= Parts(size)
    ensures AllStraight(Lift(ImmediateParts(d, value, size, part, wroteZero)))
    decreases Parts(size) - part
  {
    if part < Parts(size) {
      ImmediatesAreStraight(d, value, size, part + 1, wroteZero);
      ImmediatesAreStraight(d, value, size, part + 1, true);
      var rest := ImmediateParts(d, value, size, part + 1, true);
      assert forall i | 0 <= i < |rest| :: Lift(rest)[i] == Core(rest[i]) && Straight(Lift(rest)[i]);
    }
  }

  function Immediate(d: nat, value: Word64): (code: seq<Operation>) {
    Lift(LoadImmediate(d, value, Bits64))
  }

  lemma ImmediateIsLoaded(d: nat, value: Word64, s: State, w: World)
    requires d != ZERO_REGISTER
    ensures AllStraight(Immediate(d, value))
    ensures After(Immediate(d, value), s, w) == Put(s, d, Bits64, value)
  {
    hide Exec, Put, After;
    var code := LoadImmediate(d, value, Bits64);
    ImmediatesAreStraight(d, value, Bits64, 0, false);
    LiftedCodeRuns(code, s, w);
    ExecLoadImmediate(d, value, Bits64, [], s);
    assert code + [] == code;
    ExecNothing(Put(s, d, Bits64, value));
  }

  lemma ExecNothing(s: State)
    ensures Exec([], s) == Done(s)
  {
  }

  // ---------------------------------------------------------------- registers that fragments touch

  /// Only the registers in `touched` may differ.
  ghost predicate Touches(s: State, t: State, touched: set<nat>) {
    forall r: nat | r !in touched :: Reg(t, r) == Reg(s, r)
  }

  lemma PutTouches(s: State, d: nat, value: int)
    requires d != ZERO_REGISTER
    ensures Touches(s, Put(s, d, Bits64, value), {d}) && Reg(Put(s, d, Bits64, value), d) == Low(value, Bits64)
  {
  }

  lemma WordIsLow(x: Word64)
    ensures Low(x, Bits64) == x && Sum(x, 0) == x
  {
  }

  predicate Encodable(value: nat) {
    value <= 0xfff || (value % 4096 == 0 && value / 4096 <= 0xfff)
  }

  function AddImmediate(destination: nat, source: nat, immediate: nat): Operation {
    Core(AddSubtractImmediate(Bits64, false, false, destination, source, immediate))
  }

  function AddRegister(destination: nat, left: nat, right: nat): Operation {
    Core(AddSubtractRegister(Bits64, false, false, destination, left, right))
  }

  lemma PutLow(s: State, d: nat, x: int)
    ensures Put(s, d, Bits64, Low(x, Bits64)) == Put(s, d, Bits64, x)
  {
  }

  lemma SumIsLow()
    ensures forall a: int, b: int :: Sum(a, b) == Low(a + b, Bits64)
  {
  }

  lemma AddImmediateAdds(d: nat, source: nat, immediate: nat, s: State, w: World)
    ensures After([AddImmediate(d, source, immediate)], s, w) == Put(s, d, Bits64, Sum(Reg(s, source), immediate))
  {
    hide Low, Put, Reg, After, Modulus, Exec2, Exec, Sum;
    SumIsLow();
    AfterOne(AddImmediate(d, source, immediate), s, w);
    WordIsLow(Reg(s, source));
    PutLow(s, d, Reg(s, source) + immediate);
  }

  lemma AddRegisterAdds(d: nat, left: nat, right: nat, s: State, w: World)
    ensures After([AddRegister(d, left, right)], s, w) == Put(s, d, Bits64, Sum(Reg(s, left), Reg(s, right)))
  {
    hide Low, Put, Reg, After, Modulus, Exec2, Exec, Sum;
    SumIsLow();
    AfterOne(AddRegister(d, left, right), s, w);
    WordIsLow(Reg(s, left));
    WordIsLow(Reg(s, right));
    PutLow(s, d, Reg(s, left) + Reg(s, right));
  }

  function AddOffset(register: nat, offset: Word64): seq<Operation> {
    if offset == 0 then []
    else if Encodable(offset) then [AddImmediate(register, register, offset)]
    else
      var other := if register == SCRATCH_1 then SCRATCH_0 else SCRATCH_1;
      Immediate(other, offset) + [AddRegister(register, register, other)]
  }

  /// A large offset goes through a scratch register, which may be the destination.
  lemma LargeOffsetAdds(d: nat, left: nat, scratch: nat, offset: Word64, s: State, w: World)
    requires d != ZERO_REGISTER && scratch != ZERO_REGISTER && left != scratch
    ensures var code := Immediate(scratch, offset) + [AddRegister(d, left, scratch)];
            AllStraight(code)
            && Reg(After(code, s, w), d) == Sum(Reg(s, left), offset) && Touches(s, After(code, s, w), {d, scratch})
  {
    hide *;
    var load, add := Immediate(scratch, offset), AddRegister(d, left, scratch);
    ImmediateIsLoaded(scratch, offset, s, w);
    AddIsStraight(d, left, scratch);
    AfterJoin(load, [add], s, w);
    var u := Put(s, scratch, Bits64, offset);
    PutTouches(s, scratch, offset);
    WordIsLow(offset);
    TouchesSpares(s, u, {scratch}, left);
    AddRegisterAdds(d, left, scratch, u, w);
    var sum := Sum(Reg(s, left), offset);
    PutTouches(u, d, sum);
    WordIsLow(sum);
    TouchesJoin(s, u, Put(u, d, Bits64, sum), {scratch}, {d});
    assert {scratch} + {d} == {d, scratch};
  }

  lemma AddIsStraight(d: nat, left: nat, right: nat)
    ensures AllStraight([AddRegister(d, left, right)]) && AllStraight([AddImmediate(d, left, right)])
  {
  }

  lemma TouchesSpares(s: State, t: State, touched: set<nat>, r: nat)
    requires Touches(s, t, touched) && r !in touched
    ensures Reg(t, r) == Reg(s, r)
  {
    hide Reg;
  }

  lemma TouchesJoin(s: State, t: State, u: State, a: set<nat>, b: set<nat>)
    requires Touches(s, t, a) && Touches(t, u, b)
    ensures Touches(s, u, a + b)
  {
    hide Reg;
  }

  lemma TouchesMore(s: State, t: State, a: set<nat>, b: set<nat>)
    requires Touches(s, t, a) && a <= b
    ensures Touches(s, t, b)
  {
    hide Reg;
  }

  lemma AddOffsetAdds(r: nat, offset: Word64, s: State, w: World)
    requires r != ZERO_REGISTER && r != SCRATCH_0 && r != SCRATCH_1
    ensures AllStraight(AddOffset(r, offset))
    ensures var t := After(AddOffset(r, offset), s, w);
            Reg(t, r) == Sum(Reg(s, r), offset) && Touches(s, t, {r, SCRATCH_1})
  {
    hide Immediate, Put, Sum, Reg, Low;
    if offset == 0 {
      WordIsLow(Reg(s, r));
    } else if Encodable(offset) {
      AddImmediateAdds(r, r, offset, s, w);
      PutTouches(s, r, Sum(Reg(s, r), offset));
      WordIsLow(Sum(Reg(s, r), offset));
    } else {
      LargeOffsetAdds(r, r, SCRATCH_1, offset, s, w);
    }
  }

  // ---------------------------------------------------------------- loads

  predicate ScaledOffset(offset: nat) {
    offset <= 0xfff * WORD_SIZE && offset % WORD_SIZE == 0
  }

  /// Registers that may hold an address or an offset, in order of preference.
  const CANDIDATES: seq<nat> := [SCRATCH_1, SCRATCH_0, 2, 1, 3]

  function Free(candidates: seq<nat>, base: nat, excluded: seq<nat>): (r: seq<nat>)
    ensures forall x | x in r :: x in candidates && x != base && x !in excluded
  {
    if candidates == [] then []
    else
      (if candidates[0] == base || candidates[0] in excluded then [] else [candidates[0]])
      + Free(candidates[1..], base, excluded)
  }

  /// Offsets that a load cannot encode are added in scratch registers.
  function LoadNative(destination: nat, base: nat, offset: Word64): seq<Operation> {
    var free := Free(CANDIDATES, base, [destination]);
    if ScaledOffset(offset) || |free| < 2 then [LoadDouble(destination, base, offset)]
    else
      MoveCode(base, free[0]) + (Immediate(free[1], offset) + [AddRegister(free[0], free[0], free[1])])
      + [LoadDouble(destination, free[0], 0)]
  }

  function MoveCode(source: nat, destination: nat): seq<Operation> {
    if source == destination then [] else [AddImmediate(destination, source, 0)]
  }

  lemma ScratchIsFree(base: nat, destination: nat)
    requires base <= 1 && destination <= 1
    ensures |Free(CANDIDATES, base, [destination])| >= 2
    ensures Free(CANDIDATES, base, [destination])[0] == SCRATCH_1 && Free(CANDIDATES, base, [destination])[1] == SCRATCH_0
  {
    assert CANDIDATES[1..] == [SCRATCH_0, 2, 1, 3];
    assert CANDIDATES[1..][1..] == [2, 1, 3];
    assert Free(CANDIDATES, base, [destination]) == [SCRATCH_1] + Free(CANDIDATES[1..], base, [destination]);
    assert Free(CANDIDATES[1..], base, [destination]) == [SCRATCH_0] + Free([2, 1, 3], base, [destination]);
  }

  lemma MoveMoves(source: nat, destination: nat, s: State, w: World)
    requires destination != ZERO_REGISTER
    ensures AllStraight(MoveCode(source, destination))
    ensures var t := After(MoveCode(source, destination), s, w);
            Reg(t, destination) == Reg(s, source) && Touches(s, t, {destination})
  {
    hide Put, Sum, Reg, Low;
    if source != destination {
      AddImmediateAdds(destination, source, 0, s, w);
      WordIsLow(Reg(s, source));
      PutTouches(s, destination, Reg(s, source));
    }
  }

  lemma LoadLoads(d: nat, base: nat, offset: Word64, s: State, w: World)
    requires d != ZERO_REGISTER
    ensures AllStraight([LoadDouble(d, base, offset)])
    ensures var t := After([LoadDouble(d, base, offset)], s, w);
            Reg(t, d) == w.memory(Sum(Reg(s, base), offset)) && Touches(s, t, {d})
  {
    var value := w.memory(Sum(Reg(s, base), offset));
    AfterOne(LoadDouble(d, base, offset), s, w);
    PutTouches(s, d, value);
    WordIsLow(value);
    hide Put, Sum, Reg, Low, After;
  }

  /// A load through x0 reads at the offset, and touches the scratch registers at most.
  lemma LoadNativeLoads(d: nat, offset: Word64, s: State, w: World)
    requires d <= 1
    ensures AllStraight(LoadNative(d, ADDRESS, offset))
    ensures var t := After(LoadNative(d, ADDRESS, offset), s, w);
            Reg(t, d) == w.memory(Sum(Reg(s, ADDRESS), offset)) && Touches(s, t, {d, SCRATCH_0, SCRATCH_1})
  {
    hide Put, Sum, Reg, Low, LoadNative, MoveCode, Immediate, After, AllStraight, Touches, ScaledOffset, Free;
    LoadNativeForm(d, offset);
    if ScaledOffset(offset) {
      LoadLoads(d, ADDRESS, offset, s, w);
      TouchesMore(s, After([LoadDouble(d, ADDRESS, offset)], s, w), {d}, {d, SCRATCH_0, SCRATCH_1});
    } else {
      var move, add, load := MoveCode(ADDRESS, SCRATCH_1), Immediate(SCRATCH_0, offset) + [AddRegister(SCRATCH_1, SCRATCH_1, SCRATCH_0)], [LoadDouble(d, SCRATCH_1, 0)];
      MoveMoves(ADDRESS, SCRATCH_1, s, w);
      var t := After(move, s, w);
      LargeOffsetAdds(SCRATCH_1, SCRATCH_1, SCRATCH_0, offset, t, w);
      var u := After(add, t, w);
      WordIsLow(Sum(Reg(s, ADDRESS), offset));
      LoadLoads(d, SCRATCH_1, 0, u, w);
      AfterJoin(move, add, s, w);
      AfterJoin(move + add, load, s, w);
      var v := After(load, u, w);
      TouchesJoin(s, t, u, {SCRATCH_1}, {SCRATCH_1, SCRATCH_0});
      TouchesJoin(s, u, v, {SCRATCH_1} + {SCRATCH_1, SCRATCH_0}, {d});
      assert {SCRATCH_1} + {SCRATCH_1, SCRATCH_0} + {d} == {d, SCRATCH_0, SCRATCH_1};
    }
  }

  lemma LoadNativeForm(d: nat, offset: Word64)
    requires d <= 1
    ensures LoadNative(d, ADDRESS, offset) ==
            if ScaledOffset(offset) then [LoadDouble(d, ADDRESS, offset)]
            else MoveCode(ADDRESS, SCRATCH_1) + (Immediate(SCRATCH_0, offset) + [AddRegister(SCRATCH_1, SCRATCH_1, SCRATCH_0)])
                 + [LoadDouble(d, SCRATCH_1, 0)]
  {
    ScratchIsFree(ADDRESS, d);
    hide Free, Immediate, MoveCode, ScaledOffset;
  }

  // ---------------------------------------------------------------- the stack frame

  /// The address of a stack offset, formed in the destination alone.
  function FormStackAddress(destination: nat, offset: Word64): seq<Operation> {
    if Encodable(offset) then [AddImmediate(destination, STACK_POINTER, offset)]
    else Immediate(destination, offset) + [AddRegister(destination, STACK_POINTER, destination)]
  }

  lemma StackAddressIsFormed(d: nat, offset: Word64, s: State, w: World)
    requires d < ZERO_REGISTER
    ensures AllStraight(FormStackAddress(d, offset))
    ensures var t := After(FormStackAddress(d, offset), s, w);
            Reg(t, d) == Sum(Reg(s, STACK_POINTER), offset) && Touches(s, t, {d})
  {
    hide Put, Sum, Reg, Low, Immediate;
    if Encodable(offset) {
      AddImmediateAdds(d, STACK_POINTER, offset, s, w);
      PutTouches(s, d, Sum(Reg(s, STACK_POINTER), offset));
      WordIsLow(Sum(Reg(s, STACK_POINTER), offset));
    } else {
      LargeOffsetAdds(d, STACK_POINTER, d, offset, s, w);
      assert {d, d} == {d};
    }
  }

  function LoadStack(destination: nat, offset: Word64): seq<Operation> {
    if ScaledOffset(offset) then [LoadDouble(destination, STACK_POINTER, offset)]
    else FormStackAddress(destination, offset) + [LoadDouble(destination, destination, 0)]
  }

  lemma LoadStackLoads(d: nat, offset: Word64, s: State, w: World)
    requires d < ZERO_REGISTER
    ensures AllStraight(LoadStack(d, offset))
    ensures var t := After(LoadStack(d, offset), s, w);
            Reg(t, d) == w.memory(Sum(Reg(s, STACK_POINTER), offset)) && Touches(s, t, {d})
  {
    LoadStackForm(d, offset);
    hide Put, Sum, Reg, Low, FormStackAddress, LoadStack, After, AllStraight, Touches, ScaledOffset;
    if ScaledOffset(offset) {
      LoadLoads(d, STACK_POINTER, offset, s, w);
    } else {
      var form, load := FormStackAddress(d, offset), [LoadDouble(d, d, 0)];
      StackAddressIsFormed(d, offset, s, w);
      var t := After(form, s, w);
      WordIsLow(Sum(Reg(s, STACK_POINTER), offset));
      LoadLoads(d, d, 0, t, w);
      AfterJoin(form, load, s, w);
      TouchesJoin(s, t, After(load, t, w), {d}, {d});
      assert {d} + {d} == {d};
    }
  }

  lemma LoadStackForm(d: nat, offset: Word64)
    ensures LoadStack(d, offset) == if ScaledOffset(offset) then [LoadDouble(d, STACK_POINTER, offset)]
                                    else FormStackAddress(d, offset) + [LoadDouble(d, d, 0)]
  {
  }

  // ---------------------------------------------------------------- virtual registers

  datatype Location = Physical(register: nat) | Spilled(offset: Word64)

  datatype EmissionError =
    | UnknownVirtualRegister(register: nat)
    | UnknownFrameObject(frameObject: nat)
    | UnknownData(data: nat)
    | MissingAsyncFramePointer
    | OffsetOverflow

  /// Where virtual registers, frame objects and the pointer to the heap frame are.
  datatype Layout = Layout(locations: seq<Location>, objects: map<nat, Word64>, heapFramePointer: Option<Word64>, data: set<nat>)

  predicate ValidLayout(l: Layout) {
    forall i | 0 <= i < |l.locations| && l.locations[i].Physical? :: Allocatable(l.locations[i].register)
  }

  function LocationWord(location: Location, s: State, w: World): Word64 {
    match location
    case Physical(r) => Reg(s, r)
    case Spilled(offset) => w.memory(Sum(Reg(s, STACK_POINTER), offset))
  }

  /// What the selected address reads, as the state has it.
  function RegistersOf(l: Layout, s: State, w: World): Registers {
    Registers(
      (i: nat) => if i < |l.locations| then LocationWord(l.locations[i], s, w) else 0,
      (o: nat) => if o in l.objects then Sum(Reg(s, STACK_POINTER), l.objects[o]) else 0,
      if l.heapFramePointer.Some? then w.memory(Sum(Reg(s, STACK_POINTER), l.heapFramePointer.value)) else 0,
      w.data,
      w.memory)
  }

  const CLOBBERED: set<nat> := {ADDRESS, VIEW_LENGTH, SCRATCH_0, SCRATCH_1}

  ghost predicate Keeps(s: State, t: State) {
    Touches(s, t, CLOBBERED)
  }

  /// Resolution never moves the words that it reads.
  lemma WordsAreKept(l: Layout, i: nat, s: State, t: State, w: World)
    requires ValidLayout(l) && Keeps(s, t) && i < |l.locations|
    ensures LocationWord(l.locations[i], t, w) == LocationWord(l.locations[i], s, w)
    ensures Reg(t, STACK_POINTER) == Reg(s, STACK_POINTER)
  {
    hide Reg;
  }

  /// Reading a virtual register: where it is afterwards, and the code that brings it there.
  function ReadRegister(location: Location, scratch: nat): (seq<Operation>, nat) {
    match location
    case Physical(r) => ([], r)
    case Spilled(offset) => (LoadStack(scratch, offset), scratch)
  }

  lemma ReadReads(location: Location, scratch: nat, s: State, w: World)
    requires scratch < ZERO_REGISTER
    ensures AllStraight(ReadRegister(location, scratch).0)
    ensures var (code, r) := ReadRegister(location, scratch);
            var t := After(code, s, w);
            Reg(t, r) == LocationWord(location, s, w) && Touches(s, t, {scratch})
  {
    hide Put, Sum, Reg, Low, LoadStack;
    if location.Spilled? {
      LoadStackLoads(scratch, location.offset, s, w);
    }
  }

  function MoveSelected(location: Location, destination: nat): seq<Operation> {
    var (code, r) := ReadRegister(location, SCRATCH_0);
    code + MoveCode(r, destination)
  }

  lemma MoveSelectedMoves(location: Location, d: nat, s: State, w: World)
    requires d <= 1
    ensures AllStraight(MoveSelected(location, d))
    ensures var t := After(MoveSelected(location, d), s, w);
            Reg(t, d) == LocationWord(location, s, w) && Touches(s, t, {d, SCRATCH_0})
  {
    hide Put, Sum, Reg, Low, ReadRegister, MoveCode, After, AllStraight, LocationWord, Touches;
    var (code, r) := ReadRegister(location, SCRATCH_0);
    ReadReads(location, SCRATCH_0, s, w);
    var t := After(code, s, w);
    MoveMoves(r, d, t, w);
    AfterJoin(code, MoveCode(r, d), s, w);
    TouchesJoin(s, t, After(MoveCode(r, d), t, w), {SCRATCH_0}, {d});
    assert {SCRATCH_0} + {d} == {d, SCRATCH_0};
  }

  // ---------------------------------------------------------------- steps

  /// Traps unless the index is below the bound.
  function BoundsCheck(index: nat, bound: nat): seq<Operation> {
    Lift(CompareRegisters(Bits64, index, bound) + TrapIf(CarrySet))
  }

  function Advance(index: nat, stride: Word64): seq<Operation> {
    Immediate(SCRATCH_1, stride) + [Core(MultiplyAdd(Bits64, ADDRESS, index, SCRATCH_1, ADDRESS, false))]
  }

  function BoundCode(index: nat, bound: Bound): seq<Operation> {
    if bound.CurrentView? then BoundsCheck(index, VIEW_LENGTH)
    else Immediate(SCRATCH_1, bound.length) + BoundsCheck(index, SCRATCH_1)
  }

  function IndexRegister(l: Layout, index: SelectedIndex): Result<(seq<Operation>, nat), EmissionError> {
    match index
    case ConstantIndex(i) => Ok((Immediate(SCRATCH_0, i), SCRATCH_0))
    case RegisterIndex(r) =>
      if r >= |l.locations| then Err(UnknownVirtualRegister(r)) else Ok(ReadRegister(l.locations[r], SCRATCH_0))
  }

  function IndexCode(l: Layout, index: SelectedIndex, stride: Word64, bound: Bound, check: Check): Result<seq<Operation>, EmissionError> {
    if check.ProvenTrap? then Ok([Core(Break)])
    else if check.ProvenInBounds? && index.ConstantIndex? then
      ProductIsMonotone(0, index.constant, stride);
      if index.constant * stride >= M64 then Err(OffsetOverflow) else Ok(AddOffset(ADDRESS, index.constant * stride))
    else
      var read := IndexRegister(l, index);
      if read.Err? then Err(read.error)
      else
        var (code, register) := read.value;
        Ok(code + ((if check.Required? then BoundCode(register, bound) else []) + Advance(register, stride)))
  }

  function StepCode(l: Layout, step: SelectedStep): Result<seq<Operation>, EmissionError> {
    match step
    case SelectedOffset(o) => Ok(AddOffset(ADDRESS, o))
    case OffsetRegister(r) =>
      if r >= |l.locations| then Err(UnknownVirtualRegister(r))
      else
        var (code, register) := ReadRegister(l.locations[r], SCRATCH_0);
        Ok(code + [AddRegister(ADDRESS, ADDRESS, register)])
    case SelectedDereference => Ok(LoadNative(ADDRESS, ADDRESS, 0))
    case SelectedViewDereference(pointer, size) => Ok(LoadNative(VIEW_LENGTH, ADDRESS, size) + LoadNative(ADDRESS, ADDRESS, pointer))
    case SelectedIndexStep(index, stride, bound, check) => IndexCode(l, index, stride, bound, check)
  }

  function StepsCode(l: Layout, steps: seq<SelectedStep>): Result<seq<Operation>, EmissionError> {
    if steps == [] then Ok([])
    else
      var first := StepCode(l, steps[0]);
      if first.Err? then first
      else
        var rest := StepsCode(l, steps[1..]);
        if rest.Err? then rest else Ok(first.value + rest.value)
  }

  function RootCode(l: Layout, root: SelectedRoot): Result<seq<Operation>, EmissionError> {
    match root
    case FrameObject(o) =>
      if o in l.objects then Ok(FormStackAddress(ADDRESS, l.objects[o])) else Err(UnknownFrameObject(o))
    case AsyncField(offset) =>
      if l.heapFramePointer.None? then Err(MissingAsyncFramePointer)
      else Ok(LoadStack(ADDRESS, l.heapFramePointer.value) + AddOffset(ADDRESS, offset))
    case DataAddress(d) => if d in l.data then Ok([LoadDataAddress(ADDRESS, d)]) else Err(UnknownData(d))
    case Pointer(r) =>
      if r >= |l.locations| then Err(UnknownVirtualRegister(r)) else Ok(MoveSelected(l.locations[r], ADDRESS))
    case View(pointer, length) =>
      if pointer >= |l.locations| then Err(UnknownVirtualRegister(pointer))
      else if length >= |l.locations| then Err(UnknownVirtualRegister(length))
      else Ok(MoveSelected(l.locations[pointer], ADDRESS) + MoveSelected(l.locations[length], VIEW_LENGTH))
  }

  function ResolveCode(l: Layout, root: SelectedRoot, steps: seq<SelectedStep>): Result<seq<Operation>, EmissionError> {
    var first := RootCode(l, root);
    if first.Err? then first
    else
      var rest := StepsCode(l, steps);
      if rest.Err? then rest else Ok(first.value + rest.value)
  }

  // ---------------------------------------------------------------- what the code does

  lemma BoundsCheckForm(index: nat, bound: nat, rest: seq<Operation>)
    ensures BoundsCheck(index, bound) + rest ==
            [Core(CompareRegisters(Bits64, index, bound)[0])] + ([Core(Skip(Invert(CarrySet), 2)), Core(Break)] + rest)
  {
  }

  lemma CompareSetsFlags(index: nat, bound: nat, s: State, w: World)
    ensures Straight(Core(CompareRegisters(Bits64, index, bound)[0]))
    ensures Effect(Core(CompareRegisters(Bits64, index, bound)[0]), s, w) == WithFlags(s, SubtractFlags(Reg(s, index), Reg(s, bound), Bits64))
  {
    hide Low, SubtractFlags, Reg;
    WordIsLow(Reg(s, index));
    WordIsLow(Reg(s, bound));
  }

  lemma BoundsCheckTraps(index: nat, bound: nat, rest: seq<Operation>, s: State, w: World) returns (t: State)
    ensures Touches(s, t, {})
    ensures Exec2(BoundsCheck(index, bound) + rest, s, w) == if Reg(s, index) >= Reg(s, bound) then Trap else Exec2(rest, t, w)
  {
    hide Low, SubtractFlags, Exec2, Holds, BoundsCheck, Effect;
    var x, y := Reg(s, index), Reg(s, bound);
    t := WithFlags(s, SubtractFlags(x, y, Bits64));
    BoundsCheckForm(index, bound, rest);
    CompareSetsFlags(index, bound, s, w);
    ExecOne(Core(CompareRegisters(Bits64, index, bound)[0]), [Core(Skip(Invert(CarrySet), 2)), Core(Break)] + rest, s, w);
    ComparisonMeans(x, y, Bits64);
    InvertedConditionIsTheOpposite(CarrySet, t.flags);
    SkipOrStop(Invert(CarrySet), rest, t, w);
  }

  lemma SkipOrStop(condition: Condition, rest: seq<Operation>, s: State, w: World)
    ensures Exec2([Core(Skip(condition, 2)), Core(Break)] + rest, s, w) == if Holds(condition, s.flags) then Exec2(rest, s, w) else Trap
  {
    var code := [Core(Skip(condition, 2)), Core(Break)] + rest;
    assert code[2..] == rest && code[1..][0] == Core(Break);
    hide Holds;
  }

  lemma AdvanceAdds(index: nat, stride: Word64, s: State, w: World)
    requires index != SCRATCH_1
    ensures AllStraight(Advance(index, stride))
    ensures var t := After(Advance(index, stride), s, w);
            Reg(t, ADDRESS) == Sum(Reg(s, ADDRESS), Reg(s, index) * stride) && Touches(s, t, {ADDRESS, SCRATCH_1})
  {
    hide Put, Reg, Low, Sum, Immediate, After, Exec2, Exec, Touches;
    var load, add := Immediate(SCRATCH_1, stride), Core(MultiplyAdd(Bits64, ADDRESS, index, SCRATCH_1, ADDRESS, false));
    ImmediateIsLoaded(SCRATCH_1, stride, s, w);
    var u := Put(s, SCRATCH_1, Bits64, stride);
    PutTouches(s, SCRATCH_1, stride);
    WordIsLow(stride);
    TouchesSpares(s, u, {SCRATCH_1}, ADDRESS);
    TouchesSpares(s, u, {SCRATCH_1}, index);
    AfterOne(add, u, w);
    AfterJoin(load, [add], s, w);
    var sum := Reg(s, ADDRESS) + Reg(s, index) * stride;
    WordIsLow(Reg(s, ADDRESS));
    WordIsLow(Reg(s, index));
    assert Effect(add, u, w) == Put(u, ADDRESS, Bits64, sum);
    PutTouches(u, ADDRESS, sum);
    TouchesJoin(s, u, Put(u, ADDRESS, Bits64, sum), {SCRATCH_1}, {ADDRESS});
    assert {SCRATCH_1} + {ADDRESS} == {ADDRESS, SCRATCH_1};
    SumIsLow();
  }

  lemma BoundCodeTraps(index: nat, bound: Bound, rest: seq<Operation>, s: State, w: World) returns (t: State)
    requires index != SCRATCH_1
    ensures Touches(s, t, {SCRATCH_1})
    ensures Exec2(BoundCode(index, bound) + rest, s, w) ==
            if Reg(s, index) >= (if bound.CurrentView? then Reg(s, VIEW_LENGTH) else bound.length) then Trap else Exec2(rest, t, w)
  {
    hide Reg, Low, Put, Exec2, Exec, BoundsCheck, Immediate, After, Touches;
    if bound.CurrentView? {
      t := BoundsCheckTraps(index, VIEW_LENGTH, rest, s, w);
      TouchesMore(s, t, {}, {SCRATCH_1});
    } else {
      var load := Immediate(SCRATCH_1, bound.length);
      ImmediateIsLoaded(SCRATCH_1, bound.length, s, w);
      var u := After(load, s, w);
      PutTouches(s, SCRATCH_1, bound.length);
      WordIsLow(bound.length);
      TouchesSpares(s, u, {SCRATCH_1}, index);
      t := BoundsCheckTraps(index, SCRATCH_1, rest, u, w);
      ExecAfter(load, BoundsCheck(index, SCRATCH_1) + rest, s, w);
      assert load + BoundsCheck(index, SCRATCH_1) + rest == load + (BoundsCheck(index, SCRATCH_1) + rest);
      TouchesJoin(s, u, t, {SCRATCH_1}, {});
      assert {SCRATCH_1} + {} == {SCRATCH_1};
    }
  }

  /// The index that a step reads.
  function IndexWord(index: SelectedIndex, r: Registers): Word64 {
    if index.ConstantIndex? then index.constant else r.words(index.register)
  }

  lemma IndexIsRead(l: Layout, index: SelectedIndex, s0: State, s: State, w: World)
    requires ValidLayout(l) && Keeps(s0, s) && IndexRegister(l, index).Ok?
    ensures var (code, register) := IndexRegister(l, index).value;
            && AllStraight(code) && register != SCRATCH_1 && register != ADDRESS && register != VIEW_LENGTH
            && var t := After(code, s, w);
               Reg(t, register) == IndexWord(index, RegistersOf(l, s0, w)) && Touches(s, t, {SCRATCH_0})
  {
    hide Reg, Low, Put, Exec, Immediate, After, AllStraight, Touches, LocationWord, Sum, LoadStack;
    if index.ConstantIndex? {
      ImmediateIsLoaded(SCRATCH_0, index.constant, s, w);
      PutTouches(s, SCRATCH_0, index.constant);
      WordIsLow(index.constant);
    } else {
      var location := l.locations[index.register];
      ReadReads(location, SCRATCH_0, s, w);
      WordsAreKept(l, index.register, s0, s, w);
    }
  }

  /// An index with its check: the trap, or the scaled index added.
  lemma IndexResolves(l: Layout, index: SelectedIndex, stride: Word64, bound: Bound, check: Check,
                      s0: State, s: State, w: World, rest: seq<Operation>) returns (t: State)
    requires ValidLayout(l) && Keeps(s0, s) && IndexCode(l, index, stride, bound, check).Ok?
    ensures var code := IndexCode(l, index, stride, bound, check).value;
            var p := SelectedStepPlace(SelectedIndexStep(index, stride, bound, check), Reg(s, ADDRESS), Reg(s, VIEW_LENGTH), RegistersOf(l, s0, w));
            && Exec2(code + rest, s, w) == (if p.Stopped? then Trap else Exec2(rest, t, w))
            && (p.Reached? ==> Reg(t, ADDRESS) == p.address && Reg(t, VIEW_LENGTH) == p.length && Touches(s, t, {ADDRESS, SCRATCH_0, SCRATCH_1}))
  {
    hide Reg, Low, Put, Exec, Exec2, After, AllStraight, Touches, Sum, RegistersOf, IndexRegister, BoundCode, Advance, AddOffset, Keeps;
    t := s;
    if check.ProvenTrap? {
      ExecBreak(rest, s, w);
    } else if check.ProvenInBounds? && index.ConstantIndex? {
      var code := AddOffset(ADDRESS, index.constant * stride);
      AddOffsetAdds(ADDRESS, index.constant * stride, s, w);
      ExecAfter(code, rest, s, w);
      t := After(code, s, w);
      TouchesSpares(s, t, {ADDRESS, SCRATCH_1}, VIEW_LENGTH);
      TouchesMore(s, t, {ADDRESS, SCRATCH_1}, {ADDRESS, SCRATCH_0, SCRATCH_1});
    } else {
      t := ReadIndexResolves(l, index, stride, bound, check, s0, s, w, rest);
    }
  }

  lemma ExecBreak(rest: seq<Operation>, s: State, w: World)
    ensures Exec2([Core(Break)] + rest, s, w) == Trap
  {
  }

  lemma ReadIndexResolves(l: Layout, index: SelectedIndex, stride: Word64, bound: Bound, check: Check,
                          s0: State, s: State, w: World, rest: seq<Operation>) returns (t: State)
    requires ValidLayout(l) && Keeps(s0, s) && IndexCode(l, index, stride, bound, check).Ok?
    requires !check.ProvenTrap? && (check.ProvenInBounds? ==> !index.ConstantIndex?)
    ensures var code := IndexCode(l, index, stride, bound, check).value;
            var i := IndexWord(index, RegistersOf(l, s0, w));
            var limit := if bound.CurrentView? then Reg(s, VIEW_LENGTH) else bound.length;
            if check.Required? && i >= limit then Exec2(code + rest, s, w) == Trap
            else
              && Exec2(code + rest, s, w) == Exec2(rest, t, w)
              && Reg(t, ADDRESS) == Sum(Reg(s, ADDRESS), i * stride) && Reg(t, VIEW_LENGTH) == Reg(s, VIEW_LENGTH)
              && Touches(s, t, {ADDRESS, SCRATCH_0, SCRATCH_1})
  {
    hide Reg, Low, Put, Exec, Exec2, After, AllStraight, Touches, Sum, RegistersOf, IndexRegister, BoundCode, Advance, Keeps, IndexWord;
    var (read, register) := IndexRegister(l, index).value;
    var check0 := if check.Required? then BoundCode(register, bound) else [];
    var add := Advance(register, stride);
    IndexIsRead(l, index, s0, s, w);
    var u := After(read, s, w);
    ExecAfter(read, check0 + add + rest, s, w);
    assert read + (check0 + add) + rest == read + (check0 + add + rest);
    TouchesSpares(s, u, {SCRATCH_0}, ADDRESS);
    TouchesSpares(s, u, {SCRATCH_0}, VIEW_LENGTH);
    var v := u;
    if check.Required? {
      v := BoundCodeTraps(register, bound, add + rest, u, w);
      assert check0 + add + rest == check0 + (add + rest);
    } else {
      assert check0 + add + rest == add + rest;
      TouchesNothing(u, {SCRATCH_1});
    }
    TouchesSpares(u, v, {SCRATCH_1}, ADDRESS);
    TouchesSpares(u, v, {SCRATCH_1}, VIEW_LENGTH);
    TouchesSpares(u, v, {SCRATCH_1}, register);
    AdvanceAdds(register, stride, v, w);
    ExecAfter(add, rest, v, w);
    t := After(add, v, w);
    TouchesSpares(v, t, {ADDRESS, SCRATCH_1}, VIEW_LENGTH);
    TouchesJoin(s, u, v, {SCRATCH_0}, {SCRATCH_1});
    TouchesJoin(s, v, t, {SCRATCH_0} + {SCRATCH_1}, {ADDRESS, SCRATCH_1});
    assert {SCRATCH_0} + {SCRATCH_1} + {ADDRESS, SCRATCH_1} == {ADDRESS, SCRATCH_0, SCRATCH_1};
  }

  lemma TouchesNothing(s: State, touched: set<nat>)
    ensures Touches(s, s, touched)
  {
  }

  lemma KeepsMore(s0: State, s: State, t: State, touched: set<nat>)
    requires Keeps(s0, s) && Touches(s, t, touched) && touched <= CLOBBERED
    ensures Keeps(s0, t)
  {
    hide Reg;
  }

  /// Each step's code does the step, or traps where the step stops.
  lemma StepResolves(l: Layout, step: SelectedStep, s0: State, s: State, w: World, rest: seq<Operation>) returns (t: State)
    requires ValidLayout(l) && Keeps(s0, s) && StepCode(l, step).Ok?
    ensures var p := SelectedStepPlace(step, Reg(s, ADDRESS), Reg(s, VIEW_LENGTH), RegistersOf(l, s0, w));
            && Exec2(StepCode(l, step).value + rest, s, w) == (if p.Stopped? then Trap else Exec2(rest, t, w))
            && (p.Reached? ==> Reg(t, ADDRESS) == p.address && Reg(t, VIEW_LENGTH) == p.length && Keeps(s0, t))
  {
    hide Reg, Low, Put, Exec, Exec2, After, AllStraight, Touches, Sum, IndexCode, AddOffset, LoadNative, ReadRegister, LocationWord, Keeps;
    match step
    case SelectedOffset(o) =>
      AddOffsetAdds(ADDRESS, o, s, w);
      ExecAfter(AddOffset(ADDRESS, o), rest, s, w);
      t := After(AddOffset(ADDRESS, o), s, w);
      TouchesSpares(s, t, {ADDRESS, SCRATCH_1}, VIEW_LENGTH);
      KeepsMore(s0, s, t, {ADDRESS, SCRATCH_1});
    case OffsetRegister(v) =>
      t := OffsetRegisterResolves(l, v, s0, s, w, rest);
    case SelectedDereference =>
      LoadNativeLoads(ADDRESS, 0, s, w);
      WordIsLow(Reg(s, ADDRESS));
      ExecAfter(LoadNative(ADDRESS, ADDRESS, 0), rest, s, w);
      t := After(LoadNative(ADDRESS, ADDRESS, 0), s, w);
      TouchesSpares(s, t, {ADDRESS, SCRATCH_0, SCRATCH_1}, VIEW_LENGTH);
      KeepsMore(s0, s, t, {ADDRESS, SCRATCH_0, SCRATCH_1});
    case SelectedViewDereference(pointer, size) =>
      t := ViewDereferenceResolves(pointer, size, s0, s, w, rest);
    case SelectedIndexStep(index, stride, bound, check) =>
      t := IndexResolves(l, index, stride, bound, check, s0, s, w, rest);
      var p := SelectedStepPlace(step, Reg(s, ADDRESS), Reg(s, VIEW_LENGTH), RegistersOf(l, s0, w));
      if p.Reached? {
        KeepsMore(s0, s, t, {ADDRESS, SCRATCH_0, SCRATCH_1});
      }
  }

  lemma OffsetRegisterResolves(l: Layout, v: nat, s0: State, s: State, w: World, rest: seq<Operation>) returns (t: State)
    requires ValidLayout(l) && Keeps(s0, s) && v < |l.locations|
    ensures var (code, register) := ReadRegister(l.locations[v], SCRATCH_0);
            Exec2(code + [AddRegister(ADDRESS, ADDRESS, register)] + rest, s, w) == Exec2(rest, t, w)
    ensures Reg(t, ADDRESS) == Sum(Reg(s, ADDRESS), LocationWord(l.locations[v], s0, w))
    ensures Reg(t, VIEW_LENGTH) == Reg(s, VIEW_LENGTH) && Keeps(s0, t)
  {
    hide Reg, Low, Put, Exec, Exec2, After, AllStraight, Touches, Sum, ReadRegister, LocationWord, Keeps;
    var (read, register) := ReadRegister(l.locations[v], SCRATCH_0);
    var add := [AddRegister(ADDRESS, ADDRESS, register)];
    ReadReads(l.locations[v], SCRATCH_0, s, w);
    WordsAreKept(l, v, s0, s, w);
    var u := After(read, s, w);
    AddIsStraight(ADDRESS, ADDRESS, register);
    AddRegisterAdds(ADDRESS, ADDRESS, register, u, w);
    ExecAfter(read, add + rest, s, w);
    ExecAfter(add, rest, u, w);
    assert read + add + rest == read + (add + rest);
    t := After(add, u, w);
    var sum := Sum(Reg(u, ADDRESS), Reg(u, register));
    PutTouches(u, ADDRESS, sum);
    WordIsLow(sum);
    TouchesSpares(s, u, {SCRATCH_0}, ADDRESS);
    TouchesSpares(s, u, {SCRATCH_0}, VIEW_LENGTH);
    TouchesSpares(u, t, {ADDRESS}, VIEW_LENGTH);
    KeepsMore(s0, s, u, {SCRATCH_0});
    KeepsMore(s0, u, t, {ADDRESS});
  }

  /// The length is loaded first: the pointer load overwrites the address.
  lemma ViewDereferenceResolves(pointer: Word64, size: Word64, s0: State, s: State, w: World, rest: seq<Operation>) returns (t: State)
    requires Keeps(s0, s)
    ensures Exec2(LoadNative(VIEW_LENGTH, ADDRESS, size) + LoadNative(ADDRESS, ADDRESS, pointer) + rest, s, w) == Exec2(rest, t, w)
    ensures Reg(t, ADDRESS) == w.memory(Sum(Reg(s, ADDRESS), pointer))
    ensures Reg(t, VIEW_LENGTH) == w.memory(Sum(Reg(s, ADDRESS), size)) && Keeps(s0, t)
  {
    hide Reg, Low, Put, Exec, Exec2, After, AllStraight, Touches, Sum, LoadNative, Keeps;
    var a, b := LoadNative(VIEW_LENGTH, ADDRESS, size), LoadNative(ADDRESS, ADDRESS, pointer);
    LoadNativeLoads(VIEW_LENGTH, size, s, w);
    var u := After(a, s, w);
    LoadNativeLoads(ADDRESS, pointer, u, w);
    t := After(b, u, w);
    ExecAfter(a, b + rest, s, w);
    ExecAfter(b, rest, u, w);
    assert a + b + rest == a + (b + rest);
    TouchesSpares(s, u, {VIEW_LENGTH, SCRATCH_0, SCRATCH_1}, ADDRESS);
    TouchesSpares(u, t, {ADDRESS, SCRATCH_0, SCRATCH_1}, VIEW_LENGTH);
    KeepsMore(s0, s, u, {VIEW_LENGTH, SCRATCH_0, SCRATCH_1});
    KeepsMore(s0, u, t, {ADDRESS, SCRATCH_0, SCRATCH_1});
  }

  lemma {:induction false} StepsResolve(l: Layout, steps: seq<SelectedStep>, s0: State, s: State, w: World) returns (t: State)
    requires ValidLayout(l) && Keeps(s0, s) && StepsCode(l, steps).Ok?
    ensures var p := SelectedStepsPlace(steps, Reg(s, ADDRESS), Reg(s, VIEW_LENGTH), RegistersOf(l, s0, w));
            && Exec2(StepsCode(l, steps).value, s, w) == (if p.Stopped? then Trap else Done(t))
            && (p.Reached? ==> Reg(t, ADDRESS) == p.address && Reg(t, VIEW_LENGTH) == p.length && Keeps(s0, t))
    decreases |steps|
  {
    hide Reg, StepCode, SelectedStepPlace, Keeps, RegistersOf;
    t := s;
    if steps != [] {
      var rest := StepsCode(l, steps[1..]).value;
      hide Exec2;
      var u := StepResolves(l, steps[0], s0, s, w, rest);
      if SelectedStepPlace(steps[0], Reg(s, ADDRESS), Reg(s, VIEW_LENGTH), RegistersOf(l, s0, w)).Reached? {
        t := StepsResolve(l, steps[1..], s0, u, w);
      }
    }
  }

  lemma RootResolves(l: Layout, root: SelectedRoot, s: State, w: World)
    requires ValidLayout(l) && RootCode(l, root).Ok?
    ensures AllStraight(RootCode(l, root).value)
    ensures var (address, length) := SelectedRootPlace(root, Reg(s, VIEW_LENGTH), RegistersOf(l, s, w));
            var t := After(RootCode(l, root).value, s, w);
            Reg(t, ADDRESS) == address && Reg(t, VIEW_LENGTH) == length && Keeps(s, t)
  {
    hide Reg, Low, Put, Exec, Exec2, After, AllStraight, Touches, Sum, FormStackAddress, LoadStack, AddOffset, MoveSelected, LocationWord, Keeps;
    TouchesNothing(s, CLOBBERED);
    KeepsSelf(s);
    var code := RootCode(l, root).value;
    match root
    case FrameObject(o) =>
      StackAddressIsFormed(ADDRESS, l.objects[o], s, w);
      var t := After(code, s, w);
      TouchesSpares(s, t, {ADDRESS}, VIEW_LENGTH);
      KeepsMore(s, s, t, {ADDRESS});
    case AsyncField(offset) =>
      var load, add := LoadStack(ADDRESS, l.heapFramePointer.value), AddOffset(ADDRESS, offset);
      LoadStackLoads(ADDRESS, l.heapFramePointer.value, s, w);
      var u := After(load, s, w);
      AddOffsetAdds(ADDRESS, offset, u, w);
      AfterJoin(load, add, s, w);
      var t := After(code, s, w);
      TouchesSpares(s, u, {ADDRESS}, VIEW_LENGTH);
      TouchesSpares(u, t, {ADDRESS, SCRATCH_1}, VIEW_LENGTH);
      KeepsMore(s, s, u, {ADDRESS});
      KeepsMore(s, u, t, {ADDRESS, SCRATCH_1});
    case DataAddress(d) =>
      AfterOne(LoadDataAddress(ADDRESS, d), s, w);
      var t := After(code, s, w);
      PutTouches(s, ADDRESS, w.data(d));
      WordIsLow(w.data(d));
      TouchesSpares(s, t, {ADDRESS}, VIEW_LENGTH);
      KeepsMore(s, s, t, {ADDRESS});
    case Pointer(r) =>
      MoveSelectedMoves(l.locations[r], ADDRESS, s, w);
      var t := After(code, s, w);
      TouchesSpares(s, t, {ADDRESS, SCRATCH_0}, VIEW_LENGTH);
      KeepsMore(s, s, t, {ADDRESS, SCRATCH_0});
    case View(pointer, length) =>
      var a, b := MoveSelected(l.locations[pointer], ADDRESS), MoveSelected(l.locations[length], VIEW_LENGTH);
      MoveSelectedMoves(l.locations[pointer], ADDRESS, s, w);
      var u := After(a, s, w);
      KeepsMore(s, s, u, {ADDRESS, SCRATCH_0});
      WordsAreKept(l, length, s, u, w);
      MoveSelectedMoves(l.locations[length], VIEW_LENGTH, u, w);
      AfterJoin(a, b, s, w);
      var t := After(code, s, w);
      TouchesSpares(u, t, {VIEW_LENGTH, SCRATCH_0}, ADDRESS);
      KeepsMore(s, u, t, {VIEW_LENGTH, SCRATCH_0});
  }

  lemma KeepsSelf(s: State)
    ensures Keeps(s, s)
  {
  }

  /// The emitted code follows the selected address.
  lemma CodeFollowsSelection(l: Layout, root: SelectedRoot, steps: seq<SelectedStep>, s: State, w: World) returns (t: State)
    requires ValidLayout(l) && ResolveCode(l, root, steps).Ok?
    ensures var p := SelectedPlace(root, steps, Reg(s, VIEW_LENGTH), RegistersOf(l, s, w));
            && Exec2(ResolveCode(l, root, steps).value, s, w) == (if p.Stopped? then Trap else Done(t))
            && (p.Reached? ==> Reg(t, ADDRESS) == p.address && Reg(t, VIEW_LENGTH) == p.length && Keeps(s, t))
  {
    hide Reg, RootCode, StepsCode, Exec2, After, Keeps, RegistersOf, SelectedStepsPlace, SelectedRootPlace;
    RootResolves(l, root, s, w);
    var first := RootCode(l, root).value;
    var u := After(first, s, w);
    ExecAfter(first, StepsCode(l, steps).value, s, w);
    t := StepsResolve(l, steps, s, u, w);
  }

  /// Resolving an accepted address leaves in x0 the address that the machine path denotes, and in x1
  /// the length of its view, and traps exactly where the path does. Nothing but x0, x1, x16 and x17
  /// changes.
  lemma ResolvedAddressIsDenoted(scope: Scope, a: Address, l: Layout, s: State, w: World, env: Env) returns (t: State)
    requires Select(scope, a).Ok? && Select(scope, a).value.Runtime?
    requires ValidLayout(l) && ResolveCode(l, Select(scope, a).value.root, Select(scope, a).value.steps).Ok?
    requires Carries(scope, env, RegistersOf(l, s, w))
    ensures var result := Exec2(ResolveCode(l, Select(scope, a).value.root, Select(scope, a).value.steps).value, s, w);
            var m := Denotes(a, env);
            && !m.Unbounded?
            && (m.Trapped? ==> result == Trap)
            && (m.At? ==> result == Done(t) && Reg(t, ADDRESS) == m.address && m.length.Some? == a.expectsView && Keeps(s, t)
                          && (a.expectsView ==> Reg(t, VIEW_LENGTH) == m.length.value))
  {
    hide Reg, ResolveCode, Exec2, Keeps, RegistersOf, SelectedPlace, Select, Denotes, Carries;
    var root, steps := Select(scope, a).value.root, Select(scope, a).value.steps;
    SelectionPreservesMeaning(scope, a, env, RegistersOf(l, s, w), Reg(s, VIEW_LENGTH));
    t := CodeFollowsSelection(l, root, steps, s, w);
  }
}
