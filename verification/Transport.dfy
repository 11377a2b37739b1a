/**
 How a caller passes arguments: one move after another into argument registers and the outgoing area.

 An instruction may leave anything in the registers that its materialization uses as scratch. The
 results hold whatever these registers hold.
 */
module Transport {
  import opened Results
  import opened ByteRanges
  import opened NocterAbi

  // ---------------------------------------------------------------- machine

  /// `sp` is the stack pointer of the function that runs.
  datatype Machine = Machine(registers: map<nat, Word>, floats: map<nat, Word>, memory: Bytes, sp: nat, clock: nat)

  /// What an instruction leaves in a scratch register, for each point of time.
  datatype Junk = Junk(general: (nat, nat) -> Word, floating: (nat, nat) -> Word)

  /// Where a word is read from. A virtual register lives in a register or on the stack.
  datatype Place = InRegister(register: nat) | InMemory(address: nat)

  datatype Instruction =
    | Move(destination: nat, source: Place)
    | Store(bytes: nat, address: nat, source: Place)
    | Load(bytes: nat, destination: nat, address: nat)
    | FormAddress(destination: nat, address: nat)
    | FloatMove(bytes: nat, destination: nat, source: Place)
    | FloatStore(bytes: nat, address: nat, source: Place)
    | FloatLoad(bytes: nat, destination: nat, address: nat)
    | CopyFrom(address: nat, pointer: nat, bytes: nat)
    | LoadThrough(bytes: nat, destination: nat, pointer: nat, offset: nat)
    | StoreThrough(bytes: nat, pointer: nat, offset: nat, register: nat)

  datatype Outcome = Done(machine: Machine) | Fault

  const SCRATCH: set<nat> := {16, 17}
  const FLOAT_SCRATCH: set<nat> := {30, 31}

  predicate Native(bytes: nat) {
    bytes == 1 || bytes == 2 || bytes == 4 || bytes == 8
  }

  /// The scratch registers of one instruction. A load without a native width is assembled in its
  /// destination from fragments, and copies keep both roots in further registers. A store without a
  /// native width is not in this table: `StoreFragments` has its steps.
  function Clobbers(i: Instruction): set<nat> {
    match i
    case Load(bytes, d, _) => if Native(bytes) then {} else {0, 1, 16, 17} - {d}
    case FormAddress(_, _) => {}
    case CopyFrom(_, _, _) => {0, 1, 2, 3, 4, 5, 6, 7, 16, 17}
    case LoadThrough(_, d, pointer, _) => {1, 2, 3, 16, 17} - {d, pointer}
    case StoreThrough(_, pointer, _, source) => {1, 2, 3, 16, 17} - {pointer, source}
    case _ => SCRATCH
  }

  function General(m: Machine, r: nat): Word {
    if r in m.registers then m.registers[r] else ZERO_WORD
  }

  function FloatRegister(m: Machine, r: nat): Word {
    if r in m.floats then m.floats[r] else ZERO_WORD
  }

  function Clobbered(m: Machine, i: Instruction, junk: Junk): Machine {
    Machine(m.registers + map r | r in Clobbers(i) :: junk.general(m.clock, r),
            m.floats + map r | r in FLOAT_SCRATCH :: junk.floating(m.clock, r),
            m.memory, m.sp, m.clock + 1)
  }

  function SetGeneral(m: Machine, d: nat, w: Word): Machine {
    m.(registers := m.registers[d := w])
  }

  function SetFloating(m: Machine, d: nat, w: Word): Machine {
    m.(floats := m.floats[d := w])
  }

  predicate InMemoryRange(m: Machine, address: nat, bytes: nat) {
    address + bytes <= |m.memory|
  }

  function Slice(m: Machine, address: nat, bytes: nat): (r: Bytes)
    requires InMemoryRange(m, address, bytes)
    ensures |r| == bytes
  {
    m.memory[address..address + bytes]
  }

  predicate Readable(m: Machine, p: Place) {
    p.InMemory? ==> InMemoryRange(m, p.address, WORD_SIZE)
  }

  function PlaceWord(m: Machine, p: Place): Word
    requires Readable(m, p)
  {
    if p.InRegister? then General(m, p.register) else Slice(m, p.address, WORD_SIZE)
  }

  function FloatWord(m: Machine, p: Place): Word
    requires Readable(m, p)
  {
    if p.InRegister? then FloatRegister(m, p.register) else Slice(m, p.address, WORD_SIZE)
  }

  function Pointer(w: Word): nat {
    FromBytes(w)
  }

  function PointerWord(address: nat): Word {
    ToBytes(address, WORD_SIZE)
  }

  function WriteMemory(m: Machine, address: nat, data: Bytes): Outcome {
    if address + |data| > |m.memory| then Fault else Done(m.(memory := Splice(m.memory, address, data)))
  }

  function Loaded(m: Machine, address: nat, bytes: nat): Word
    requires bytes <= 8 && InMemoryRange(m, address, bytes)
  {
    Truncated(Slice(m, address, bytes), bytes)
  }

  // ---------------------------------------------------------------- stores in fragments

  /// The widest fragment that fits.
  function FragmentWidth(remaining: nat): (r: nat)
    requires remaining > 0
    ensures 0 < r <= remaining && r <= 4
  {
    if remaining >= 4 then 4 else if remaining >= 2 then 2 else 1
  }

  /// The register that holds a shifted fragment, and the one that holds the shift amount: the first of
  /// x16, x17 and x0 other than the source.
  function FragmentRegister(source: nat): nat {
    if source == 16 then 17 else 16
  }

  function ShiftRegister(source: nat): nat {
    if source == 16 || source == 17 then 0 else 17
  }

  /// Where a store to the stack forms an address that it cannot encode.
  function AddressScratch(stored: nat): nat {
    if stored == 16 then 17 else 16
  }

  predicate StackEncodable(offset: nat, width: nat)
    requires width > 0
  {
    offset <= 0xfff * width && offset % width == 0
  }

  /// The bytes of `w` from `k` on, moved down.
  function ShiftedRight(w: Word, k: nat): Word
    requires k <= 8
  {
    w[k..] + Zeros(k)
  }

  /// The source shifted down for the fragment at `done`.
  function ShiftFragment(m: Machine, source: nat, done: nat): Machine
    requires done <= 8
  {
    var s := SetGeneral(m, ShiftRegister(source), PointerWord(8 * done));
    SetGeneral(s, FragmentRegister(source), ShiftedRight(General(s, source), done))
  }

  /// One fragment: the source is shifted unless it is the first, the address formed if it must be, and
  /// the low bytes stored.
  function StoreFragment(m: Machine, source: nat, address: nat, done: nat, width: nat): Machine
    requires done + width <= 8 && 0 < width && address + done + width <= |m.memory| && m.sp <= address
  {
    var stored := if done == 0 then source else FragmentRegister(source);
    var shifted := if done == 0 then m else ShiftFragment(m, source, done);
    var addressed := if StackEncodable(address + done - m.sp, width) then shifted
                     else SetGeneral(shifted, AddressScratch(stored), PointerWord(address + done));
    addressed.(memory := Splice(m.memory, address + done, General(addressed, stored)[..width]))
  }

  function StoreFragments(m: Machine, source: nat, address: nat, done: nat, bytes: nat): Machine
    requires done <= bytes <= 8 && address + bytes <= |m.memory| && m.sp <= address
    decreases bytes - done
  {
    if done == bytes then m
    else
      var width := FragmentWidth(bytes - done);
      StoreFragments(StoreFragment(m, source, address, done, width), source, address, done + width, bytes)
  }

  /// A spilled source is loaded into x16 first.
  function SourceRegister(p: Place): nat {
    if p.InRegister? then p.register else 16
  }

  function Fetched(m: Machine, p: Place): Machine
    requires Readable(m, p)
  {
    if p.InRegister? then m else SetGeneral(m, 16, PlaceWord(m, p))
  }

  // ---------------------------------------------------------------- steps

  /// Operands are read before anything is spoiled.
  function Step(i: Instruction, m: Machine, junk: Junk): Outcome {
    var after := Clobbered(m, i, junk);
    match i
    case Move(d, source) => if !Readable(m, source) then Fault else Done(SetGeneral(after, d, PlaceWord(m, source)))
    case Store(bytes, address, source) =>
      if !Readable(m, source) || bytes > 8 then Fault
      else if Native(bytes) then WriteMemory(after, address, PlaceWord(m, source)[..bytes])
      else if address < m.sp || !InMemoryRange(m, address, bytes) then Fault
      else Done(StoreFragments(Fetched(m, source).(clock := m.clock + 1), SourceRegister(source), address, 0, bytes))
    case Load(bytes, d, address) =>
      if !InMemoryRange(m, address, bytes) || bytes > 8 then Fault else Done(SetGeneral(after, d, Loaded(m, address, bytes)))
    case FormAddress(d, address) => Done(SetGeneral(after, d, PointerWord(address)))
    case FloatMove(bytes, d, source) =>
      if !Readable(m, source) || bytes > 8 then Fault
      else Done(SetFloating(after, d, Truncated(FloatWord(m, source), bytes)))
    case FloatStore(bytes, address, source) =>
      if !Readable(m, source) || bytes > 8 then Fault else WriteMemory(after, address, FloatWord(m, source)[..bytes])
    case FloatLoad(bytes, d, address) =>
      if !InMemoryRange(m, address, bytes) || bytes > 8 then Fault else Done(SetFloating(after, d, Loaded(m, address, bytes)))
    case CopyFrom(address, pointer, bytes) =>
      var source := Pointer(General(m, pointer));
      if !InMemoryRange(m, source, bytes) || !(source + bytes <= address || address + bytes <= source) then Fault
      else WriteMemory(after, address, Slice(m, source, bytes))
    case LoadThrough(bytes, d, pointer, offset) =>
      var source := Pointer(General(m, pointer)) + offset;
      if !InMemoryRange(m, source, bytes) || bytes > 8 then Fault else Done(SetGeneral(after, d, Loaded(m, source, bytes)))
    case StoreThrough(bytes, pointer, offset, source) =>
      if bytes > 8 then Fault else WriteMemory(after, Pointer(General(m, pointer)) + offset, General(m, source)[..bytes])
  }

  function Run(code: seq<Instruction>, m: Machine, junk: Junk): Outcome
    decreases |code|
  {
    if code == [] then Done(m)
    else
      var next := Step(code[0], m, junk);
      if next.Fault? then Fault else Run(code[1..], next.machine, junk)
  }

  lemma {:induction false} RunAppended(a: seq<Instruction>, b: seq<Instruction>, m: Machine, junk: Junk)
    ensures Run(a + b, m, junk) == if Run(a, m, junk).Fault? then Fault else Run(b, Run(a, m, junk).machine, junk)
    decreases |a|
  {
    hide Step;
    if a == [] {
      assert a + b == b;
    } else {
      assert (a + b)[0] == a[0] && (a + b)[1..] == a[1..] + b;
      if Step(a[0], m, junk).Done? {
        RunAppended(a[1..], b, Step(a[0], m, junk).machine, junk);
      }
    }
  }

  lemma RunOne(i: Instruction, m: Machine, junk: Junk)
    ensures Run([i], m, junk) == Step(i, m, junk)
  {
    hide Step;
    assert [i][1..] == [];
  }

  // ---------------------------------------------------------------- arguments

  datatype Class = Zero | Direct(words: nat) | Float32 | Float64 | Indirect

  datatype Location = Registers(first: nat, words: nat) | Slot(offset: nat, size: nat)

  /// How one argument travels. Argument assignment gives class and location.
  datatype ArgumentAbi = ArgumentAbi(class_: Class, location: Option<Location>)

  /// The value of an argument in the caller: words, a floating word, or a frame object.
  datatype Source = Nothing | Words(places: seq<Place>) | Floating(place: Place, bytes: nat) | Object(address: nat)

  datatype TransportError = CallArguments | ParameterTransport | DirectMemoryWidth | RegisterOverflow

  function FloatBytes(c: Class): nat
    requires c.Float32? || c.Float64?
  {
    if c.Float32? then 4 else 8
  }

  function Moves(first: nat, places: seq<Place>, lane: nat): seq<Instruction>
    requires lane <= |places|
    decreases |places| - lane
  {
    if lane == |places| then [] else [Move(first + lane, places[lane])] + Moves(first, places, lane + 1)
  }

  function Stores(address: nat, places: seq<Place>, lane: nat): seq<Instruction>
    requires lane <= |places|
    decreases |places| - lane
  {
    if lane == |places| then []
    else [Store(WORD_SIZE, address + WORD_SIZE * lane, places[lane])] + Stores(address, places, lane + 1)
  }

  /// Code of one argument. `sp` is the caller's stack pointer, where the outgoing area starts.
  function ArgumentCode(s: Source, a: ArgumentAbi, sp: nat): Result<seq<Instruction>, TransportError> {
    match (a.class_, a.location)
    case (Zero, None) => Ok([])
    case (Direct(words), Some(Registers(first, span))) =>
      if span != words || !s.Words? || |s.places| != words then Err(CallArguments)
      else if words > 0 && first + words > ARGUMENT_REGISTERS then Err(RegisterOverflow)
      else Ok(Moves(first, s.places, 0))
    case (Direct(words), Some(Slot(offset, size))) =>
      if !s.Words? || |s.places| != words || size < WORD_SIZE * words then Err(CallArguments)
      else Ok(Stores(sp + offset, s.places, 0))
    case (Indirect, Some(Registers(first, span))) =>
      if span != 1 || !s.Object? then Err(CallArguments)
      else if first > 30 then Err(RegisterOverflow)
      else Ok([FormAddress(first, s.address)])
    case (Indirect, Some(Slot(offset, size))) =>
      if size < WORD_SIZE || !s.Object? then Err(CallArguments)
      else Ok([FormAddress(17, s.address), Store(WORD_SIZE, sp + offset, InRegister(17))])
    case (Float32, Some(location)) => FloatCode(s, 4, location, sp)
    case (Float64, Some(location)) => FloatCode(s, 8, location, sp)
    case _ => Err(CallArguments)
  }

  function FloatCode(s: Source, bytes: nat, location: Location, sp: nat): Result<seq<Instruction>, TransportError> {
    match location
    case Registers(first, span) =>
      if span != 1 || !s.Floating? || s.bytes != bytes then Err(CallArguments)
      else if first >= FLOATING_ARGUMENT_REGISTERS then Err(RegisterOverflow)
      else Ok([FloatMove(bytes, first, s.place)])
    case Slot(offset, size) =>
      if !s.Floating? || s.bytes != bytes || size < bytes then Err(CallArguments)
      else Ok([FloatStore(bytes, sp + offset, s.place)])
  }

  function CallCode(sources: seq<Source>, abi: seq<ArgumentAbi>, i: nat, sp: nat): Result<seq<Instruction>, TransportError>
    requires i <= |abi| == |sources|
    decreases |abi| - i
  {
    if i == |abi| then Ok([])
    else
      var first := ArgumentCode(sources[i], abi[i], sp);
      if first.Err? then first
      else
        var rest := CallCode(sources, abi, i + 1, sp);
        if rest.Err? then rest else Ok(first.value + rest.value)
  }

  // ---------------------------------------------------------------- what argument assignment promises

  predicate IsFloat(a: ArgumentAbi) {
    a.class_.Float32? || a.class_.Float64?
  }

  predicate UsesGeneral(a: ArgumentAbi, r: nat) {
    a.location.Some? && a.location.value.Registers? && !IsFloat(a)
    && a.location.value.first <= r < a.location.value.first + a.location.value.words
  }

  predicate UsesFloating(a: ArgumentAbi, r: nat) {
    a.location.Some? && a.location.value.Registers? && IsFloat(a) && r == a.location.value.first
  }

  predicate UsesByte(a: ArgumentAbi, sp: nat, address: nat) {
    a.location.Some? && a.location.value.Slot?
    && sp + a.location.value.offset <= address < sp + a.location.value.offset + a.location.value.size
  }

  /// Spans are argument registers, slots lie in the outgoing area.
  predicate Placed(a: ArgumentAbi, outgoing: nat) {
    a.location.Some? ==>
      match a.location.value
      case Registers(first, words) => first + words <= ARGUMENT_REGISTERS
      case Slot(offset, size) => offset + size <= outgoing
  }

  ghost predicate Apart(a: ArgumentAbi, b: ArgumentAbi, sp: nat) {
    && (forall r: nat :: !(UsesGeneral(a, r) && UsesGeneral(b, r)))
    && (forall r: nat :: !(UsesFloating(a, r) && UsesFloating(b, r)))
    && (forall address: nat :: !(UsesByte(a, sp, address) && UsesByte(b, sp, address)))
  }

  ghost predicate Assigned(abi: seq<ArgumentAbi>, sp: nat, outgoing: nat) {
    && (forall i | 0 <= i < |abi| :: Placed(abi[i], outgoing))
    && (forall i, j | 0 <= i < j < |abi| :: Apart(abi[i], abi[j], sp))
  }

  // ---------------------------------------------------------------- where sources are

  /// Values live in allocatable registers, or in the caller's frame above the outgoing area.
  predicate Sheltered(p: Place, floating: bool, above: nat, m: Machine) {
    if p.InRegister? then (if floating then FloatingAllocatable(p.register) else Allocatable(p.register))
    else above <= p.address && InMemoryRange(m, p.address, WORD_SIZE)
  }

  predicate SourceSheltered(s: Source, above: nat, m: Machine) {
    match s
    case Nothing => true
    case Words(places) => forall i | 0 <= i < |places| :: Sheltered(places[i], false, above, m)
    case Floating(place, _) => Sheltered(place, true, above, m)
    case Object(address) => address < U64_LIMIT
  }

  /// Registers that values live in and the frame above the outgoing area are as they were.
  ghost predicate SourcesKept(m: Machine, n: Machine, above: nat) {
    && |n.memory| == |m.memory|
    && (forall r: nat | Allocatable(r) :: General(n, r) == General(m, r))
    && (forall r: nat | FloatingAllocatable(r) :: FloatRegister(n, r) == FloatRegister(m, r))
    && (forall a: nat | above <= a < |m.memory| :: n.memory[a] == m.memory[a])
  }

  lemma WordIsKept(p: Place, floating: bool, above: nat, m: Machine, n: Machine)
    requires SourcesKept(m, n, above) && Sheltered(p, floating, above, m)
    ensures Sheltered(p, floating, above, n)
    ensures !floating ==> PlaceWord(n, p) == PlaceWord(m, p)
    ensures floating ==> FloatWord(n, p) == FloatWord(m, p)
  {
    hide Allocatable, FloatingAllocatable;
    if p.InMemory? {
      assert Slice(n, p.address, WORD_SIZE) == Slice(m, p.address, WORD_SIZE);
    }
  }

  // ---------------------------------------------------------------- delivery

  predicate RegisterHolds(n: Machine, first: nat, k: nat, w: Word) {
    General(n, first + k) == w
  }

  predicate WordsInRegisters(places: seq<Place>, first: nat, above: nat, m0: Machine, n: Machine)
    requires SourceSheltered(Words(places), above, m0)
  {
    forall k | 0 <= k < |places| :: RegisterHolds(n, first, k, PlaceWord(m0, places[k]))
  }

  predicate MemoryHolds(n: Machine, address: nat, data: Bytes) {
    InMemoryRange(n, address, |data|) && Slice(n, address, |data|) == data
  }

  predicate LaneHolds(n: Machine, address: nat, k: nat, w: Word) {
    MemoryHolds(n, address + WORD_SIZE * k, w)
  }

  predicate WordsInMemory(places: seq<Place>, address: nat, above: nat, m0: Machine, n: Machine)
    requires SourceSheltered(Words(places), above, m0)
  {
    forall k | 0 <= k < |places| :: LaneHolds(n, address, k, PlaceWord(m0, places[k]))
  }

  /// The argument is at its location, as `m0` had it in the caller.
  predicate Delivered(s: Source, a: ArgumentAbi, sp: nat, above: nat, m0: Machine, n: Machine)
    requires SourceSheltered(s, above, m0)
  {
    match (a.class_, a.location)
    case (Direct(_), Some(Registers(first, _))) => s.Words? && WordsInRegisters(s.places, first, above, m0, n)
    case (Direct(_), Some(Slot(offset, _))) => s.Words? && WordsInMemory(s.places, sp + offset, above, m0, n)
    case (Indirect, Some(Registers(first, _))) => s.Object? && General(n, first) == PointerWord(s.address)
    case (Indirect, Some(Slot(offset, _))) => s.Object? && MemoryHolds(n, sp + offset, PointerWord(s.address))
    case (Float32, Some(location)) => FloatDelivered(s, 4, location, sp, above, m0, n)
    case (Float64, Some(location)) => FloatDelivered(s, 8, location, sp, above, m0, n)
    case _ => true
  }

  predicate FloatDelivered(s: Source, bytes: nat, location: Location, sp: nat, above: nat, m0: Machine, n: Machine)
    requires SourceSheltered(s, above, m0) && bytes <= 8
  {
    match location
    case Registers(first, _) => s.Floating? && FloatRegister(n, first)[..bytes] == FloatWord(m0, s.place)[..bytes]
    case Slot(offset, _) => s.Floating? && MemoryHolds(n, sp + offset, FloatWord(m0, s.place)[..bytes])
  }

  /// Only what the argument uses, and scratch registers, may differ.
  ghost predicate Effects(a: ArgumentAbi, sp: nat, m: Machine, n: Machine) {
    && |n.memory| == |m.memory| && n.sp == m.sp
    && (forall r: nat | !UsesGeneral(a, r) && r !in SCRATCH :: General(n, r) == General(m, r))
    && (forall r: nat | !UsesFloating(a, r) && r !in FLOAT_SCRATCH :: FloatRegister(n, r) == FloatRegister(m, r))
    && (forall x: nat | x < |m.memory| && !UsesByte(a, sp, x) :: n.memory[x] == m.memory[x])
  }

  lemma EffectsKeepSources(a: ArgumentAbi, sp: nat, outgoing: nat, m: Machine, n: Machine)
    requires Placed(a, outgoing) && Effects(a, sp, m, n)
    ensures SourcesKept(m, n, sp + outgoing)
  {
    forall r: nat | Allocatable(r) ensures General(n, r) == General(m, r) {
      AllocatableRegistersAreSeparate(r, r);
      assert !UsesGeneral(a, r) && r !in SCRATCH;
    }
  }

  lemma SourcesKeptJoin(m: Machine, n: Machine, p: Machine, above: nat)
    requires SourcesKept(m, n, above) && SourcesKept(n, p, above)
    ensures SourcesKept(m, p, above)
  {
    hide Allocatable, FloatingAllocatable;
  }

  lemma RegistersAreKept(places: seq<Place>, first: nat, a: ArgumentAbi, b: ArgumentAbi, sp: nat, above: nat, m0: Machine, m: Machine, n: Machine)
    requires SourceSheltered(Words(places), above, m0) && WordsInRegisters(places, first, above, m0, m)
    requires Apart(a, b, sp) && Effects(b, sp, m, n)
    requires a == ArgumentAbi(Direct(|places|), Some(Registers(first, |places|))) && first + |places| <= 16
    ensures WordsInRegisters(places, first, above, m0, n)
  {
    hide PlaceWord, UsesByte, UsesFloating, General, FloatRegister;
    forall k: nat | k < |places| ensures RegisterHolds(n, first, k, PlaceWord(m0, places[k])) {
      assert RegisterHolds(m, first, k, PlaceWord(m0, places[k]));
      assert UsesGeneral(a, first + k);
      assert !UsesGeneral(b, first + k) && first + k !in SCRATCH;
    }
  }

  lemma RangeIsKept(a: ArgumentAbi, b: ArgumentAbi, sp: nat, m: Machine, n: Machine, address: nat, data: Bytes)
    requires Apart(a, b, sp) && Effects(b, sp, m, n) && MemoryHolds(m, address, data)
    requires forall x: nat | address <= x < address + |data| :: UsesByte(a, sp, x)
    ensures MemoryHolds(n, address, data)
  {
    hide UsesGeneral, UsesFloating, UsesByte, General, FloatRegister;
    assert n.memory[address..address + |data|] == m.memory[address..address + |data|];
  }

  lemma LanesAreKept(places: seq<Place>, address: nat, a: ArgumentAbi, b: ArgumentAbi, sp: nat, above: nat, m0: Machine, m: Machine, n: Machine)
    requires SourceSheltered(Words(places), above, m0) && WordsInMemory(places, address, above, m0, m)
    requires Apart(a, b, sp) && Effects(b, sp, m, n)
    requires forall x: nat | address <= x < address + WORD_SIZE * |places| :: UsesByte(a, sp, x)
    ensures WordsInMemory(places, address, above, m0, n)
  {
    hide PlaceWord, UsesByte, Apart, Effects, MemoryHolds;
    forall k: nat | k < |places| ensures LaneHolds(n, address, k, PlaceWord(m0, places[k])) {
      assert LaneHolds(m, address, k, PlaceWord(m0, places[k]));
      RangeIsKept(a, b, sp, m, n, address + WORD_SIZE * k, PlaceWord(m0, places[k]));
    }
  }

  /// A later argument never disturbs one that is delivered.
  lemma DeliveredIsKept(s: Source, a: ArgumentAbi, b: ArgumentAbi, sp: nat, outgoing: nat, m0: Machine, m: Machine, n: Machine)
    requires SourceSheltered(s, sp + outgoing, m0) && ArgumentCode(s, a, sp).Ok?
    requires Placed(a, outgoing) && Apart(a, b, sp) && Effects(b, sp, m, n)
    requires Delivered(s, a, sp, sp + outgoing, m0, m)
    ensures Delivered(s, a, sp, sp + outgoing, m0, n)
  {
    hide PlaceWord, FloatWord, Apart, Effects, WordsInRegisters, WordsInMemory, MemoryHolds, General, FloatRegister, PointerWord;
    match (a.class_, a.location)
    case (Direct(_), Some(Registers(first, _))) => RegistersAreKept(s.places, first, a, b, sp, sp + outgoing, m0, m, n);
    case (Direct(_), Some(Slot(offset, _))) => LanesAreKept(s.places, sp + offset, a, b, sp, sp + outgoing, m0, m, n);
    case (Indirect, Some(Registers(first, _))) => GeneralIsKept(a, b, sp, m, n, first);
    case (Indirect, Some(Slot(offset, _))) => RangeIsKept(a, b, sp, m, n, sp + offset, PointerWord(s.address));
    case (Zero, _) =>
    case (_, Some(Registers(first, _))) => FloatingIsKept(a, b, sp, m, n, first);
    case (_, Some(Slot(offset, _))) => RangeIsKept(a, b, sp, m, n, sp + offset, FloatWord(m0, s.place)[..FloatBytes(a.class_)]);
    case _ =>
  }

  lemma GeneralIsKept(a: ArgumentAbi, b: ArgumentAbi, sp: nat, m: Machine, n: Machine, r: nat)
    requires Apart(a, b, sp) && Effects(b, sp, m, n) && UsesGeneral(a, r) && r < 16
    ensures General(n, r) == General(m, r)
  {
  }

  lemma FloatingIsKept(a: ArgumentAbi, b: ArgumentAbi, sp: nat, m: Machine, n: Machine, r: nat)
    requires Apart(a, b, sp) && Effects(b, sp, m, n) && UsesFloating(a, r) && r < 16
    ensures FloatRegister(n, r) == FloatRegister(m, r)
  {
  }

  // ---------------------------------------------------------------- one instruction at a time

  /// Registers outside the two sets and memory outside the range are as they were.
  ghost predicate Changes(m: Machine, n: Machine, general: set<nat>, floating: set<nat>, lo: nat, hi: nat) {
    && |n.memory| == |m.memory| && n.sp == m.sp
    && (forall r: nat | r !in general :: General(n, r) == General(m, r))
    && (forall r: nat | r !in floating :: FloatRegister(n, r) == FloatRegister(m, r))
    && (forall x: nat | x < |m.memory| && !(lo <= x < hi) :: n.memory[x] == m.memory[x])
  }

  lemma ClobberedChanges(m: Machine, i: Instruction, junk: Junk)
    ensures Changes(m, Clobbered(m, i, junk), Clobbers(i), FLOAT_SCRATCH, 0, 0)
  {
    hide Clobbers;
  }

  lemma NoChanges(m: Machine, general: set<nat>, lo: nat, hi: nat)
    ensures Changes(m, m, general, FLOAT_SCRATCH, lo, hi)
  {
  }

  lemma ChangesJoin(m: Machine, n: Machine, q: Machine, general: set<nat>, lo: nat, hi: nat, a: nat, b: nat, c: nat, d: nat)
    requires Changes(m, n, general, FLOAT_SCRATCH, a, b) && Changes(n, q, general, FLOAT_SCRATCH, c, d)
    requires (lo <= a && b <= hi) || a >= b
    requires (lo <= c && d <= hi) || c >= d
    ensures Changes(m, q, general, FLOAT_SCRATCH, lo, hi)
  {
    hide General, FloatRegister;
  }

  lemma MoveStep(d: nat, p: Place, m: Machine, junk: Junk)
    requires Readable(m, p)
    ensures var n := Step(Move(d, p), m, junk);
            n.Done? && General(n.machine, d) == PlaceWord(m, p) && Changes(m, n.machine, SCRATCH + {d}, FLOAT_SCRATCH, 0, 0)
  {
    hide PlaceWord, Clobbered;
    ClobberedChanges(m, Move(d, p), junk);
  }

  lemma WriteChanges(m: Machine, after: Machine, general: set<nat>, floating: set<nat>, address: nat, data: Bytes)
    requires Changes(m, after, general, floating, 0, 0) && InMemoryRange(m, address, |data|)
    ensures var n := WriteMemory(after, address, data);
            n.Done? && Changes(m, n.machine, general, floating, address, address + |data|) && MemoryHolds(n.machine, address, data)
  {
    SpliceHere(after.memory, address, data);
  }

  lemma NativeStoreStep(bytes: nat, address: nat, p: Place, m: Machine, junk: Junk)
    requires Readable(m, p) && Native(bytes) && InMemoryRange(m, address, bytes)
    ensures var n := Step(Store(bytes, address, p), m, junk);
            && n.Done? && MemoryHolds(n.machine, address, PlaceWord(m, p)[..bytes])
            && Changes(m, n.machine, SCRATCH, FLOAT_SCRATCH, address, address + bytes)
  {
    hide PlaceWord, Clobbered, WriteMemory, Changes, StoreFragments;
    var i := Store(bytes, address, p);
    ClobberedChanges(m, i, junk);
    WriteChanges(m, Clobbered(m, i, junk), SCRATCH, FLOAT_SCRATCH, address, PlaceWord(m, p)[..bytes]);
  }

  lemma FormStep(d: nat, address: nat, m: Machine, junk: Junk)
    ensures var n := Step(FormAddress(d, address), m, junk);
            n.Done? && General(n.machine, d) == PointerWord(address) && Changes(m, n.machine, {d}, FLOAT_SCRATCH, 0, 0)
  {
    hide Clobbered, PointerWord;
    ClobberedChanges(m, FormAddress(d, address), junk);
  }

  lemma FloatMoveStep(bytes: nat, d: nat, p: Place, m: Machine, junk: Junk)
    requires Readable(m, p) && bytes <= 8
    ensures var n := Step(FloatMove(bytes, d, p), m, junk);
            && n.Done? && FloatRegister(n.machine, d)[..bytes] == FloatWord(m, p)[..bytes]
            && Changes(m, n.machine, SCRATCH, FLOAT_SCRATCH + {d}, 0, 0)
  {
    hide FloatWord, Clobbered, Truncated;
    ClobberedChanges(m, FloatMove(bytes, d, p), junk);
  }

  lemma FloatStoreStep(bytes: nat, address: nat, p: Place, m: Machine, junk: Junk)
    requires Readable(m, p) && bytes <= 8 && InMemoryRange(m, address, bytes)
    ensures var n := Step(FloatStore(bytes, address, p), m, junk);
            && n.Done? && MemoryHolds(n.machine, address, FloatWord(m, p)[..bytes])
            && Changes(m, n.machine, SCRATCH, FLOAT_SCRATCH, address, address + bytes)
  {
    hide FloatWord, Clobbered, WriteMemory, Changes;
    var i := FloatStore(bytes, address, p);
    ClobberedChanges(m, i, junk);
    WriteChanges(m, Clobbered(m, i, junk), SCRATCH, FLOAT_SCRATCH, address, FloatWord(m, p)[..bytes]);
  }

  // ---------------------------------------------------------------- one argument

  lemma EffectsJoin(a: ArgumentAbi, sp: nat, m: Machine, n: Machine, p: Machine)
    requires Effects(a, sp, m, n) && Effects(a, sp, n, p)
    ensures Effects(a, sp, m, p)
  {
    hide UsesGeneral, UsesFloating, UsesByte, General, FloatRegister;
  }

  lemma NoEffects(a: ArgumentAbi, sp: nat, m: Machine)
    ensures Effects(a, sp, m, m)
  {
  }

  /// Changes within what an argument uses.
  lemma ChangesAreEffects(a: ArgumentAbi, sp: nat, m: Machine, n: Machine, general: set<nat>, floating: set<nat>, lo: nat, hi: nat)
    requires Changes(m, n, general, floating, lo, hi)
    requires forall r | r in general :: r in SCRATCH || UsesGeneral(a, r)
    requires forall r | r in floating :: r in FLOAT_SCRATCH || UsesFloating(a, r)
    requires forall x: nat | lo <= x < hi :: UsesByte(a, sp, x)
    ensures Effects(a, sp, m, n)
  {
    hide UsesGeneral, UsesFloating, UsesByte, General, FloatRegister;
  }

  lemma MovedSourcesAreKept(a: ArgumentAbi, sp: nat, outgoing: nat, m0: Machine, m: Machine, n: Machine)
    requires SourcesKept(m0, m, sp + outgoing) && Effects(a, sp, m, n) && Placed(a, outgoing)
    ensures SourcesKept(m0, n, sp + outgoing)
  {
    EffectsKeepSources(a, sp, outgoing, m, n);
    SourcesKeptJoin(m0, m, n, sp + outgoing);
  }

  lemma OtherRegister(m: Machine, n: Machine, general: set<nat>, r: nat)
    requires Changes(m, n, general, FLOAT_SCRATCH, 0, 0) && r !in general
    ensures General(n, r) == General(m, r)
  {
    hide General;
  }

  lemma {:induction false} MovesDeliver(a: ArgumentAbi, first: nat, places: seq<Place>, lane: nat, sp: nat, outgoing: nat, m0: Machine, m: Machine, junk: Junk)
    requires lane <= |places| && a == ArgumentAbi(Direct(|places|), Some(Registers(first, |places|))) && Placed(a, outgoing)
    requires SourceSheltered(Words(places), sp + outgoing, m0) && SourcesKept(m0, m, sp + outgoing)
    requires forall k: nat | k < lane :: RegisterHolds(m, first, k, PlaceWord(m0, places[k]))
    ensures Run(Moves(first, places, lane), m, junk).Done?
    ensures var n := Run(Moves(first, places, lane), m, junk).machine;
            Effects(a, sp, m, n) && WordsInRegisters(places, first, sp + outgoing, m0, n)
    decreases |places| - lane
  {
    hide Step, General, FloatRegister, PlaceWord, SourcesKept, Effects, Changes;
    if lane == |places| {
      NoEffects(a, sp, m);
    } else {
      var p := places[lane];
      WordIsKept(p, false, sp + outgoing, m0, m);
      MoveStep(first + lane, p, m, junk);
      var n := Step(Move(first + lane, p), m, junk).machine;
      ChangesAreEffects(a, sp, m, n, SCRATCH + {first + lane}, FLOAT_SCRATCH, 0, 0);
      MovedSourcesAreKept(a, sp, outgoing, m0, m, n);
      forall k: nat | k < lane + 1 ensures RegisterHolds(n, first, k, PlaceWord(m0, places[k])) {
        if k < lane {
          assert RegisterHolds(m, first, k, PlaceWord(m0, places[k]));
          OtherRegister(m, n, SCRATCH + {first + lane}, first + k);
        }
      }
      MovesDeliver(a, first, places, lane + 1, sp, outgoing, m0, n, junk);
      EffectsJoin(a, sp, m, n, Run(Moves(first, places, lane + 1), n, junk).machine);
    }
  }

  lemma OtherRange(m: Machine, n: Machine, lo: nat, hi: nat, general: set<nat>, address: nat, data: Bytes)
    requires Changes(m, n, general, FLOAT_SCRATCH, lo, hi) && MemoryHolds(m, address, data)
    requires address + |data| <= lo || hi <= address
    ensures MemoryHolds(n, address, data)
  {
    hide General, FloatRegister;
    assert n.memory[address..address + |data|] == m.memory[address..address + |data|];
  }

  lemma {:induction false} StoresDeliver(a: ArgumentAbi, places: seq<Place>, lane: nat, sp: nat, outgoing: nat, m0: Machine, m: Machine, junk: Junk)
    requires lane <= |places| && a.class_ == Direct(|places|) && a.location.Some? && a.location.value.Slot? && Placed(a, outgoing)
    requires WORD_SIZE * |places| <= a.location.value.size && sp + outgoing <= |m.memory|
    requires SourceSheltered(Words(places), sp + outgoing, m0) && SourcesKept(m0, m, sp + outgoing)
    requires forall k: nat | k < lane :: LaneHolds(m, sp + a.location.value.offset, k, PlaceWord(m0, places[k]))
    ensures Run(Stores(sp + a.location.value.offset, places, lane), m, junk).Done?
    ensures var n := Run(Stores(sp + a.location.value.offset, places, lane), m, junk).machine;
            Effects(a, sp, m, n) && WordsInMemory(places, sp + a.location.value.offset, sp + outgoing, m0, n)
    decreases |places| - lane
  {
    hide Step, General, FloatRegister, PlaceWord, SourcesKept, Effects, Changes, MemoryHolds;
    if lane == |places| {
      NoEffects(a, sp, m);
    } else {
      var p, base := places[lane], sp + a.location.value.offset;
      var at := base + WORD_SIZE * lane;
      WordIsKept(p, false, sp + outgoing, m0, m);
      NativeStoreStep(WORD_SIZE, at, p, m, junk);
      var n := Step(Store(WORD_SIZE, at, p), m, junk).machine;
      assert PlaceWord(m, p)[..WORD_SIZE] == PlaceWord(m, p);
      ChangesAreEffects(a, sp, m, n, SCRATCH, FLOAT_SCRATCH, at, at + WORD_SIZE);
      MovedSourcesAreKept(a, sp, outgoing, m0, m, n);
      MemoryKeepsItsSize(a, sp, m, n);
      forall k: nat | k < lane + 1 ensures LaneHolds(n, base, k, PlaceWord(m0, places[k])) {
        if k < lane {
          assert LaneHolds(m, base, k, PlaceWord(m0, places[k]));
          OtherRange(m, n, at, at + WORD_SIZE, SCRATCH, base + WORD_SIZE * k, PlaceWord(m0, places[k]));
        }
      }
      StoresDeliver(a, places, lane + 1, sp, outgoing, m0, n, junk);
      EffectsJoin(a, sp, m, n, Run(Stores(base, places, lane + 1), n, junk).machine);
    }
  }

  lemma MemoryKeepsItsSize(a: ArgumentAbi, sp: nat, m: Machine, n: Machine)
    requires Effects(a, sp, m, n)
    ensures |n.memory| == |m.memory|
  {
  }

  /// The code of one argument brings it to its location and touches nothing else.
  lemma ArgumentIsDelivered(s: Source, a: ArgumentAbi, sp: nat, outgoing: nat, m0: Machine, m: Machine, junk: Junk)
    requires ArgumentCode(s, a, sp).Ok? && Placed(a, outgoing) && sp + outgoing <= |m.memory|
    requires SourceSheltered(s, sp + outgoing, m0) && SourcesKept(m0, m, sp + outgoing)
    ensures Run(ArgumentCode(s, a, sp).value, m, junk).Done?
    ensures var n := Run(ArgumentCode(s, a, sp).value, m, junk).machine;
            Delivered(s, a, sp, sp + outgoing, m0, n) && Effects(a, sp, m, n)
  {
    hide Step, General, FloatRegister, PlaceWord, FloatWord, SourcesKept, Effects, Changes, MemoryHolds, PointerWord, WordsInRegisters, WordsInMemory, Run;
    match (a.class_, a.location)
    case (Direct(_), Some(Registers(first, _))) =>
      MovesDeliver(a, first, s.places, 0, sp, outgoing, m0, m, junk);
    case (Direct(_), Some(Slot(offset, _))) =>
      StoresDeliver(a, s.places, 0, sp, outgoing, m0, m, junk);
    case (Indirect, Some(Registers(first, _))) =>
      RunOne(FormAddress(first, s.address), m, junk);
      FormStep(first, s.address, m, junk);
      ChangesAreEffects(a, sp, m, Step(FormAddress(first, s.address), m, junk).machine, {first}, FLOAT_SCRATCH, 0, 0);
    case (Indirect, Some(Slot(offset, _))) =>
      PointerIsStored(s.address, a, sp, outgoing, m, junk);
    case (Zero, _) =>
      RunNothing(m, junk);
      NoEffects(a, sp, m);
    case (_, Some(Registers(first, _))) =>
      var i := FloatMove(s.bytes, first, s.place);
      WordIsKept(s.place, true, sp + outgoing, m0, m);
      RunOne(i, m, junk);
      FloatMoveStep(s.bytes, first, s.place, m, junk);
      ChangesAreEffects(a, sp, m, Step(i, m, junk).machine, SCRATCH, FLOAT_SCRATCH + {first}, 0, 0);
    case (_, Some(Slot(offset, _))) =>
      var i := FloatStore(s.bytes, sp + offset, s.place);
      WordIsKept(s.place, true, sp + outgoing, m0, m);
      RunOne(i, m, junk);
      FloatStoreStep(s.bytes, sp + offset, s.place, m, junk);
      ChangesAreEffects(a, sp, m, Step(i, m, junk).machine, SCRATCH, FLOAT_SCRATCH, sp + offset, sp + offset + s.bytes);
    case _ =>
  }

  lemma RunNothing(m: Machine, junk: Junk)
    ensures Run([], m, junk) == Done(m)
  {
  }

  lemma PointerIsStored(address: nat, a: ArgumentAbi, sp: nat, outgoing: nat, m: Machine, junk: Junk)
    requires a.class_.Indirect? && a.location.Some? && a.location.value.Slot? && a.location.value.size >= WORD_SIZE
    requires Placed(a, outgoing) && sp + outgoing <= |m.memory|
    ensures var to := sp + a.location.value.offset;
            var r := Run([FormAddress(17, address), Store(WORD_SIZE, to, InRegister(17))], m, junk);
            r.Done? && MemoryHolds(r.machine, to, PointerWord(address)) && Effects(a, sp, m, r.machine)
  {
    hide Step, General, FloatRegister, Effects, MemoryHolds, PointerWord, Run;
    var to := sp + a.location.value.offset;
    var form, store := FormAddress(17, address), Store(WORD_SIZE, to, InRegister(17));
    FormStep(17, address, m, junk);
    var n := Step(form, m, junk).machine;
    NativeStoreStep(WORD_SIZE, to, InRegister(17), n, junk);
    var p := Step(store, n, junk).machine;
    RunOne(form, m, junk);
    RunOne(store, n, junk);
    RunAppended([form], [store], m, junk);
    assert [form] + [store] == [form, store];
    assert PointerWord(address)[..WORD_SIZE] == PointerWord(address);
    ChangesAreEffects(a, sp, m, n, {17}, FLOAT_SCRATCH, 0, 0);
    ChangesAreEffects(a, sp, n, p, SCRATCH, FLOAT_SCRATCH, to, to + WORD_SIZE);
    EffectsJoin(a, sp, m, n, p);
  }

  // ---------------------------------------------------------------- the whole call

  /// All arguments from `i` on are delivered, and the ones before stay delivered.
  lemma {:induction false} CallDelivers(sources: seq<Source>, abi: seq<ArgumentAbi>, i: nat, sp: nat, outgoing: nat, m0: Machine, m: Machine, junk: Junk)
    requires i <= |abi| == |sources| && Assigned(abi, sp, outgoing) && sp + outgoing <= |m.memory|
    requires CallCode(sources, abi, i, sp).Ok? && forall k: nat | k < i :: ArgumentCode(sources[k], abi[k], sp).Ok?
    requires (forall k: nat | k < |abi| :: SourceSheltered(sources[k], sp + outgoing, m0)) && SourcesKept(m0, m, sp + outgoing)
    requires forall k: nat | k < i :: Delivered(sources[k], abi[k], sp, sp + outgoing, m0, m)
    ensures Run(CallCode(sources, abi, i, sp).value, m, junk).Done?
    ensures var n := Run(CallCode(sources, abi, i, sp).value, m, junk).machine;
            && SourcesKept(m0, n, sp + outgoing)
            && forall k: nat | k < |abi| :: Delivered(sources[k], abi[k], sp, sp + outgoing, m0, n)
    decreases |abi| - i
  {
    hide Effects, SourcesKept, SourceSheltered, Delivered, ArgumentCode, Apart, Placed;
    if i == |abi| {
      RunNothing(m, junk);
    } else {
      var code, rest := ArgumentCode(sources[i], abi[i], sp).value, CallCode(sources, abi, i + 1, sp).value;
      hide Run;
      ArgumentIsDelivered(sources[i], abi[i], sp, outgoing, m0, m, junk);
      var n := Run(code, m, junk).machine;
      MovedSourcesAreKept(abi[i], sp, outgoing, m0, m, n);
      MemoryKeepsItsSize(abi[i], sp, m, n);
      forall k: nat | k < i + 1 ensures Delivered(sources[k], abi[k], sp, sp + outgoing, m0, n) {
        if k < i {
          DeliveredIsKept(sources[k], abi[k], abi[i], sp, outgoing, m0, m, n);
        }
      }
      CallDelivers(sources, abi, i + 1, sp, outgoing, m0, n, junk);
      RunAppended(code, rest, m, junk);
    }
  }

  /// The caller's moves, one after another, put every argument at its location: no move changes a
  /// value that a later move reads, because values live neither in argument nor in scratch registers.
  lemma ArgumentsAreDelivered(sources: seq<Source>, abi: seq<ArgumentAbi>, sp: nat, outgoing: nat, m: Machine, junk: Junk)
    requires |abi| == |sources| && Assigned(abi, sp, outgoing) && sp + outgoing <= |m.memory|
    requires CallCode(sources, abi, 0, sp).Ok? && forall k: nat | k < |abi| :: SourceSheltered(sources[k], sp + outgoing, m)
    ensures Run(CallCode(sources, abi, 0, sp).value, m, junk).Done?
    ensures var n := Run(CallCode(sources, abi, 0, sp).value, m, junk).machine;
            && SourcesKept(m, n, sp + outgoing)
            && forall k: nat | k < |abi| :: Delivered(sources[k], abi[k], sp, sp + outgoing, m, n)
  {
    CallDelivers(sources, abi, 0, sp, outgoing, m, m, junk);
  }
}
