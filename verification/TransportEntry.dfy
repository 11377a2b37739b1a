/**
 How a callee takes its arguments over: register arguments first, then everything that needs scratch.

 Together with `Transport` this is the round trip of every argument list.
 */
module TransportEntry {
  import opened Results
  import opened ByteRanges
  import opened NocterAbi
  import opened Transport
  import opened FragmentedStore

  // ---------------------------------------------------------------- code

  /// The frame object of a parameter.
  datatype Parameter = Parameter(address: nat, size: nat)

  function LaneStores(p: Parameter, first: nat, lane: nat): seq<Instruction>
    requires lane <= LaneCount(p.size)
    decreases LaneCount(p.size) - lane
  {
    if lane == LaneCount(p.size) then []
    else [Store(LaneWidth(p.size, lane), p.address + WORD_SIZE * lane, InRegister(first + lane))] + LaneStores(p, first, lane + 1)
  }

  /// Stores what arrives in registers. An indirect argument leaves its pointer in its own object.
  function EarlyCode(a: ArgumentAbi, p: Parameter): Result<seq<Instruction>, TransportError> {
    match (a.class_, a.location)
    case (Zero, None) => Ok([])
    case (Direct(words), Some(Registers(first, span))) =>
      if words != span then Err(ParameterTransport)
      else if LaneCount(p.size) != words then Err(DirectMemoryWidth)
      else if words > 0 && first + words > ARGUMENT_REGISTERS then Err(RegisterOverflow)
      else Ok(LaneStores(p, first, 0))
    case (Indirect, Some(Registers(first, span))) =>
      if span != 1 then Err(ParameterTransport)
      else if first > 30 then Err(RegisterOverflow)
      else Ok([Store(WORD_SIZE, p.address, InRegister(first))])
    case (Float32, Some(Registers(first, span))) => EarlyFloatCode(first, span, 4, p)
    case (Float64, Some(Registers(first, span))) => EarlyFloatCode(first, span, 8, p)
    case (Zero, _) => Err(ParameterTransport)
    case (_, Some(Slot(_, _))) => Ok([])
    case _ => Err(ParameterTransport)
  }

  function EarlyFloatCode(first: nat, span: nat, bytes: nat, p: Parameter): Result<seq<Instruction>, TransportError> {
    if span != 1 then Err(ParameterTransport)
    else if first >= FLOATING_ARGUMENT_REGISTERS then Err(RegisterOverflow)
    else Ok([FloatStore(bytes, p.address, InRegister(first))])
  }

  function LaneCopies(p: Parameter, source: nat, lane: nat): seq<Instruction>
    requires lane <= LaneCount(p.size)
    decreases LaneCount(p.size) - lane
  {
    if lane == LaneCount(p.size) then []
    else
      [Load(LaneWidth(p.size, lane), 17, source + WORD_SIZE * lane),
       Store(LaneWidth(p.size, lane), p.address + WORD_SIZE * lane, InRegister(17))] + LaneCopies(p, source, lane + 1)
  }

  function LateFloatCode(offset: nat, size: nat, bytes: nat, p: Parameter, incoming: nat): Result<seq<Instruction>, TransportError> {
    if size < bytes then Err(ParameterTransport)
    else Ok([FloatLoad(bytes, 30, incoming + offset), FloatStore(bytes, p.address, InRegister(30))])
  }

  /// Everything else. `incoming` is where the caller's outgoing area starts.
  function LateCode(a: ArgumentAbi, p: Parameter, incoming: nat): Result<seq<Instruction>, TransportError> {
    match (a.class_, a.location)
    case (Zero, None) => Ok([])
    case (Direct(words), Some(Registers(_, span))) => if words == span then Ok([]) else Err(ParameterTransport)
    case (Direct(words), Some(Slot(offset, size))) =>
      if LaneCount(p.size) != words then Err(DirectMemoryWidth)
      else if size < WORD_SIZE * words then Err(ParameterTransport)
      else Ok(LaneCopies(p, incoming + offset, 0))
    case (Float32, Some(Registers(_, _))) => Ok([])
    case (Float64, Some(Registers(_, _))) => Ok([])
    case (Float32, Some(Slot(offset, size))) => LateFloatCode(offset, size, 4, p, incoming)
    case (Float64, Some(Slot(offset, size))) => LateFloatCode(offset, size, 8, p, incoming)
    case (Indirect, Some(Registers(_, span))) =>
      if span != 1 then Err(ParameterTransport)
      else Ok([Load(WORD_SIZE, 17, p.address), CopyFrom(p.address, 17, p.size)])
    case (Indirect, Some(Slot(offset, size))) =>
      if size < WORD_SIZE then Err(ParameterTransport)
      else Ok([Load(WORD_SIZE, 17, incoming + offset), CopyFrom(p.address, 17, p.size)])
    case _ => Err(ParameterTransport)
  }

  function EarlyCodes(abi: seq<ArgumentAbi>, ps: seq<Parameter>, i: nat): Result<seq<Instruction>, TransportError>
    requires i <= |abi| == |ps|
    decreases |abi| - i
  {
    if i == |abi| then Ok([])
    else
      var first := EarlyCode(abi[i], ps[i]);
      if first.Err? then first
      else
        var rest := EarlyCodes(abi, ps, i + 1);
        if rest.Err? then rest else Ok(first.value + rest.value)
  }

  function LateCodes(abi: seq<ArgumentAbi>, ps: seq<Parameter>, i: nat, incoming: nat): Result<seq<Instruction>, TransportError>
    requires i <= |abi| == |ps|
    decreases |abi| - i
  {
    if i == |abi| then Ok([])
    else
      var first := LateCode(abi[i], ps[i], incoming);
      if first.Err? then first
      else
        var rest := LateCodes(abi, ps, i + 1, incoming);
        if rest.Err? then rest else Ok(first.value + rest.value)
  }

  /// The entry code: every register argument is stored before any scratch register is needed.
  function EntryCode(abi: seq<ArgumentAbi>, ps: seq<Parameter>, incoming: nat): Result<seq<Instruction>, TransportError> {
    if |abi| != |ps| then Err(ParameterTransport)
    else
      var early := EarlyCodes(abi, ps, 0);
      if early.Err? then early
      else
        var late := LateCodes(abi, ps, 0, incoming);
        if late.Err? then late else Ok(early.value + late.value)
  }

  // ---------------------------------------------------------------- argument bytes

  /// Source and parameter are the same type of value.
  predicate Fits(s: Source, a: ArgumentAbi, p: Parameter, above: nat, m0: Machine) {
    match a.class_
    case Zero => p.size == 0
    case Direct(words) => s.Words? && |s.places| == words == LaneCount(p.size)
    case Float32 => s.Floating? && s.bytes == 4 == p.size
    case Float64 => s.Floating? && s.bytes == 8 == p.size
    case Indirect => s.Object? && p.size >= WORD_SIZE && above <= s.address && InMemoryRange(m0, s.address, p.size)
  }

  /// The bytes of the argument as the caller has it.
  function ArgumentBytes(s: Source, a: ArgumentAbi, p: Parameter, above: nat, m0: Machine): (r: Bytes)
    requires SourceSheltered(s, above, m0) && Fits(s, a, p, above, m0)
    ensures |r| == p.size
  {
    match a.class_
    case Zero => []
    case Direct(_) => seq(p.size, i requires 0 <= i < p.size => PlaceWord(m0, s.places[i / 8])[i % 8])
    case Indirect => Slice(m0, s.address, p.size)
    case _ => FloatWord(m0, s.place)[..p.size]
  }

  predicate Early(a: ArgumentAbi) {
    a.location.Some? && a.location.value.Registers?
  }

  /// A direct argument comes from a slot and its last lane has seven bytes, at an address where the
  /// store from x17 loses the last of them. `base` is the callee's stack pointer.
  predicate TailIsLost(a: ArgumentAbi, p: Parameter, base: nat)
    requires base <= p.address
  {
    a.class_.Direct? && !Early(a) && p.size % WORD_SIZE == 7 && !StackEncodable(p.address + p.size - 3 - base, 2)
  }

  /// The bytes that the entry code leaves in the parameter object.
  function Received(s: Source, a: ArgumentAbi, p: Parameter, base: nat, above: nat, m0: Machine): (r: Bytes)
    requires SourceSheltered(s, above, m0) && Fits(s, a, p, above, m0) && base <= p.address
    ensures |r| == p.size
  {
    var data := ArgumentBytes(s, a, p, above, m0);
    if TailIsLost(a, p, base) then data[..p.size - 1] + [PointerWord(p.address + p.size - 3)[6]] else data
  }

  lemma LaneOfArgument(s: Source, a: ArgumentAbi, p: Parameter, above: nat, m0: Machine, k: nat)
    requires SourceSheltered(s, above, m0) && Fits(s, a, p, above, m0) && a.class_.Direct? && k < LaneCount(p.size)
    ensures var w := LaneWidth(p.size, k);
            8 * k + w <= p.size && ArgumentBytes(s, a, p, above, m0)[8 * k..8 * k + w] == PlaceWord(m0, s.places[k])[..w]
  {
    hide PlaceWord;
    var w, data := LaneWidth(p.size, k), ArgumentBytes(s, a, p, above, m0);
    forall j | 0 <= j < w ensures data[8 * k..8 * k + w][j] == PlaceWord(m0, s.places[k])[..w][j] {
      assert (8 * k + j) / 8 == k && (8 * k + j) % 8 == j;
    }
  }

  lemma LaneArrives(s: Source, a: ArgumentAbi, p: Parameter, base: nat, above: nat, m0: Machine, k: nat)
    requires SourceSheltered(s, above, m0) && Fits(s, a, p, above, m0) && a.class_.Direct? && !Early(a) && base <= p.address
    requires k < LaneCount(p.size)
    ensures var w := LaneWidth(p.size, k);
            8 * k + w <= p.size && Received(s, a, p, base, above, m0)[8 * k..8 * k + w] == Arriving(p.address + 8 * k, base, PlaceWord(m0, s.places[k])[..w])
  {
    hide PlaceWord, ArgumentBytes, PointerWord, StackEncodable, Fits, SourceSheltered, LaneWidth, LaneCount;
    LaneOfArgument(s, a, p, above, m0, k);
    SevenByteLane(p.size, k);
    var w, data := LaneWidth(p.size, k), ArgumentBytes(s, a, p, above, m0);
    if TailIsLost(a, p, base) {
      LaneOfShortened(data, PointerWord(p.address + p.size - 3)[6], 8 * k, w);
    }
  }

  lemma SevenByteLane(size: nat, k: nat)
    requires k < LaneCount(size)
    ensures 0 < LaneWidth(size, k) && (LaneWidth(size, k) == 7 <==> 8 * k + 7 == size) && (8 * k + 7 == size ==> size % 8 == 7)
    ensures size % 8 == 7 && 8 * k + 7 != size ==> 8 * k + LaneWidth(size, k) < size
  {
  }

  lemma LaneOfShortened(data: Bytes, b: Byte, lo: nat, w: nat)
    requires lo + w <= |data| && |data| > 0
    ensures lo + w < |data| ==> (data[..|data| - 1] + [b])[lo..lo + w] == data[lo..lo + w]
    ensures w == 7 && lo + w == |data| ==> (data[..|data| - 1] + [b])[lo..lo + w] == data[lo..lo + w][..6] + [b]
  {
  }

  // ---------------------------------------------------------------- what the callee may touch

  const LATE_SCRATCH: set<nat> := {0, 1, 2, 3, 4, 5, 6, 7, 16, 17}

  lemma HoldsJoin(m: Machine, address: nat, a: Bytes, b: Bytes)
    requires MemoryHolds(m, address, a) && MemoryHolds(m, address + |a|, b)
    ensures MemoryHolds(m, address, a + b)
  {
    var r := Slice(m, address, |a| + |b|);
    assert r[..|a|] == Slice(m, address, |a|) && r[|a|..] == Slice(m, address + |a|, |b|);
  }

  lemma ChangesMore(m: Machine, n: Machine, general: set<nat>, more: set<nat>, a: nat, b: nat, lo: nat, hi: nat)
    requires Changes(m, n, general, FLOAT_SCRATCH, a, b) && general <= more && ((lo <= a && b <= hi) || a >= b)
    ensures Changes(m, n, more, FLOAT_SCRATCH, lo, hi)
  {
    hide General, FloatRegister;
  }

  lemma SizeIsKept(m: Machine, n: Machine, general: set<nat>, lo: nat, hi: nat)
    requires Changes(m, n, general, FLOAT_SCRATCH, lo, hi)
    ensures |n.memory| == |m.memory| && n.sp == m.sp
  {
  }

  lemma RegisterIsKept(m: Machine, n: Machine, general: set<nat>, lo: nat, hi: nat, r: nat)
    requires Changes(m, n, general, FLOAT_SCRATCH, lo, hi) && r !in general
    ensures General(n, r) == General(m, r)
  {
    hide General;
  }

  // ---------------------------------------------------------------- lanes

  lemma NextLane(m: Machine, n: Machine, general: set<nat>, p: Parameter, data: Bytes, k: nat)
    requires k < LaneCount(p.size) && |data| == p.size
    requires MemoryHolds(m, p.address, data[..8 * k])
    requires Changes(m, n, general, FLOAT_SCRATCH, p.address + 8 * k, p.address + 8 * k + LaneWidth(p.size, k))
    requires MemoryHolds(n, p.address + 8 * k, data[8 * k..8 * k + LaneWidth(p.size, k)])
    ensures MemoryHolds(n, p.address, data[..8 * k + LaneWidth(p.size, k)])
  {
    var w := LaneWidth(p.size, k);
    OtherRange(m, n, p.address + 8 * k, p.address + 8 * k + w, general, p.address, data[..8 * k]);
    HoldsJoin(n, p.address, data[..8 * k], data[8 * k..8 * k + w]);
    assert data[..8 * k] + data[8 * k..8 * k + w] == data[..8 * k + w];
  }

  /// How much of the value the first `k` lanes hold.
  function Prefix(size: nat, k: nat): (r: nat)
    ensures r <= size
    ensures k < LaneCount(size) ==> r == 8 * k
    ensures k >= LaneCount(size) ==> r == size
  {
    if 8 * k < size then 8 * k else size
  }

  lemma {:induction false} LaneStoresLand(s: Source, a: ArgumentAbi, p: Parameter, first: nat, k: nat, above: nat, m0: Machine, m: Machine, junk: Junk)
    requires SourceSheltered(s, above, m0) && Fits(s, a, p, above, m0) && a.class_.Direct? && k <= LaneCount(p.size)
    requires first + LaneCount(p.size) <= ARGUMENT_REGISTERS && InMemoryRange(m, p.address, p.size) && m.sp <= p.address
    requires WordsInRegisters(s.places, first, above, m0, m)
    requires MemoryHolds(m, p.address, ArgumentBytes(s, a, p, above, m0)[..Prefix(p.size, k)])
    ensures Run(LaneStores(p, first, k), m, junk).Done?
    ensures var n := Run(LaneStores(p, first, k), m, junk).machine;
            && MemoryHolds(n, p.address, ArgumentBytes(s, a, p, above, m0))
            && Changes(m, n, SCRATCH, FLOAT_SCRATCH, p.address, p.address + p.size)
    decreases LaneCount(p.size) - k
  {
    hide Step, General, FloatRegister, PlaceWord, Changes, MemoryHolds, ArgumentBytes;
    var data := ArgumentBytes(s, a, p, above, m0);
    if k == LaneCount(p.size) {
      assert data[..p.size] == data;
      NoChanges(m, SCRATCH, p.address, p.address + p.size);
    } else {
      var w, at, from := LaneWidth(p.size, k), p.address + 8 * k, InRegister(first + k);
      assert RegisterHolds(m, first, k, PlaceWord(m0, s.places[k]));
      RegisterWord(m, first, k, PlaceWord(m0, s.places[k]));
      ArgumentRegisterStep(w, at, first + k, m, junk);
      LaneOfArgument(s, a, p, above, m0, k);
      var n := Step(Store(w, at, from), m, junk).machine;
      NextLane(m, n, SCRATCH, p, data, k);
      SizeIsKept(m, n, SCRATCH, at, at + w);
      WordsStay(s.places, first, above, m0, m, n, at, at + w);
      LaneStoresLand(s, a, p, first, k + 1, above, m0, n, junk);
      ChangesJoin(m, n, Run(LaneStores(p, first, k + 1), n, junk).machine, SCRATCH, p.address, p.address + p.size,
                  at, at + w, p.address, p.address + p.size);
    }
  }

  /// Argument registers are not scratch: a lane of any width is stored whole.
  lemma ArgumentRegisterStep(w: nat, at: nat, r: nat, m: Machine, junk: Junk)
    requires 0 < w <= 8 && InMemoryRange(m, at, w) && m.sp <= at && r < ARGUMENT_REGISTERS
    ensures var n := Step(Store(w, at, InRegister(r)), m, junk);
            && n.Done? && MemoryHolds(n.machine, at, PlaceWord(m, InRegister(r))[..w])
            && Changes(m, n.machine, SCRATCH, FLOAT_SCRATCH, at, at + w)
  {
    hide Step, General, FloatRegister, Changes, MemoryHolds;
    RegisterStoreStep(w, at, r, m, junk);
  }

  lemma RegisterWord(m: Machine, first: nat, k: nat, w: Word)
    requires RegisterHolds(m, first, k, w)
    ensures PlaceWord(m, InRegister(first + k)) == w
  {
  }

  lemma WordsStay(places: seq<Place>, first: nat, above: nat, m0: Machine, m: Machine, n: Machine, lo: nat, hi: nat)
    requires SourceSheltered(Words(places), above, m0) && WordsInRegisters(places, first, above, m0, m)
    requires first + |places| <= ARGUMENT_REGISTERS && Changes(m, n, SCRATCH, FLOAT_SCRATCH, lo, hi)
    ensures WordsInRegisters(places, first, above, m0, n)
  {
    hide PlaceWord, General, FloatRegister;
    forall k: nat | k < |places| ensures RegisterHolds(n, first, k, PlaceWord(m0, places[k])) {
      assert RegisterHolds(m, first, k, PlaceWord(m0, places[k]));
      assert first + k !in SCRATCH;
    }
  }

  // ---------------------------------------------------------------- loads and copies

  lemma LoadStep(bytes: nat, d: nat, address: nat, m: Machine, junk: Junk)
    requires bytes <= 8 && InMemoryRange(m, address, bytes) && d in LATE_SCRATCH
    ensures var n := Step(Load(bytes, d, address), m, junk);
            && n.Done? && General(n.machine, d)[..bytes] == Slice(m, address, bytes)
            && Changes(m, n.machine, LATE_SCRATCH, FLOAT_SCRATCH, 0, 0)
  {
    hide Clobbered, Truncated, Slice;
    ClobberedChanges(m, Load(bytes, d, address), junk);
  }

  lemma FloatLoadStep(bytes: nat, d: nat, address: nat, m: Machine, junk: Junk)
    requires bytes <= 8 && InMemoryRange(m, address, bytes) && d in FLOAT_SCRATCH
    ensures var n := Step(FloatLoad(bytes, d, address), m, junk);
            && n.Done? && FloatRegister(n.machine, d)[..bytes] == Slice(m, address, bytes)
            && Changes(m, n.machine, LATE_SCRATCH, FLOAT_SCRATCH, 0, 0)
  {
    hide Clobbered, Truncated, Slice;
    ClobberedChanges(m, FloatLoad(bytes, d, address), junk);
  }

  lemma PointerReads(address: nat)
    requires address < U64_LIMIT
    ensures Pointer(PointerWord(address)) == address
  {
    WordsHaveEightBytes();
    WordRoundTrip(address, 8);
  }

  lemma CopyStep(address: nat, pointer: nat, bytes: nat, source: nat, m: Machine, junk: Junk)
    requires General(m, pointer) == PointerWord(source) && source < U64_LIMIT
    requires InMemoryRange(m, source, bytes) && InMemoryRange(m, address, bytes)
    requires source + bytes <= address || address + bytes <= source
    ensures var n := Step(CopyFrom(address, pointer, bytes), m, junk);
            && n.Done? && MemoryHolds(n.machine, address, Slice(m, source, bytes))
            && Changes(m, n.machine, LATE_SCRATCH, FLOAT_SCRATCH, address, address + bytes)
  {
    hide Clobbered, Slice, WriteMemory, Changes, MemoryHolds, Pointer, PointerWord, General, FloatRegister, Loaded, Truncated, SetGeneral, SetFloating, PlaceWord, FloatWord;
    var i := CopyFrom(address, pointer, bytes);
    PointerReads(source);
    ClobberedChanges(m, i, junk);
    WriteChanges(m, Clobbered(m, i, junk), LATE_SCRATCH, FLOAT_SCRATCH, address, Slice(m, source, bytes));
  }

  lemma RunTwo(i: Instruction, j: Instruction, m: Machine, junk: Junk)
    ensures Run([i, j], m, junk) == if Step(i, m, junk).Fault? then Fault else Step(j, Step(i, m, junk).machine, junk)
  {
    RunOne(i, m, junk);
    RunAppended([i], [j], m, junk);
    assert [i] + [j] == [i, j];
    if Step(i, m, junk).Done? {
      RunOne(j, Step(i, m, junk).machine, junk);
    }
    hide Step, Run;
  }

  /// What arrives of up to a word that is stored from x17.
  function Arriving(address: nat, sp: nat, data: Bytes): (r: Bytes)
    requires sp <= address
    ensures |r| == |data|
  {
    if Loses(17, address, sp, |data|) then data[..6] + [PointerWord(address + 4)[6]] else data
  }

  /// Up to a word through a scratch register.
  lemma LoadAndStore(w: nat, at: nat, from: nat, m: Machine, junk: Junk)
    requires 0 < w <= 8 && InMemoryRange(m, from, w) && InMemoryRange(m, at, w) && m.sp <= at
    ensures var r := Run([Load(w, 17, from), Store(w, at, InRegister(17))], m, junk);
            && r.Done? && MemoryHolds(r.machine, at, Arriving(at, m.sp, Slice(m, from, w)))
            && Changes(m, r.machine, LATE_SCRATCH, FLOAT_SCRATCH, at, at + w)
  {
    hide Step, General, FloatRegister, Changes, MemoryHolds, Slice, Run, PointerWord;
    var load, store := Load(w, 17, from), Store(w, at, InRegister(17));
    LoadStep(w, 17, from, m, junk);
    var n := Step(load, m, junk).machine;
    SizeIsKept(m, n, LATE_SCRATCH, 0, 0);
    RegisterStoreStep(w, at, 17, n, junk);
    if w == 7 {
      assert General(n, 17)[..7][..6] == General(n, 17)[..6];
    }
    assert Kept(n, 17, at, w) == Arriving(at, m.sp, Slice(m, from, w));
    var q := Step(store, n, junk).machine;
    RunTwo(load, store, m, junk);
    ChangesMore(n, q, Spoiled(17), LATE_SCRATCH, at, at + w, at, at + w);
    ChangesJoin(m, n, q, LATE_SCRATCH, at, at + w, 0, 0, at, at + w);
  }

  lemma FloatLoadAndStore(w: nat, at: nat, from: nat, m: Machine, junk: Junk)
    requires w <= 8 && InMemoryRange(m, from, w) && InMemoryRange(m, at, w)
    ensures var r := Run([FloatLoad(w, 30, from), FloatStore(w, at, InRegister(30))], m, junk);
            && r.Done? && MemoryHolds(r.machine, at, Slice(m, from, w))
            && Changes(m, r.machine, LATE_SCRATCH, FLOAT_SCRATCH, at, at + w)
  {
    hide Step, General, FloatRegister, Changes, MemoryHolds, Slice, Run;
    var load, store := FloatLoad(w, 30, from), FloatStore(w, at, InRegister(30));
    FloatLoadStep(w, 30, from, m, junk);
    var n := Step(load, m, junk).machine;
    SizeIsKept(m, n, LATE_SCRATCH, 0, 0);
    FloatStoreStep(w, at, InRegister(30), n, junk);
    var q := Step(store, n, junk).machine;
    RunTwo(load, store, m, junk);
    ChangesMore(n, q, SCRATCH, LATE_SCRATCH, at, at + w, at, at + w);
    ChangesJoin(m, n, q, LATE_SCRATCH, at, at + w, 0, 0, at, at + w);
  }

  /// A pointer is loaded, and what it points to is copied.
  lemma LoadAndCopy(p: Parameter, from: nat, source: nat, m: Machine, junk: Junk)
    requires MemoryHolds(m, from, PointerWord(source)) && source < U64_LIMIT
    requires InMemoryRange(m, p.address, p.size) && InMemoryRange(m, source, p.size) && p.address + p.size <= source
    ensures var r := Run([Load(WORD_SIZE, 17, from), CopyFrom(p.address, 17, p.size)], m, junk);
            && r.Done? && MemoryHolds(r.machine, p.address, Slice(m, source, p.size))
            && Changes(m, r.machine, LATE_SCRATCH, FLOAT_SCRATCH, p.address, p.address + p.size)
  {
    hide Step, General, FloatRegister, Changes, Slice, Run, PointerWord;
    var load, copy := Load(WORD_SIZE, 17, from), CopyFrom(p.address, 17, p.size);
    LoadStep(WORD_SIZE, 17, from, m, junk);
    var n := Step(load, m, junk).machine;
    assert General(n, 17)[..WORD_SIZE] == General(n, 17);
    SizeIsKept(m, n, LATE_SCRATCH, 0, 0);
    CopyStep(p.address, 17, p.size, source, n, junk);
    var q := Step(copy, n, junk).machine;
    RunTwo(load, copy, m, junk);
    SliceStays(m, n, LATE_SCRATCH, 0, 0, source, p.size);
    ChangesJoin(m, n, q, LATE_SCRATCH, p.address, p.address + p.size, 0, 0, p.address, p.address + p.size);
  }

  lemma SliceStays(m: Machine, n: Machine, general: set<nat>, lo: nat, hi: nat, address: nat, bytes: nat)
    requires Changes(m, n, general, FLOAT_SCRATCH, lo, hi) && InMemoryRange(m, address, bytes)
    requires address + bytes <= lo || hi <= address
    ensures InMemoryRange(n, address, bytes) && Slice(n, address, bytes) == Slice(m, address, bytes)
  {
    hide General, FloatRegister;
  }

  lemma {:induction false} LaneCopiesLand(s: Source, a: ArgumentAbi, p: Parameter, source: nat, k: nat, base: nat, above: nat, m0: Machine, m: Machine, junk: Junk)
    requires SourceSheltered(s, above, m0) && Fits(s, a, p, above, m0) && a.class_.Direct? && !Early(a) && k <= LaneCount(p.size)
    requires InMemoryRange(m, p.address, p.size) && p.address + p.size <= source && m.sp == base <= p.address
    requires WordsInMemory(s.places, source, above, m0, m)
    requires MemoryHolds(m, p.address, Received(s, a, p, base, above, m0)[..Prefix(p.size, k)])
    ensures Run(LaneCopies(p, source, k), m, junk).Done?
    ensures var n := Run(LaneCopies(p, source, k), m, junk).machine;
            && MemoryHolds(n, p.address, Received(s, a, p, base, above, m0))
            && Changes(m, n, LATE_SCRATCH, FLOAT_SCRATCH, p.address, p.address + p.size)
    decreases LaneCount(p.size) - k
  {
    hide Step, General, FloatRegister, PlaceWord, Changes, MemoryHolds, Received, Run, Slice;
    var data := Received(s, a, p, base, above, m0);
    if k == LaneCount(p.size) {
      assert data[..p.size] == data;
      NoChanges(m, LATE_SCRATCH, p.address, p.address + p.size);
      RunNothing(m, junk);
    } else {
      var w, at, from := LaneWidth(p.size, k), p.address + 8 * k, source + 8 * k;
      assert LaneHolds(m, source, k, PlaceWord(m0, s.places[k]));
      HeldPrefix(m, from, PlaceWord(m0, s.places[k]), w);
      var pair, rest := [Load(w, 17, from), Store(w, at, InRegister(17))], LaneCopies(p, source, k + 1);
      LoadAndStore(w, at, from, m, junk);
      LaneArrives(s, a, p, base, above, m0, k);
      var n := Run(pair, m, junk).machine;
      NextLane(m, n, LATE_SCRATCH, p, data, k);
      SizeIsKept(m, n, LATE_SCRATCH, at, at + w);
      LanesStay(s.places, source, above, m0, m, n, at, at + w);
      LaneCopiesLand(s, a, p, source, k + 1, base, above, m0, n, junk);
      RunAppended(pair, rest, m, junk);
      ChangesJoin(m, n, Run(rest, n, junk).machine, LATE_SCRATCH, p.address, p.address + p.size,
                  at, at + w, p.address, p.address + p.size);
    }
  }

  lemma HeldPrefix(m: Machine, address: nat, data: Bytes, w: nat)
    requires MemoryHolds(m, address, data) && w <= |data|
    ensures InMemoryRange(m, address, w) && Slice(m, address, w) == data[..w]
  {
    assert Slice(m, address, |data|)[..w] == Slice(m, address, w);
  }

  lemma LanesStay(places: seq<Place>, source: nat, above: nat, m0: Machine, m: Machine, n: Machine, lo: nat, hi: nat)
    requires SourceSheltered(Words(places), above, m0) && WordsInMemory(places, source, above, m0, m)
    requires hi <= source && Changes(m, n, LATE_SCRATCH, FLOAT_SCRATCH, lo, hi)
    ensures WordsInMemory(places, source, above, m0, n)
  {
    hide PlaceWord, Changes, MemoryHolds;
    forall k: nat | k < |places| ensures LaneHolds(n, source, k, PlaceWord(m0, places[k])) {
      assert LaneHolds(m, source, k, PlaceWord(m0, places[k]));
      OtherRange(m, n, lo, hi, LATE_SCRATCH, source + WORD_SIZE * k, PlaceWord(m0, places[k]));
    }
  }

  // ---------------------------------------------------------------- one parameter

  /// The parameter object holds the argument.
  predicate Arrived(s: Source, a: ArgumentAbi, p: Parameter, above: nat, m0: Machine, n: Machine)
    requires SourceSheltered(s, above, m0) && Fits(s, a, p, above, m0)
  {
    MemoryHolds(n, p.address, ArgumentBytes(s, a, p, above, m0))
  }

  /// The parameter object holds what the entry code makes of the argument.
  predicate Landed(s: Source, a: ArgumentAbi, p: Parameter, base: nat, above: nat, m0: Machine, n: Machine)
    requires SourceSheltered(s, above, m0) && Fits(s, a, p, above, m0) && base <= p.address
  {
    MemoryHolds(n, p.address, Received(s, a, p, base, above, m0))
  }

  /// The argument's own bytes, unless the last one is lost and differs from the byte in its place.
  lemma LandedTells(s: Source, a: ArgumentAbi, p: Parameter, base: nat, above: nat, m0: Machine, n: Machine)
    requires SourceSheltered(s, above, m0) && Fits(s, a, p, above, m0) && base <= p.address && Landed(s, a, p, base, above, m0, n)
    ensures Arrived(s, a, p, above, m0, n) <==> Survives(s, a, p, base, above, m0)
  {
    hide ArgumentBytes, Received, Slice, Survives;
    ReceivedTells(s, a, p, base, above, m0);
  }

  lemma ReceivedTells(s: Source, a: ArgumentAbi, p: Parameter, base: nat, above: nat, m0: Machine)
    requires SourceSheltered(s, above, m0) && Fits(s, a, p, above, m0) && base <= p.address
    ensures Received(s, a, p, base, above, m0) == ArgumentBytes(s, a, p, above, m0) <==> Survives(s, a, p, base, above, m0)
  {
    hide ArgumentBytes, PointerWord, StackEncodable, Fits, SourceSheltered;
    var data := ArgumentBytes(s, a, p, above, m0);
    if TailIsLost(a, p, base) {
      LastByteTells(data, PointerWord(p.address + p.size - 3)[6]);
    }
  }

  lemma LastByteTells(data: Bytes, b: Byte)
    requires |data| > 0
    ensures data[..|data| - 1] + [b] == data <==> data[|data| - 1] == b
  {
    assert (data[..|data| - 1] + [b])[|data| - 1] == b;
    assert data == data[..|data| - 1] + [data[|data| - 1]];
  }

  /// Byte 6 of an address is all that a lost byte can equal.
  predicate Survives(s: Source, a: ArgumentAbi, p: Parameter, base: nat, above: nat, m0: Machine)
    requires SourceSheltered(s, above, m0) && Fits(s, a, p, above, m0) && base <= p.address
  {
    TailIsLost(a, p, base) ==> ArgumentBytes(s, a, p, above, m0)[p.size - 1] == PointerWord(p.address + p.size - 3)[6]
  }

  /// After the first pass: the argument, or the pointer to it, when it came in registers.
  predicate Staged(s: Source, a: ArgumentAbi, p: Parameter, above: nat, m0: Machine, n: Machine)
    requires SourceSheltered(s, above, m0) && Fits(s, a, p, above, m0)
  {
    Early(a) ==> if a.class_.Indirect? then MemoryHolds(n, p.address, PointerWord(s.address)) else Arrived(s, a, p, above, m0, n)
  }

  /// Storing one register argument.
  lemma EarlyParameterIsStaged(s: Source, a: ArgumentAbi, p: Parameter, sp: nat, above: nat, outgoing: nat, m0: Machine, m: Machine, junk: Junk)
    requires SourceSheltered(s, above, m0) && Fits(s, a, p, above, m0) && Delivered(s, a, sp, above, m0, m) && Placed(a, outgoing)
    requires EarlyCode(a, p).Ok? && InMemoryRange(m, p.address, p.size) && m.sp <= p.address
    ensures Run(EarlyCode(a, p).value, m, junk).Done?
    ensures var n := Run(EarlyCode(a, p).value, m, junk).machine;
            Staged(s, a, p, above, m0, n) && Changes(m, n, SCRATCH, FLOAT_SCRATCH, p.address, p.address + p.size)
  {
    hide Step, General, FloatRegister, PlaceWord, FloatWord, Changes, Run, PointerWord, WordsInRegisters, WordsInMemory;
    if !Early(a) {
      assert EarlyCode(a, p).value == [];
      RunNothing(m, junk);
      NoChanges(m, SCRATCH, p.address, p.address + p.size);
    } else {
      var first := a.location.value.first;
      if a.class_.Direct? {
        EmptyHolds(m, p.address);
        assert ArgumentBytes(s, a, p, above, m0)[..Prefix(p.size, 0)] == [];
        hide ArgumentBytes, MemoryHolds;
        LaneStoresLand(s, a, p, first, 0, above, m0, m, junk);
      } else if a.class_.Indirect? {
        var i := Store(WORD_SIZE, p.address, InRegister(first));
        GeneralPlace(m, first);
        NativeStoreStep(WORD_SIZE, p.address, InRegister(first), m, junk);
        RunOne(i, m, junk);
        assert PlaceWord(m, InRegister(first))[..WORD_SIZE] == PlaceWord(m, InRegister(first));
        ChangesMore(m, Step(i, m, junk).machine, SCRATCH, SCRATCH, p.address, p.address + WORD_SIZE, p.address, p.address + p.size);
      } else {
        FloatPlace(m, first);
        FloatStoreStep(p.size, p.address, InRegister(first), m, junk);
        RunOne(FloatStore(p.size, p.address, InRegister(first)), m, junk);
      }
    }
  }

  lemma EmptyHolds(m: Machine, address: nat)
    requires address <= |m.memory|
    ensures MemoryHolds(m, address, [])
  {
  }

  lemma GeneralPlace(m: Machine, r: nat)
    ensures PlaceWord(m, InRegister(r)) == General(m, r)
  {
  }

  lemma FloatPlace(m: Machine, r: nat)
    ensures FloatWord(m, InRegister(r)) == FloatRegister(m, r)
  {
  }

  /// What the second pass needs of one argument: its object staged, its slot and its pointee intact.
  predicate Pending(s: Source, a: ArgumentAbi, p: Parameter, sp: nat, above: nat, m0: Machine, n: Machine)
    requires SourceSheltered(s, above, m0) && Fits(s, a, p, above, m0)
  {
    && Staged(s, a, p, above, m0, n)
    && (!Early(a) ==> Delivered(s, a, sp, above, m0, n))
    && (a.class_.Indirect? ==> MemoryHolds(n, s.address, Slice(m0, s.address, p.size)))
  }

  /// The second pass completes one argument.
  lemma LateParameterArrives(s: Source, a: ArgumentAbi, p: Parameter, base: nat, sp: nat, outgoing: nat, m0: Machine, m: Machine, junk: Junk)
    requires SourceSheltered(s, sp + outgoing, m0) && Fits(s, a, p, sp + outgoing, m0) && Placed(a, outgoing)
    requires Pending(s, a, p, sp, sp + outgoing, m0, m)
    requires LateCode(a, p, sp).Ok? && p.address + p.size <= sp && sp + outgoing <= |m.memory| && m.sp == base <= p.address
    ensures Run(LateCode(a, p, sp).value, m, junk).Done?
    ensures var n := Run(LateCode(a, p, sp).value, m, junk).machine;
            Landed(s, a, p, base, sp + outgoing, m0, n) && Changes(m, n, LATE_SCRATCH, FLOAT_SCRATCH, p.address, p.address + p.size)
  {
    hide Step, General, FloatRegister, PlaceWord, FloatWord, Changes, Run, PointerWord, WordsInRegisters, WordsInMemory;
    if a.class_.Indirect? {
      var from := if Early(a) then p.address else sp + a.location.value.offset;
      LoadAndCopy(p, from, s.address, m, junk);
    } else if Early(a) || a.class_.Zero? {
      assert LateCode(a, p, sp).value == [];
      RunNothing(m, junk);
      NoChanges(m, LATE_SCRATCH, p.address, p.address + p.size);
    } else {
      var from := sp + a.location.value.offset;
      if a.class_.Direct? {
        EmptyHolds(m, p.address);
        assert Received(s, a, p, base, sp + outgoing, m0)[..Prefix(p.size, 0)] == [];
        hide ArgumentBytes, MemoryHolds;
        LaneCopiesLand(s, a, p, from, 0, base, sp + outgoing, m0, m, junk);
      } else {
        FloatLoadAndStore(p.size, p.address, from, m, junk);
      }
    }
  }

  // ---------------------------------------------------------------- both passes

  /// Parameter objects lie in the callee's frame, which starts at `base`.
  predicate InFrame(ps: seq<Parameter>, base: nat) {
    forall i | 0 <= i < |ps| :: base <= ps[i].address
  }

  /// Parameter objects lie below the caller's frame and apart from each other.
  predicate Separate(ps: seq<Parameter>, sp: nat) {
    && (forall i | 0 <= i < |ps| :: ps[i].address + ps[i].size <= sp)
    && (forall i, j | 0 <= i < j < |ps| :: Disjoint(ps[i], ps[j]))
  }

  predicate Disjoint(p: Parameter, q: Parameter) {
    p.address + p.size <= q.address || q.address + q.size <= p.address
  }

  lemma SeparateParameters(ps: seq<Parameter>, sp: nat, i: nat, j: nat)
    requires Separate(ps, sp) && i < |ps| && j < |ps| && i != j
    ensures Disjoint(ps[i], ps[j])
  {
    if j < i {
      assert Disjoint(ps[j], ps[i]);
    }
  }

  /// All arguments of one call.
  ghost predicate CallFits(sources: seq<Source>, abi: seq<ArgumentAbi>, ps: seq<Parameter>, sp: nat, outgoing: nat, m0: Machine) {
    && |sources| == |abi| == |ps| && Assigned(abi, sp, outgoing) && Separate(ps, sp) && sp + outgoing <= |m0.memory|
    && forall k: nat | k < |abi| :: SourceSheltered(sources[k], sp + outgoing, m0) && Fits(sources[k], abi[k], ps[k], sp + outgoing, m0)
  }

  lemma DeliveredStays(s: Source, a: ArgumentAbi, q: Parameter, sp: nat, outgoing: nat, m0: Machine, m: Machine, n: Machine, general: set<nat>)
    requires SourceSheltered(s, sp + outgoing, m0) && Placed(a, outgoing) && Delivered(s, a, sp, sp + outgoing, m0, m)
    requires Changes(m, n, general, FLOAT_SCRATCH, q.address, q.address + q.size) && q.address + q.size <= sp
    requires Early(a) ==> general == SCRATCH
    requires Early(a) && a.class_.Direct? ==> s.Words? && |s.places| == a.location.value.words
    requires general <= LATE_SCRATCH && (IsFloat(a) && Early(a) ==> a.location.value.words == 1)
    requires a.class_.Indirect? && Early(a) ==> a.location.value.words == 1
    ensures Delivered(s, a, sp, sp + outgoing, m0, n)
  {
    hide PlaceWord, FloatWord, MemoryHolds, WordsInRegisters, WordsInMemory, PointerWord, General, FloatRegister, Changes;
    match (a.class_, a.location)
    case (Direct(_), Some(Registers(first, _))) =>
      WordsStay(s.places, first, sp + outgoing, m0, m, n, q.address, q.address + q.size);
    case (Direct(_), Some(Slot(offset, _))) =>
      ChangesMore(m, n, general, LATE_SCRATCH, q.address, q.address + q.size, q.address, q.address + q.size);
      LanesStay(s.places, sp + offset, sp + outgoing, m0, m, n, q.address, q.address + q.size);
    case (Indirect, Some(Registers(first, _))) => RegisterIsKept(m, n, general, q.address, q.address + q.size, first);
    case (Indirect, Some(Slot(offset, _))) =>
      OtherRange(m, n, q.address, q.address + q.size, general, sp + offset, PointerWord(s.address));
    case (Zero, _) =>
    case (_, Some(Registers(first, _))) => FloatIsKept(m, n, general, q.address, q.address + q.size, first);
    case (_, Some(Slot(offset, _))) =>
      OtherRange(m, n, q.address, q.address + q.size, general, sp + offset, FloatWord(m0, s.place)[..FloatBytes(a.class_)]);
    case _ =>
  }

  lemma FloatIsKept(m: Machine, n: Machine, general: set<nat>, lo: nat, hi: nat, r: nat)
    requires Changes(m, n, general, FLOAT_SCRATCH, lo, hi) && r < 16
    ensures FloatRegister(n, r) == FloatRegister(m, r)
  {
    hide FloatRegister;
  }

  lemma StagedStays(s: Source, a: ArgumentAbi, p: Parameter, q: Parameter, above: nat, m0: Machine, m: Machine, n: Machine, general: set<nat>)
    requires SourceSheltered(s, above, m0) && Fits(s, a, p, above, m0) && Staged(s, a, p, above, m0, m) && Disjoint(p, q)
    requires Changes(m, n, general, FLOAT_SCRATCH, q.address, q.address + q.size)
    ensures Staged(s, a, p, above, m0, n)
  {
    hide MemoryHolds, PointerWord, ArgumentBytes, Changes;
    if Early(a) {
      var data := if a.class_.Indirect? then PointerWord(s.address) else ArgumentBytes(s, a, p, above, m0);
      OtherRange(m, n, q.address, q.address + q.size, general, p.address, data);
    }
  }

  lemma ArrivedStays(s: Source, a: ArgumentAbi, p: Parameter, q: Parameter, above: nat, m0: Machine, m: Machine, n: Machine, general: set<nat>)
    requires SourceSheltered(s, above, m0) && Fits(s, a, p, above, m0) && Arrived(s, a, p, above, m0, m) && Disjoint(p, q)
    requires Changes(m, n, general, FLOAT_SCRATCH, q.address, q.address + q.size)
    ensures Arrived(s, a, p, above, m0, n)
  {
    OtherRange(m, n, q.address, q.address + q.size, general, p.address, ArgumentBytes(s, a, p, above, m0));
  }

  lemma LandedStays(s: Source, a: ArgumentAbi, p: Parameter, q: Parameter, base: nat, above: nat, m0: Machine, m: Machine, n: Machine, general: set<nat>)
    requires SourceSheltered(s, above, m0) && Fits(s, a, p, above, m0) && base <= p.address && Landed(s, a, p, base, above, m0, m) && Disjoint(p, q)
    requires Changes(m, n, general, FLOAT_SCRATCH, q.address, q.address + q.size)
    ensures Landed(s, a, p, base, above, m0, n)
  {
    OtherRange(m, n, q.address, q.address + q.size, general, p.address, Received(s, a, p, base, above, m0));
  }

  /// The pointee of an indirect argument.
  predicate PointeeHolds(s: Source, a: ArgumentAbi, p: Parameter, above: nat, m0: Machine, n: Machine)
    requires Fits(s, a, p, above, m0)
  {
    a.class_.Indirect? ==> MemoryHolds(n, s.address, Slice(m0, s.address, p.size))
  }

  lemma PointeeStays(s: Source, a: ArgumentAbi, p: Parameter, q: Parameter, sp: nat, above: nat, m0: Machine, m: Machine, n: Machine, general: set<nat>)
    requires Fits(s, a, p, above, m0) && PointeeHolds(s, a, p, above, m0, m) && q.address + q.size <= sp <= above
    requires Changes(m, n, general, FLOAT_SCRATCH, q.address, q.address + q.size)
    ensures PointeeHolds(s, a, p, above, m0, n)
  {
    if a.class_.Indirect? {
      OtherRange(m, n, q.address, q.address + q.size, general, s.address, Slice(m0, s.address, p.size));
    }
  }

  /// What the caller's code accepted about one argument.
  predicate Accepted(s: Source, a: ArgumentAbi, sp: nat) {
    ArgumentCode(s, a, sp).Ok?
  }

  lemma AcceptedShape(s: Source, a: ArgumentAbi, sp: nat)
    requires Accepted(s, a, sp)
    ensures Early(a) && a.class_.Direct? ==> s.Words? && |s.places| == a.location.value.words
    ensures Early(a) && (IsFloat(a) || a.class_.Indirect?) ==> a.location.value.words == 1
  {
  }

  /// Every argument is still where the caller put it.
  ghost predicate AllDelivered(sources: seq<Source>, abi: seq<ArgumentAbi>, ps: seq<Parameter>, sp: nat, outgoing: nat, m0: Machine, n: Machine)
    requires CallFits(sources, abi, ps, sp, outgoing, m0)
  {
    forall k: nat | k < |abi| :: Delivered(sources[k], abi[k], sp, sp + outgoing, m0, n) && PointeeHolds(sources[k], abi[k], ps[k], sp + outgoing, m0, n)
  }

  ghost predicate StagedUpTo(sources: seq<Source>, abi: seq<ArgumentAbi>, ps: seq<Parameter>, i: nat, sp: nat, outgoing: nat, m0: Machine, n: Machine)
    requires CallFits(sources, abi, ps, sp, outgoing, m0) && i <= |abi|
  {
    forall k: nat | k < i :: Staged(sources[k], abi[k], ps[k], sp + outgoing, m0, n)
  }

  lemma DeliveredAllStay(sources: seq<Source>, abi: seq<ArgumentAbi>, ps: seq<Parameter>, i: nat, sp: nat, outgoing: nat, m0: Machine, m: Machine, n: Machine)
    requires CallFits(sources, abi, ps, sp, outgoing, m0) && i < |abi| && AllDelivered(sources, abi, ps, sp, outgoing, m0, m)
    requires forall k: nat | k < |abi| :: Accepted(sources[k], abi[k], sp)
    requires Changes(m, n, SCRATCH, FLOAT_SCRATCH, ps[i].address, ps[i].address + ps[i].size)
    ensures AllDelivered(sources, abi, ps, sp, outgoing, m0, n)
  {
    hide Delivered, PointeeHolds, Changes, Accepted, SourceSheltered, Fits, Apart, Placed, Disjoint;
    forall k: nat | k < |abi|
      ensures Delivered(sources[k], abi[k], sp, sp + outgoing, m0, n) && PointeeHolds(sources[k], abi[k], ps[k], sp + outgoing, m0, n)
    {
      AcceptedShape(sources[k], abi[k], sp);
      DeliveredStays(sources[k], abi[k], ps[i], sp, outgoing, m0, m, n, SCRATCH);
      PointeeStays(sources[k], abi[k], ps[k], ps[i], sp, sp + outgoing, m0, m, n, SCRATCH);
    }
  }

  lemma StagedAllStay(sources: seq<Source>, abi: seq<ArgumentAbi>, ps: seq<Parameter>, i: nat, sp: nat, outgoing: nat, m0: Machine, m: Machine, n: Machine)
    requires CallFits(sources, abi, ps, sp, outgoing, m0) && i < |abi| && StagedUpTo(sources, abi, ps, i, sp, outgoing, m0, m)
    requires Changes(m, n, SCRATCH, FLOAT_SCRATCH, ps[i].address, ps[i].address + ps[i].size)
    requires Staged(sources[i], abi[i], ps[i], sp + outgoing, m0, n)
    ensures StagedUpTo(sources, abi, ps, i + 1, sp, outgoing, m0, n)
  {
    hide Staged, Changes, SourceSheltered, Fits, Apart, Placed, Disjoint;
    forall k: nat | k < i ensures Staged(sources[k], abi[k], ps[k], sp + outgoing, m0, n) {
      SeparateParameters(ps, sp, k, i);
      StagedStays(sources[k], abi[k], ps[k], ps[i], sp + outgoing, m0, m, n, SCRATCH);
    }
  }

  lemma AllPending(sources: seq<Source>, abi: seq<ArgumentAbi>, ps: seq<Parameter>, sp: nat, outgoing: nat, m0: Machine, n: Machine)
    requires CallFits(sources, abi, ps, sp, outgoing, m0) && AllDelivered(sources, abi, ps, sp, outgoing, m0, n)
    requires StagedUpTo(sources, abi, ps, |abi|, sp, outgoing, m0, n)
    ensures forall k: nat | k < |abi| :: Pending(sources[k], abi[k], ps[k], sp, sp + outgoing, m0, n)
  {
    hide Delivered, PointeeHolds, Staged, SourceSheltered, Fits, Apart, Placed, Disjoint;
    forall k: nat | k < |abi| ensures Pending(sources[k], abi[k], ps[k], sp, sp + outgoing, m0, n) {
      PendingFrom(sources[k], abi[k], ps[k], sp, sp + outgoing, m0, n);
    }
  }

  lemma OneFits(sources: seq<Source>, abi: seq<ArgumentAbi>, ps: seq<Parameter>, i: nat, sp: nat, outgoing: nat, m0: Machine)
    requires CallFits(sources, abi, ps, sp, outgoing, m0) && i < |abi|
    ensures SourceSheltered(sources[i], sp + outgoing, m0) && Fits(sources[i], abi[i], ps[i], sp + outgoing, m0)
    ensures Placed(abi[i], outgoing) && ps[i].address + ps[i].size <= sp && sp + outgoing <= |m0.memory|
  {
  }

  lemma {:induction false} EarlyPass(sources: seq<Source>, abi: seq<ArgumentAbi>, ps: seq<Parameter>, i: nat, sp: nat, outgoing: nat, m0: Machine, m: Machine, junk: Junk)
    requires CallFits(sources, abi, ps, sp, outgoing, m0) && i <= |abi| == |ps| == |sources| && |m.memory| == |m0.memory| && InFrame(ps, m.sp)
    requires EarlyCodes(abi, ps, i).Ok? && forall k: nat | k < |abi| :: Accepted(sources[k], abi[k], sp)
    requires AllDelivered(sources, abi, ps, sp, outgoing, m0, m) && StagedUpTo(sources, abi, ps, i, sp, outgoing, m0, m)
    ensures Run(EarlyCodes(abi, ps, i).value, m, junk).Done?
    ensures var n := Run(EarlyCodes(abi, ps, i).value, m, junk).machine;
            |n.memory| == |m.memory| && n.sp == m.sp && AllDelivered(sources, abi, ps, sp, outgoing, m0, n) && StagedUpTo(sources, abi, ps, |abi|, sp, outgoing, m0, n)
    decreases |abi| - i
  {
    hide CallFits, AllDelivered, StagedUpTo, Staged, EarlyCode, Changes, Accepted, Run, Delivered, PointeeHolds, SourceSheltered, Fits, Placed;
    if i == |abi| {
      RunNothing(m, junk);
    } else {
      var code, rest := EarlyCode(abi[i], ps[i]).value, EarlyCodes(abi, ps, i + 1).value;
      OneFits(sources, abi, ps, i, sp, outgoing, m0);
      DeliveredAt(sources, abi, ps, i, sp, outgoing, m0, m);
      EarlyParameterIsStaged(sources[i], abi[i], ps[i], sp, sp + outgoing, outgoing, m0, m, junk);
      var n := Run(code, m, junk).machine;
      SizeIsKept(m, n, SCRATCH, ps[i].address, ps[i].address + ps[i].size);
      DeliveredAllStay(sources, abi, ps, i, sp, outgoing, m0, m, n);
      StagedAllStay(sources, abi, ps, i, sp, outgoing, m0, m, n);
      EarlyPass(sources, abi, ps, i + 1, sp, outgoing, m0, n, junk);
      RunAppended(code, rest, m, junk);
    }
  }

  lemma DeliveredAt(sources: seq<Source>, abi: seq<ArgumentAbi>, ps: seq<Parameter>, i: nat, sp: nat, outgoing: nat, m0: Machine, n: Machine)
    requires CallFits(sources, abi, ps, sp, outgoing, m0) && i < |abi| && AllDelivered(sources, abi, ps, sp, outgoing, m0, n)
    ensures Delivered(sources[i], abi[i], sp, sp + outgoing, m0, n)
  {
  }

  lemma PendingFrom(s: Source, a: ArgumentAbi, p: Parameter, sp: nat, above: nat, m0: Machine, n: Machine)
    requires SourceSheltered(s, above, m0) && Fits(s, a, p, above, m0)
    requires Staged(s, a, p, above, m0, n) && Delivered(s, a, sp, above, m0, n) && PointeeHolds(s, a, p, above, m0, n)
    ensures Pending(s, a, p, sp, above, m0, n)
  {
    hide Staged, Delivered;
  }

  lemma PendingStays(s: Source, a: ArgumentAbi, p: Parameter, q: Parameter, sp: nat, outgoing: nat, m0: Machine, m: Machine, n: Machine)
    requires SourceSheltered(s, sp + outgoing, m0) && Fits(s, a, p, sp + outgoing, m0) && Placed(a, outgoing)
    requires Pending(s, a, p, sp, sp + outgoing, m0, m) && Disjoint(p, q) && q.address + q.size <= sp
    requires Changes(m, n, LATE_SCRATCH, FLOAT_SCRATCH, q.address, q.address + q.size)
    ensures Pending(s, a, p, sp, sp + outgoing, m0, n)
  {
    hide Changes, Staged, Delivered, Fits, SourceSheltered;
    StagedStays(s, a, p, q, sp + outgoing, m0, m, n, LATE_SCRATCH);
    PointeeStays(s, a, p, q, sp, sp + outgoing, m0, m, n, LATE_SCRATCH);
    if !Early(a) {
      DeliveredStays(s, a, q, sp, outgoing, m0, m, n, LATE_SCRATCH);
    }
  }

  /// Parameters before `i` are complete, the others wait.
  ghost predicate LandedUpTo(sources: seq<Source>, abi: seq<ArgumentAbi>, ps: seq<Parameter>, i: nat, base: nat, sp: nat, outgoing: nat, m0: Machine, n: Machine)
    requires CallFits(sources, abi, ps, sp, outgoing, m0) && i <= |abi| && InFrame(ps, base)
  {
    && (forall k: nat | k < i :: Landed(sources[k], abi[k], ps[k], base, sp + outgoing, m0, n))
    && (forall k: nat | i <= k < |abi| :: Pending(sources[k], abi[k], ps[k], sp, sp + outgoing, m0, n))
  }

  lemma LandedGrows(sources: seq<Source>, abi: seq<ArgumentAbi>, ps: seq<Parameter>, i: nat, base: nat, sp: nat, outgoing: nat, m0: Machine, m: Machine, n: Machine)
    requires CallFits(sources, abi, ps, sp, outgoing, m0) && i < |abi| && InFrame(ps, base)
    requires LandedUpTo(sources, abi, ps, i, base, sp, outgoing, m0, m)
    requires Changes(m, n, LATE_SCRATCH, FLOAT_SCRATCH, ps[i].address, ps[i].address + ps[i].size)
    requires Landed(sources[i], abi[i], ps[i], base, sp + outgoing, m0, n)
    ensures LandedUpTo(sources, abi, ps, i + 1, base, sp, outgoing, m0, n)
  {
    hide Pending, Landed, Changes, SourceSheltered, Fits, Apart, Placed, Disjoint;
    forall k: nat | k < i ensures Landed(sources[k], abi[k], ps[k], base, sp + outgoing, m0, n) {
      SeparateParameters(ps, sp, k, i);
      LandedStays(sources[k], abi[k], ps[k], ps[i], base, sp + outgoing, m0, m, n, LATE_SCRATCH);
    }
    forall k: nat | i + 1 <= k < |abi| ensures Pending(sources[k], abi[k], ps[k], sp, sp + outgoing, m0, n) {
      SeparateParameters(ps, sp, k, i);
      PendingStays(sources[k], abi[k], ps[k], ps[i], sp, outgoing, m0, m, n);
    }
  }

  lemma PendingNext(sources: seq<Source>, abi: seq<ArgumentAbi>, ps: seq<Parameter>, i: nat, base: nat, sp: nat, outgoing: nat, m0: Machine, n: Machine)
    requires CallFits(sources, abi, ps, sp, outgoing, m0) && i < |abi| && InFrame(ps, base)
    requires LandedUpTo(sources, abi, ps, i, base, sp, outgoing, m0, n)
    ensures Pending(sources[i], abi[i], ps[i], sp, sp + outgoing, m0, n) && base <= ps[i].address
  {
  }

  lemma {:induction false} LatePass(sources: seq<Source>, abi: seq<ArgumentAbi>, ps: seq<Parameter>, i: nat, sp: nat, outgoing: nat, m0: Machine, m: Machine, junk: Junk)
    requires CallFits(sources, abi, ps, sp, outgoing, m0) && i <= |abi| == |ps| == |sources| && |m.memory| == |m0.memory| && InFrame(ps, m.sp)
    requires LateCodes(abi, ps, i, sp).Ok? && LandedUpTo(sources, abi, ps, i, m.sp, sp, outgoing, m0, m)
    ensures Run(LateCodes(abi, ps, i, sp).value, m, junk).Done?
    ensures LandedUpTo(sources, abi, ps, |abi|, m.sp, sp, outgoing, m0, Run(LateCodes(abi, ps, i, sp).value, m, junk).machine)
    decreases |abi| - i
  {
    hide CallFits, InFrame, LandedUpTo, Pending, Landed, LateCode, Changes, SourceSheltered, Fits, Placed, Run;
    if i == |abi| {
      RunNothing(m, junk);
    } else {
      var code, rest := LateCode(abi[i], ps[i], sp).value, LateCodes(abi, ps, i + 1, sp).value;
      OneFits(sources, abi, ps, i, sp, outgoing, m0);
      PendingNext(sources, abi, ps, i, m.sp, sp, outgoing, m0, m);
      LateParameterArrives(sources[i], abi[i], ps[i], m.sp, sp, outgoing, m0, m, junk);
      var n := Run(code, m, junk).machine;
      SizeIsKept(m, n, LATE_SCRATCH, ps[i].address, ps[i].address + ps[i].size);
      LandedGrows(sources, abi, ps, i, m.sp, sp, outgoing, m0, m, n);
      LatePass(sources, abi, ps, i + 1, sp, outgoing, m0, n, junk);
      RunAppended(code, rest, m, junk);
    }
  }

  // ---------------------------------------------------------------- the round trip

  /// Between the caller's moves and the entry code: argument registers and the caller's frame stay.
  ghost predicate Entered(n: Machine, e: Machine, sp: nat) {
    && |e.memory| == |n.memory|
    && (forall r: nat | r < ARGUMENT_REGISTERS :: General(e, r) == General(n, r))
    && (forall r: nat | r < FLOATING_ARGUMENT_REGISTERS :: FloatRegister(e, r) == FloatRegister(n, r))
    && (forall x: nat | sp <= x < |n.memory| :: e.memory[x] == n.memory[x])
  }

  lemma RangeEntered(n: Machine, e: Machine, sp: nat, address: nat, data: Bytes)
    requires Entered(n, e, sp) && MemoryHolds(n, address, data) && sp <= address
    ensures MemoryHolds(e, address, data)
  {
    hide General, FloatRegister;
    assert e.memory[address..address + |data|] == n.memory[address..address + |data|];
  }

  lemma DeliveredOnEntry(s: Source, a: ArgumentAbi, sp: nat, outgoing: nat, m0: Machine, n: Machine, e: Machine)
    requires SourceSheltered(s, sp + outgoing, m0) && Placed(a, outgoing) && Delivered(s, a, sp, sp + outgoing, m0, n)
    requires Accepted(s, a, sp) && Entered(n, e, sp)
    ensures Delivered(s, a, sp, sp + outgoing, m0, e)
  {
    hide PlaceWord, FloatWord, MemoryHolds, PointerWord, General, FloatRegister;
    match (a.class_, a.location)
    case (Direct(_), Some(Registers(first, _))) =>
      forall k: nat | k < |s.places| ensures RegisterHolds(e, first, k, PlaceWord(m0, s.places[k])) {
        assert RegisterHolds(n, first, k, PlaceWord(m0, s.places[k]));
        assert first + k < ARGUMENT_REGISTERS;
      }
    case (Direct(_), Some(Slot(offset, _))) =>
      forall k: nat | k < |s.places| ensures LaneHolds(e, sp + offset, k, PlaceWord(m0, s.places[k])) {
        assert LaneHolds(n, sp + offset, k, PlaceWord(m0, s.places[k]));
        RangeEntered(n, e, sp, sp + offset + WORD_SIZE * k, PlaceWord(m0, s.places[k]));
      }
    case (Indirect, Some(Registers(first, _))) =>
    case (Indirect, Some(Slot(offset, _))) => RangeEntered(n, e, sp, sp + offset, PointerWord(s.address));
    case (Zero, _) =>
    case (_, Some(Registers(first, _))) =>
    case (_, Some(Slot(offset, _))) => RangeEntered(n, e, sp, sp + offset, FloatWord(m0, s.place)[..FloatBytes(a.class_)]);
    case _ =>
  }

  lemma PointeeOnEntry(s: Source, a: ArgumentAbi, p: Parameter, sp: nat, above: nat, m0: Machine, n: Machine, e: Machine)
    requires Fits(s, a, p, above, m0) && SourcesKept(m0, n, above) && Entered(n, e, sp) && sp <= above
    ensures PointeeHolds(s, a, p, above, m0, e)
  {
    if a.class_.Indirect? {
      assert Slice(e, s.address, p.size) == Slice(m0, s.address, p.size);
    }
  }

  lemma AllDeliveredOnEntry(sources: seq<Source>, abi: seq<ArgumentAbi>, ps: seq<Parameter>, sp: nat, outgoing: nat, m: Machine, n: Machine, e: Machine)
    requires CallFits(sources, abi, ps, sp, outgoing, m) && SourcesKept(m, n, sp + outgoing) && Entered(n, e, sp)
    requires forall k: nat | k < |abi| :: Accepted(sources[k], abi[k], sp) && Delivered(sources[k], abi[k], sp, sp + outgoing, m, n)
    ensures AllDelivered(sources, abi, ps, sp, outgoing, m, e)
  {
    hide Delivered, PointeeHolds, Accepted, SourceSheltered, Fits, Apart, Placed, Disjoint, SourcesKept, Entered;
    forall k: nat | k < |abi|
      ensures Delivered(sources[k], abi[k], sp, sp + outgoing, m, e) && PointeeHolds(sources[k], abi[k], ps[k], sp + outgoing, m, e)
    {
      DeliveredOnEntry(sources[k], abi[k], sp, outgoing, m, n, e);
      PointeeOnEntry(sources[k], abi[k], ps[k], sp, sp + outgoing, m, n, e);
    }
  }

  lemma {:induction false} CallAccepts(sources: seq<Source>, abi: seq<ArgumentAbi>, i: nat, sp: nat, k: nat)
    requires i <= k < |abi| == |sources| && CallCode(sources, abi, i, sp).Ok?
    ensures Accepted(sources[k], abi[k], sp)
    decreases k - i
  {
    hide ArgumentCode;
    if i < k {
      CallAccepts(sources, abi, i + 1, sp, k);
    }
  }

  /// The caller's moves and the callee's entry code together put every argument in its parameter
  /// object, whatever scratch registers hold in between. Its bytes are the caller's, except for a last
  /// byte that is lost.
  lemma ArgumentsRoundTrip(sources: seq<Source>, abi: seq<ArgumentAbi>, ps: seq<Parameter>, sp: nat, outgoing: nat, m: Machine, e: Machine, junk: Junk)
    requires CallFits(sources, abi, ps, sp, outgoing, m) && CallCode(sources, abi, 0, sp).Ok? && EntryCode(abi, ps, sp).Ok? && InFrame(ps, e.sp)
    requires Run(CallCode(sources, abi, 0, sp).value, m, junk).Done?
             ==> Entered(Run(CallCode(sources, abi, 0, sp).value, m, junk).machine, e, sp)
    ensures Run(CallCode(sources, abi, 0, sp).value, m, junk).Done? && Run(EntryCode(abi, ps, sp).value, e, junk).Done?
    ensures var q := Run(EntryCode(abi, ps, sp).value, e, junk).machine;
            && (forall k: nat | k < |abi| :: Landed(sources[k], abi[k], ps[k], e.sp, sp + outgoing, m, q))
            && (forall k: nat | k < |abi| ::
                 Arrived(sources[k], abi[k], ps[k], sp + outgoing, m, q) <==> Survives(sources[k], abi[k], ps[k], e.sp, sp + outgoing, m))
  {
    hide Run, CallCode, EarlyCodes, LateCodes, Delivered, Accepted, SourceSheltered, Fits, Arrived, Landed, Survives, Pending, Entered, AllDelivered,
         StagedUpTo;
    ArgumentsAreDelivered(sources, abi, sp, outgoing, m, junk);
    var n := Run(CallCode(sources, abi, 0, sp).value, m, junk).machine;
    forall k: nat | k < |abi| ensures Accepted(sources[k], abi[k], sp) {
      CallAccepts(sources, abi, 0, sp, k);
    }
    AllDeliveredOnEntry(sources, abi, ps, sp, outgoing, m, n, e);
    MemorySize(m, n, e, sp, outgoing);
    NothingStaged(sources, abi, ps, sp, outgoing, m, e);
    var early, late := EarlyCodes(abi, ps, 0).value, LateCodes(abi, ps, 0, sp).value;
    EarlyPass(sources, abi, ps, 0, sp, outgoing, m, e, junk);
    var x := Run(early, e, junk).machine;
    AllPending(sources, abi, ps, sp, outgoing, m, x);
    assert LandedUpTo(sources, abi, ps, 0, e.sp, sp, outgoing, m, x);
    LatePass(sources, abi, ps, 0, sp, outgoing, m, x, junk);
    RunAppended(early, late, e, junk);
    var q := Run(late, x, junk).machine;
    forall k: nat | k < |abi|
      ensures Arrived(sources[k], abi[k], ps[k], sp + outgoing, m, q) <==> Survives(sources[k], abi[k], ps[k], e.sp, sp + outgoing, m)
    {
      LandedTells(sources[k], abi[k], ps[k], e.sp, sp + outgoing, m, q);
    }
  }

  lemma MemorySize(m: Machine, n: Machine, e: Machine, sp: nat, outgoing: nat)
    requires SourcesKept(m, n, sp + outgoing) && Entered(n, e, sp)
    ensures |e.memory| == |m.memory|
  {
  }

  lemma NothingStaged(sources: seq<Source>, abi: seq<ArgumentAbi>, ps: seq<Parameter>, sp: nat, outgoing: nat, m0: Machine, n: Machine)
    requires CallFits(sources, abi, ps, sp, outgoing, m0)
    ensures StagedUpTo(sources, abi, ps, 0, sp, outgoing, m0, n)
  {
  }

  // ---------------------------------------------------------------- when every value arrives

  /// A call with these values, entered with the callee's stack pointer at `base`, keeps all bytes.
  ghost predicate KeepsArguments(sources: seq<Source>, abi: seq<ArgumentAbi>, ps: seq<Parameter>, sp: nat, outgoing: nat, base: nat,
                                 m: Machine, e: Machine, junk: Junk) {
    CallFits(sources, abi, ps, sp, outgoing, m) && CallCode(sources, abi, 0, sp).Ok? && EntryCode(abi, ps, sp).Ok?
    && Run(CallCode(sources, abi, 0, sp).value, m, junk).Done?
    && Entered(Run(CallCode(sources, abi, 0, sp).value, m, junk).machine, e, sp) && e.sp == base
    ==>
    Run(EntryCode(abi, ps, sp).value, e, junk).Done?
    && forall k: nat | k < |abi| :: Arrived(sources[k], abi[k], ps[k], sp + outgoing, m, Run(EntryCode(abi, ps, sp).value, e, junk).machine)
  }

  /// Every register that values live in and every byte of memory holds `v`.
  function Filled(m: Machine, v: Byte): Machine {
    m.(registers := map r: nat | r <= 30 && Allocatable(r) :: [v, v, v, v, v, v, v, v],
       memory := seq(|m.memory|, _ => v))
  }

  lemma FilledFits(sources: seq<Source>, abi: seq<ArgumentAbi>, ps: seq<Parameter>, sp: nat, outgoing: nat, m: Machine, v: Byte)
    requires CallFits(sources, abi, ps, sp, outgoing, m)
    ensures CallFits(sources, abi, ps, sp, outgoing, Filled(m, v))
  {
    var f := Filled(m, v);
    hide Apart, Disjoint;
    forall k: nat | k < |abi|
      ensures SourceSheltered(sources[k], sp + outgoing, f) && Fits(sources[k], abi[k], ps[k], sp + outgoing, f)
    {
      assert SourceSheltered(sources[k], sp + outgoing, m) && Fits(sources[k], abi[k], ps[k], sp + outgoing, m);
    }
  }

  lemma FilledPlace(p: Place, above: nat, m: Machine, v: Byte, i: nat)
    requires Sheltered(p, false, above, Filled(m, v)) && i < 8
    ensures PlaceWord(Filled(m, v), p)[i] == v
  {
  }

  lemma FilledArgument(s: Source, a: ArgumentAbi, p: Parameter, above: nat, m: Machine, v: Byte, i: nat)
    requires SourceSheltered(s, above, Filled(m, v)) && Fits(s, a, p, above, Filled(m, v)) && a.class_.Direct? && i < p.size
    ensures ArgumentBytes(s, a, p, above, Filled(m, v))[i] == v
  {
    hide PlaceWord, Filled;
    FilledPlace(s.places[i / 8], above, m, v, i % 8);
  }

  lemma FilledIsLost(sources: seq<Source>, abi: seq<ArgumentAbi>, ps: seq<Parameter>, sp: nat, outgoing: nat, base: nat, k: nat, m: Machine, junk: Junk)
    requires CallFits(sources, abi, ps, sp, outgoing, m) && CallCode(sources, abi, 0, sp).Ok? && EntryCode(abi, ps, sp).Ok? && InFrame(ps, base)
    requires k < |abi| && TailIsLost(abi[k], ps[k], base)
    ensures exists f, e :: !KeepsArguments(sources, abi, ps, sp, outgoing, base, f, e, junk)
  {
    hide CallCode, EntryCode, Run, Landed, Arrived, SourceSheltered, Fits, Apart, Placed, Disjoint, ArgumentBytes, Filled, General, FloatRegister;
    var v: Byte := if PointerWord(ps[k].address + ps[k].size - 3)[6] == 0 then 1 else 0;
    var f := Filled(m, v);
    FilledFits(sources, abi, ps, sp, outgoing, m, v);
    ArgumentsRun(sources, abi, sp, outgoing, f, junk);
    var n := Run(CallCode(sources, abi, 0, sp).value, f, junk).machine;
    var e := n.(sp := base);
    EntersAt(n, base, sp);
    ArgumentsRoundTrip(sources, abi, ps, sp, outgoing, f, e, junk);
    FilledArgument(sources[k], abi[k], ps[k], sp + outgoing, m, v, ps[k].size - 1);
    assert !Survives(sources[k], abi[k], ps[k], base, sp + outgoing, f);
    assert !KeepsArguments(sources, abi, ps, sp, outgoing, base, f, e, junk);
  }

  lemma ArgumentsRun(sources: seq<Source>, abi: seq<ArgumentAbi>, sp: nat, outgoing: nat, m: Machine, junk: Junk)
    requires |abi| == |sources| && Assigned(abi, sp, outgoing) && sp + outgoing <= |m.memory|
    requires CallCode(sources, abi, 0, sp).Ok? && forall k: nat | k < |abi| :: SourceSheltered(sources[k], sp + outgoing, m)
    ensures Run(CallCode(sources, abi, 0, sp).value, m, junk).Done?
  {
    ArgumentsAreDelivered(sources, abi, sp, outgoing, m, junk);
  }

  lemma EntersAt(n: Machine, base: nat, sp: nat)
    ensures Entered(n, n.(sp := base), sp)
  {
  }

  /// The round trip keeps the bytes of all values if and only if no parameter loses its tail. The
  /// layout of the frame alone decides it.
  lemma ArgumentListIsExact(sources: seq<Source>, abi: seq<ArgumentAbi>, ps: seq<Parameter>, sp: nat, outgoing: nat, base: nat, m: Machine, junk: Junk)
    requires CallFits(sources, abi, ps, sp, outgoing, m) && CallCode(sources, abi, 0, sp).Ok? && EntryCode(abi, ps, sp).Ok? && InFrame(ps, base)
    ensures (forall f, e :: KeepsArguments(sources, abi, ps, sp, outgoing, base, f, e, junk))
            <==> forall k: nat | k < |abi| :: !TailIsLost(abi[k], ps[k], base)
  {
    hide CallCode, EntryCode, Run, Landed, Arrived, TailIsLost, SourceSheltered, Fits, Apart, Placed, Disjoint, Entered;
    if forall k: nat | k < |abi| :: !TailIsLost(abi[k], ps[k], base) {
      forall f, e ensures KeepsArguments(sources, abi, ps, sp, outgoing, base, f, e, junk) {
        WholeTailsAreKept(sources, abi, ps, sp, outgoing, base, f, e, junk);
      }
    } else {
      var k: nat :| k < |abi| && TailIsLost(abi[k], ps[k], base);
      FilledIsLost(sources, abi, ps, sp, outgoing, base, k, m, junk);
    }
  }

  lemma WholeTailsAreKept(sources: seq<Source>, abi: seq<ArgumentAbi>, ps: seq<Parameter>, sp: nat, outgoing: nat, base: nat, f: Machine, e: Machine, junk: Junk)
    requires |abi| == |ps| && InFrame(ps, base) && forall k: nat | k < |abi| :: !TailIsLost(abi[k], ps[k], base)
    ensures KeepsArguments(sources, abi, ps, sp, outgoing, base, f, e, junk)
  {
    hide CallCode, EntryCode, Run, Landed, Arrived, TailIsLost, SourceSheltered, Fits, Apart, Placed, Disjoint, Entered;
    if CallFits(sources, abi, ps, sp, outgoing, f) && CallCode(sources, abi, 0, sp).Ok? && EntryCode(abi, ps, sp).Ok?
       && Run(CallCode(sources, abi, 0, sp).value, f, junk).Done?
       && Entered(Run(CallCode(sources, abi, 0, sp).value, f, junk).machine, e, sp) && e.sp == base
    {
      ArgumentsRoundTrip(sources, abi, ps, sp, outgoing, f, e, junk);
    }
  }

  // ---------------------------------------------------------------- a list that loses a byte

  /// Eight words in registers, and a value of seven bytes in a slot, all out of x19.
  function NineSources(): seq<Source> {
    seq(9, _ => Words([InRegister(19)]))
  }

  function NineLocations(): seq<ArgumentAbi> {
    seq(9, i requires 0 <= i < 9 => ArgumentAbi(Direct(1), Some(if i < 8 then Registers(i, 1) else Slot(0, 8))))
  }

  /// The ninth parameter lies behind an object of one byte, at offset 65 of the callee's frame.
  function NineParameters(base: nat): seq<Parameter> {
    seq(9, i requires 0 <= i < 9 => if i < 8 then Parameter(base + 8 * i, 8) else Parameter(base + 65, 7))
  }

  lemma NineFit(base: nat, m: Machine)
    requires base + 88 <= |m.memory|
    ensures CallFits(NineSources(), NineLocations(), NineParameters(base), base + 80, 8, m) && InFrame(NineParameters(base), base)
  {
    var abi, ps := NineLocations(), NineParameters(base);
    forall i, j | 0 <= i < j < 9 ensures Apart(abi[i], abi[j], base + 80) && Disjoint(ps[i], ps[j]) {
    }
  }

  lemma {:induction false} NineAreMoved(i: nat, sp: nat)
    requires i <= 9
    ensures CallCode(NineSources(), NineLocations(), i, sp).Ok?
    decreases 9 - i
  {
    if i < 9 {
      NineAreMoved(i + 1, sp);
    }
  }

  lemma {:induction false} NineAreStored(i: nat, base: nat)
    requires i <= 9
    ensures EarlyCodes(NineLocations(), NineParameters(base), i).Ok? && LateCodes(NineLocations(), NineParameters(base), i, base + 80).Ok?
    decreases 9 - i
  {
    if i < 9 {
      NineAreStored(i + 1, base);
    }
  }

  /// The last byte of the ninth parameter is byte 6 of the address that was formed for the bytes before
  /// it, so the value arrives changed unless byte 6 of x19 happens to be the same.
  lemma NinthArgumentArrivesChanged(base: nat, m: Machine, e: Machine, junk: Junk)
    requires base + 88 <= |m.memory| && e.sp == base && General(m, 19)[6] != PointerWord(base + 69)[6]
    requires Run(CallCode(NineSources(), NineLocations(), 0, base + 80).value, m, junk).Done?
             ==> Entered(Run(CallCode(NineSources(), NineLocations(), 0, base + 80).value, m, junk).machine, e, base + 80)
    ensures EntryCode(NineLocations(), NineParameters(base), base + 80).Ok?
    ensures var r := Run(EntryCode(NineLocations(), NineParameters(base), base + 80).value, e, junk);
            r.Done? && base + 72 <= |r.machine.memory|
            && r.machine.memory[base + 71] == PointerWord(base + 69)[6] != General(m, 19)[6]
  {
    hide Run, CallCode, EarlyCodes, LateCodes, General, PointerWord, Arrived, Survives, Entered, CallFits;
    NineFit(base, m);
    NineAreMoved(0, base + 80);
    NineAreStored(0, base);
    ArgumentsRoundTrip(NineSources(), NineLocations(), NineParameters(base), base + 80, 8, m, e, junk);
    var q := Run(EntryCode(NineLocations(), NineParameters(base), base + 80).value, e, junk).machine;
    NinthTail(base, m, q);
  }

  lemma NinthTail(base: nat, m: Machine, q: Machine)
    requires CallFits(NineSources(), NineLocations(), NineParameters(base), base + 80, 8, m)
    requires Landed(NineSources()[8], NineLocations()[8], NineParameters(base)[8], base, base + 88, m, q)
    ensures base + 72 <= |q.memory| && q.memory[base + 71] == PointerWord(base + 69)[6]
  {
    hide CallFits, ArgumentBytes, PointerWord;
    assert Slice(q, base + 65, 7)[6] == q.memory[base + 71];
  }
}
