/**
 How the constructor of a deferred function captures its arguments: into staging objects of its own
 frame, and from there into the heap frame.

 The constructor has its own code for the same transport. It copies slots in native chunks, so it keeps
 the last byte that the entry code of an ordinary callee can lose.
 */
module Constructor {
  import opened Results
  import opened ByteRanges
  import opened NocterAbi
  import opened Transport
  import opened TransportEntry

  // ---------------------------------------------------------------- code

  datatype CaptureError = BadTransport | BadRegister | InvalidMemoryWidth | FrameObjectBounds | CaptureLayout

  /// Lanes of the transport. A lane behind the value has no width.
  function StagedLanes(p: Parameter, first: nat, lane: nat, words: nat): Result<seq<Instruction>, CaptureError>
    requires lane <= words
    decreases words - lane
  {
    if lane == words then Ok([])
    else if lane >= LaneCount(p.size) then Err(InvalidMemoryWidth)
    else if first + lane >= ARGUMENT_REGISTERS then Err(BadRegister)
    else
      var rest := StagedLanes(p, first, lane + 1, words);
      if rest.Err? then rest
      else Ok([Store(LaneWidth(p.size, lane), p.address + WORD_SIZE * lane, InRegister(first + lane))] + rest.value)
  }

  function RegisterStaging(a: ArgumentAbi, p: Parameter): Result<seq<Instruction>, CaptureError> {
    if a.location.None? || a.location.value.Slot? then Ok([])
    else
      var first, span := a.location.value.first, a.location.value.words;
      match a.class_
      case Zero => Ok([])
      case Direct(words) => if words != span then Err(BadTransport) else StagedLanes(p, first, 0, words)
      case Indirect =>
        if span != 1 || p.size < WORD_SIZE then Err(BadTransport)
        else if first >= ARGUMENT_REGISTERS then Err(BadRegister)
        else Ok([Store(WORD_SIZE, p.address, InRegister(first))])
      case _ =>
        if span != 1 then Err(BadTransport)
        else if first >= FLOATING_ARGUMENT_REGISTERS then Err(BadRegister)
        else Ok([FloatStore(FloatBytes(a.class_), p.address, InRegister(first))])
  }

  /// A stack range copied through x16, chunk by chunk.
  function StackChunks(to: nat, from: nat, total: nat, offset: nat): seq<Instruction>
    requires offset <= total
    decreases total - offset
  {
    if offset == total then []
    else
      var w := ChunkWidth(total - offset);
      [Load(w, 16, from + offset), Store(w, to + offset, InRegister(16))] + StackChunks(to, from, total, offset + w)
  }

  function TransportBytes(c: Class): nat {
    match c
    case Zero => 0
    case Direct(words) => WORD_SIZE * words
    case Float32 => 4
    case _ => 8
  }

  function StackStaging(a: ArgumentAbi, p: Parameter, incoming: nat): Result<seq<Instruction>, CaptureError> {
    if a.location.None? || a.location.value.Registers? then Ok([])
    else if a.location.value.size < TransportBytes(a.class_) then Err(BadTransport)
    else
      var stored := if a.class_.Indirect? then WORD_SIZE else p.size;
      if stored > p.size then Err(FrameObjectBounds)
      else Ok(StackChunks(p.address, incoming + a.location.value.offset, stored, 0))
  }

  /// What `pointer` points to, copied through x16, chunk by chunk.
  function PointeeChunks(to: nat, pointer: nat, total: nat, offset: nat): seq<Instruction>
    requires offset <= total
    decreases total - offset
  {
    if offset == total then []
    else
      var w := ChunkWidth(total - offset);
      [LoadThrough(w, 16, pointer, offset), Store(w, to + offset, InRegister(16))] + PointeeChunks(to, pointer, total, offset + w)
  }

  /// The pointer stays in x0 while what it points to replaces it in the object.
  function IndirectClosing(a: ArgumentAbi, p: Parameter): Result<seq<Instruction>, CaptureError> {
    if !a.class_.Indirect? then Ok([])
    else if p.size < WORD_SIZE then Err(FrameObjectBounds)
    else Ok([Load(WORD_SIZE, 0, p.address)] + PointeeChunks(p.address, 0, p.size, 0))
  }

  /// A staging object copied into the heap frame. The mapping pointer is loaded anew for each chunk.
  function HeapChunks(from: nat, mapping: nat, field: nat, total: nat, offset: nat): seq<Instruction>
    requires offset <= total
    decreases total - offset
  {
    if offset == total then []
    else
      var w := ChunkWidth(total - offset);
      [Load(w, 16, from + offset), Load(WORD_SIZE, 17, mapping), StoreThrough(w, 17, field + offset, 16)]
      + HeapChunks(from, mapping, field, total, offset + w)
  }

  /// A field of the heap frame.
  datatype Field = Field(offset: nat, size: nat)

  function CaptureCode(p: Parameter, field: Field, mapping: nat): Result<seq<Instruction>, CaptureError> {
    if p.size != field.size then Err(CaptureLayout) else Ok(HeapChunks(p.address, mapping, field.offset, p.size, 0))
  }

  function RegisterStagings(abi: seq<ArgumentAbi>, ps: seq<Parameter>, i: nat): Result<seq<Instruction>, CaptureError>
    requires i <= |abi| == |ps|
    decreases |abi| - i
  {
    if i == |abi| then Ok([])
    else
      var first := RegisterStaging(abi[i], ps[i]);
      if first.Err? then first
      else
        var rest := RegisterStagings(abi, ps, i + 1);
        if rest.Err? then rest else Ok(first.value + rest.value)
  }

  function StackStagings(abi: seq<ArgumentAbi>, ps: seq<Parameter>, i: nat, incoming: nat): Result<seq<Instruction>, CaptureError>
    requires i <= |abi| == |ps|
    decreases |abi| - i
  {
    if i == |abi| then Ok([])
    else
      var first := StackStaging(abi[i], ps[i], incoming);
      if first.Err? then first
      else
        var rest := StackStagings(abi, ps, i + 1, incoming);
        if rest.Err? then rest else Ok(first.value + rest.value)
  }

  function IndirectClosings(abi: seq<ArgumentAbi>, ps: seq<Parameter>, i: nat): Result<seq<Instruction>, CaptureError>
    requires i <= |abi| == |ps|
    decreases |abi| - i
  {
    if i == |abi| then Ok([])
    else
      var first := IndirectClosing(abi[i], ps[i]);
      if first.Err? then first
      else
        var rest := IndirectClosings(abi, ps, i + 1);
        if rest.Err? then rest else Ok(first.value + rest.value)
  }

  function Captures(ps: seq<Parameter>, fields: seq<Field>, i: nat, mapping: nat): Result<seq<Instruction>, CaptureError>
    requires i <= |ps| == |fields|
    decreases |ps| - i
  {
    if i == |ps| then Ok([])
    else
      var first := CaptureCode(ps[i], fields[i], mapping);
      if first.Err? then first
      else
        var rest := Captures(ps, fields, i + 1, mapping);
        if rest.Err? then rest else Ok(first.value + rest.value)
  }

  /// The code before the heap frame is mapped.
  function StagingCode(abi: seq<ArgumentAbi>, ps: seq<Parameter>, incoming: nat): Result<seq<Instruction>, CaptureError>
    requires |abi| == |ps|
  {
    var early := RegisterStagings(abi, ps, 0);
    if early.Err? then early
    else
      var stack := StackStagings(abi, ps, 0, incoming);
      if stack.Err? then stack
      else
        var closing := IndirectClosings(abi, ps, 0);
        if closing.Err? then closing else Ok(early.value + stack.value + closing.value)
  }

  // ---------------------------------------------------------------- register staging is entry code

  lemma {:induction false} StagedLanesAreLaneStores(p: Parameter, first: nat, lane: nat)
    requires lane <= LaneCount(p.size) && StagedLanes(p, first, lane, LaneCount(p.size)).Ok?
    ensures StagedLanes(p, first, lane, LaneCount(p.size)).value == LaneStores(p, first, lane)
    decreases LaneCount(p.size) - lane
  {
    if lane < LaneCount(p.size) {
      StagedLanesAreLaneStores(p, first, lane + 1);
    }
  }

  lemma RegisterStagingIsEarly(s: Source, a: ArgumentAbi, p: Parameter, sp: nat, outgoing: nat, m0: Machine)
    requires Accepted(s, a, sp) && Placed(a, outgoing) && Fits(s, a, p, sp + outgoing, m0) && RegisterStaging(a, p).Ok?
    ensures EarlyCode(a, p) == Ok(RegisterStaging(a, p).value)
  {
    if Early(a) && a.class_.Direct? {
      StagedLanesAreLaneStores(p, a.location.value.first, 0);
    }
  }

  lemma {:induction false} RegisterStagingsAreEarly(sources: seq<Source>, abi: seq<ArgumentAbi>, ps: seq<Parameter>, i: nat, sp: nat, outgoing: nat, m0: Machine)
    requires CallFits(sources, abi, ps, sp, outgoing, m0) && i <= |abi| == |ps| && RegisterStagings(abi, ps, i).Ok?
    requires forall k: nat | k < |abi| :: Accepted(sources[k], abi[k], sp)
    ensures EarlyCodes(abi, ps, i) == Ok(RegisterStagings(abi, ps, i).value)
    decreases |abi| - i
  {
    hide Accepted, EarlyCode, RegisterStaging;
    if i < |abi| {
      hide Apart, SourceSheltered, Fits, Separate;
      RegisterStagingIsEarly(sources[i], abi[i], ps[i], sp, outgoing, m0);
      RegisterStagingsAreEarly(sources, abi, ps, i + 1, sp, outgoing, m0);
    }
  }

  // ---------------------------------------------------------------- chunks

  lemma NextChunk(m: Machine, n: Machine, general: set<nat>, to: nat, data: Bytes, offset: nat, w: nat)
    requires offset + w <= |data| && MemoryHolds(m, to, data[..offset])
    requires Changes(m, n, general, FLOAT_SCRATCH, to + offset, to + offset + w)
    requires MemoryHolds(n, to + offset, data[offset..offset + w])
    ensures MemoryHolds(n, to, data[..offset + w])
  {
    OtherRange(m, n, to + offset, to + offset + w, general, to, data[..offset]);
    HoldsJoin(n, to, data[..offset], data[offset..offset + w]);
    assert data[..offset] + data[offset..offset + w] == data[..offset + w];
  }

  lemma HeldPart(m: Machine, address: nat, data: Bytes, offset: nat, w: nat)
    requires MemoryHolds(m, address, data) && offset + w <= |data|
    ensures InMemoryRange(m, address + offset, w) && Slice(m, address + offset, w) == data[offset..offset + w]
  {
    assert Slice(m, address, |data|)[offset..offset + w] == Slice(m, address + offset, w);
  }

  lemma NativeLoad(w: nat, d: nat, address: nat, m: Machine, junk: Junk)
    requires Native(w) && InMemoryRange(m, address, w)
    ensures var n := Step(Load(w, d, address), m, junk);
            n.Done? && General(n.machine, d)[..w] == Slice(m, address, w) && Changes(m, n.machine, {d}, FLOAT_SCRATCH, 0, 0)
  {
    hide Clobbered, Truncated, Slice;
    ClobberedChanges(m, Load(w, d, address), junk);
  }

  lemma NativeStore(w: nat, at: nat, r: nat, m: Machine, junk: Junk)
    requires Native(w) && InMemoryRange(m, at, w)
    ensures var n := Step(Store(w, at, InRegister(r)), m, junk);
            && n.Done? && MemoryHolds(n.machine, at, General(m, r)[..w])
            && Changes(m, n.machine, SCRATCH, FLOAT_SCRATCH, at, at + w)
  {
    hide Step, Changes, MemoryHolds, General;
    GeneralPlace(m, r);
    NativeStoreStep(w, at, InRegister(r), m, junk);
  }

  lemma OneStackChunk(to: nat, from: nat, w: nat, m: Machine, junk: Junk)
    requires Native(w) && InMemoryRange(m, from, w) && InMemoryRange(m, to, w)
    ensures var r := Run([Load(w, 16, from), Store(w, to, InRegister(16))], m, junk);
            && r.Done? && MemoryHolds(r.machine, to, Slice(m, from, w)) && Changes(m, r.machine, SCRATCH, FLOAT_SCRATCH, to, to + w)
  {
    hide Step, General, FloatRegister, Changes, MemoryHolds, Slice, Run, Native;
    var load, store := Load(w, 16, from), Store(w, to, InRegister(16));
    NativeWidth(w);
    NativeLoad(w, 16, from, m, junk);
    var n := Step(load, m, junk).machine;
    SizeIsKept(m, n, {16}, 0, 0);
    NativeStore(w, to, 16, n, junk);
    var q := Step(store, n, junk).machine;
    RunTwo(load, store, m, junk);
    ChangesMore(m, n, {16}, SCRATCH, 0, 0, to, to + w);
    ChangesJoin(m, n, q, SCRATCH, to, to + w, to, to + w, to, to + w);
  }

  lemma NativeWidth(w: nat)
    requires Native(w)
    ensures w <= 8
  {
  }

  lemma ChunksAreNative(remaining: nat)
    requires remaining > 0
    ensures Native(ChunkWidth(remaining)) && ChunkWidth(remaining) <= remaining
  {
  }

  lemma {:induction false} StackChunksCopy(to: nat, from: nat, data: Bytes, offset: nat, m: Machine, junk: Junk)
    requires offset <= |data| && MemoryHolds(m, from, data) && MemoryHolds(m, to, data[..offset])
    requires InMemoryRange(m, to, |data|) && (to + |data| <= from || from + |data| <= to)
    ensures Run(StackChunks(to, from, |data|, offset), m, junk).Done?
    ensures var n := Run(StackChunks(to, from, |data|, offset), m, junk).machine;
            MemoryHolds(n, to, data) && Changes(m, n, SCRATCH, FLOAT_SCRATCH, to, to + |data|)
    decreases |data| - offset
  {
    hide General, FloatRegister, Changes, MemoryHolds, Run, Slice, Native;
    if offset == |data| {
      assert data[..offset] == data;
      NoChanges(m, SCRATCH, to, to + |data|);
      RunNothing(m, junk);
    } else {
      var w := ChunkWidth(|data| - offset);
      ChunksAreNative(|data| - offset);
      var pair, rest := [Load(w, 16, from + offset), Store(w, to + offset, InRegister(16))], StackChunks(to, from, |data|, offset + w);
      HeldPart(m, from, data, offset, w);
      OneStackChunk(to + offset, from + offset, w, m, junk);
      var n := Run(pair, m, junk).machine;
      NextChunk(m, n, SCRATCH, to, data, offset, w);
      OtherRange(m, n, to + offset, to + offset + w, SCRATCH, from, data);
      SizeIsKept(m, n, SCRATCH, to + offset, to + offset + w);
      StackChunksCopy(to, from, data, offset + w, n, junk);
      RunAppended(pair, rest, m, junk);
      ChangesJoin(m, n, Run(rest, n, junk).machine, SCRATCH, to, to + |data|, to + offset, to + offset + w, to, to + |data|);
    }
  }

  /// Registers that chunks through a pointer spoil; the pointer in x0 is not among them.
  const POINTEE_SCRATCH: set<nat> := {1, 2, 3, 16, 17}

  lemma GeneralSet(m: Machine, d: nat, w: Word)
    ensures General(SetGeneral(m, d, w), d) == w && forall r: nat | r != d :: General(SetGeneral(m, d, w), r) == General(m, r)
  {
  }

  lemma LoadThroughStep(w: nat, source: nat, offset: nat, m: Machine, junk: Junk)
    requires General(m, 0) == PointerWord(source) && source < U64_LIMIT && Native(w) && InMemoryRange(m, source + offset, w)
    ensures var n := Step(LoadThrough(w, 16, 0, offset), m, junk);
            && n.Done? && General(n.machine, 16)[..w] == Slice(m, source + offset, w)
            && Changes(m, n.machine, POINTEE_SCRATCH, FLOAT_SCRATCH, 0, 0)
  {
    hide Clobbered, Truncated, Slice, Pointer, PointerWord, General, SetFloating, PlaceWord, FloatWord, WriteMemory;
    PointerReads(source);
    GeneralSet(Clobbered(m, LoadThrough(w, 16, 0, offset), junk), 16, Loaded(m, source + offset, w));
    ClobberedChanges(m, LoadThrough(w, 16, 0, offset), junk);
  }

  lemma OnePointeeChunk(to: nat, source: nat, offset: nat, w: nat, m: Machine, junk: Junk)
    requires General(m, 0) == PointerWord(source) && source < U64_LIMIT
    requires Native(w) && InMemoryRange(m, source + offset, w) && InMemoryRange(m, to, w)
    ensures var r := Run([LoadThrough(w, 16, 0, offset), Store(w, to, InRegister(16))], m, junk);
            && r.Done? && MemoryHolds(r.machine, to, Slice(m, source + offset, w))
            && Changes(m, r.machine, POINTEE_SCRATCH, FLOAT_SCRATCH, to, to + w)
  {
    hide Step, General, FloatRegister, Changes, MemoryHolds, Slice, Run, Native, PointerWord;
    var load, store := LoadThrough(w, 16, 0, offset), Store(w, to, InRegister(16));
    NativeWidth(w);
    LoadThroughStep(w, source, offset, m, junk);
    var n := Step(load, m, junk).machine;
    SizeIsKept(m, n, POINTEE_SCRATCH, 0, 0);
    NativeStore(w, to, 16, n, junk);
    var q := Step(store, n, junk).machine;
    RunTwo(load, store, m, junk);
    ChangesMore(n, q, SCRATCH, POINTEE_SCRATCH, to, to + w, to, to + w);
    ChangesJoin(m, n, q, POINTEE_SCRATCH, to, to + w, 0, 0, to, to + w);
  }

  lemma {:induction false} PointeeChunksCopy(to: nat, source: nat, data: Bytes, offset: nat, m: Machine, junk: Junk)
    requires General(m, 0) == PointerWord(source) && source < U64_LIMIT
    requires offset <= |data| && MemoryHolds(m, source, data) && MemoryHolds(m, to, data[..offset])
    requires InMemoryRange(m, to, |data|) && (to + |data| <= source || source + |data| <= to)
    ensures Run(PointeeChunks(to, 0, |data|, offset), m, junk).Done?
    ensures var n := Run(PointeeChunks(to, 0, |data|, offset), m, junk).machine;
            MemoryHolds(n, to, data) && Changes(m, n, POINTEE_SCRATCH, FLOAT_SCRATCH, to, to + |data|)
    decreases |data| - offset
  {
    hide General, FloatRegister, Changes, MemoryHolds, Run, Slice, Native, PointerWord;
    if offset == |data| {
      assert data[..offset] == data;
      NoChanges(m, POINTEE_SCRATCH, to, to + |data|);
      RunNothing(m, junk);
    } else {
      var w := ChunkWidth(|data| - offset);
      ChunksAreNative(|data| - offset);
      var pair, rest := [LoadThrough(w, 16, 0, offset), Store(w, to + offset, InRegister(16))], PointeeChunks(to, 0, |data|, offset + w);
      HeldPart(m, source, data, offset, w);
      OnePointeeChunk(to + offset, source, offset, w, m, junk);
      var n := Run(pair, m, junk).machine;
      NextChunk(m, n, POINTEE_SCRATCH, to, data, offset, w);
      OtherRange(m, n, to + offset, to + offset + w, POINTEE_SCRATCH, source, data);
      SizeIsKept(m, n, POINTEE_SCRATCH, to + offset, to + offset + w);
      RegisterIsKept(m, n, POINTEE_SCRATCH, to + offset, to + offset + w, 0);
      PointeeChunksCopy(to, source, data, offset + w, n, junk);
      RunAppended(pair, rest, m, junk);
      ChangesJoin(m, n, Run(rest, n, junk).machine, POINTEE_SCRATCH, to, to + |data|, to + offset, to + offset + w, to, to + |data|);
    }
  }

  // ---------------------------------------------------------------- one staging object

  /// The argument, or the pointer to it.
  function StagedBytes(s: Source, a: ArgumentAbi, p: Parameter, above: nat, m0: Machine): Bytes
    requires SourceSheltered(s, above, m0) && Fits(s, a, p, above, m0)
  {
    if a.class_.Indirect? then PointerWord(s.address) else ArgumentBytes(s, a, p, above, m0)
  }

  /// After both staging passes.
  predicate FullyStaged(s: Source, a: ArgumentAbi, p: Parameter, above: nat, m0: Machine, n: Machine)
    requires SourceSheltered(s, above, m0) && Fits(s, a, p, above, m0)
  {
    MemoryHolds(n, p.address, StagedBytes(s, a, p, above, m0))
  }

  lemma {:induction false} WordsHoldArgument(s: Source, a: ArgumentAbi, p: Parameter, from: nat, k: nat, above: nat, m0: Machine, m: Machine)
    requires SourceSheltered(s, above, m0) && Fits(s, a, p, above, m0) && a.class_.Direct? && k <= LaneCount(p.size)
    requires WordsInMemory(s.places, from, above, m0, m) && from <= |m.memory|
    ensures MemoryHolds(m, from, ArgumentBytes(s, a, p, above, m0)[..Prefix(p.size, k)])
  {
    hide PlaceWord, MemoryHolds, ArgumentBytes, Slice;
    var data := ArgumentBytes(s, a, p, above, m0);
    if k == 0 {
      assert data[..Prefix(p.size, 0)] == [];
      EmptyHolds(m, from);
    } else {
      var lane, w := k - 1, LaneWidth(p.size, k - 1);
      WordsHoldArgument(s, a, p, from, lane, above, m0, m);
      assert LaneHolds(m, from, lane, PlaceWord(m0, s.places[lane]));
      HeldPrefix(m, from + 8 * lane, PlaceWord(m0, s.places[lane]), w);
      LaneOfArgument(s, a, p, above, m0, lane);
      SliceHolds(m, from + 8 * lane, w);
      HoldsJoin(m, from, data[..8 * lane], data[8 * lane..8 * lane + w]);
      assert data[..8 * lane] + data[8 * lane..8 * lane + w] == data[..Prefix(p.size, k)];
    }
  }

  lemma SliceHolds(m: Machine, address: nat, w: nat)
    requires InMemoryRange(m, address, w)
    ensures MemoryHolds(m, address, Slice(m, address, w))
  {
  }

  lemma SlotHolds(s: Source, a: ArgumentAbi, p: Parameter, sp: nat, outgoing: nat, m0: Machine, m: Machine)
    requires SourceSheltered(s, sp + outgoing, m0) && Fits(s, a, p, sp + outgoing, m0) && Placed(a, outgoing)
    requires Delivered(s, a, sp, sp + outgoing, m0, m) && a.location.Some? && a.location.value.Slot? && sp + outgoing <= |m.memory|
    requires Accepted(s, a, sp)
    ensures MemoryHolds(m, sp + a.location.value.offset, StagedBytes(s, a, p, sp + outgoing, m0))
  {
    hide General, FloatRegister, PlaceWord, FloatWord, PointerWord, WordsInRegisters, WordsInMemory, MemoryHolds;
    if a.class_.Direct? {
      var data := ArgumentBytes(s, a, p, sp + outgoing, m0);
      hide ArgumentBytes;
      WordsHoldArgument(s, a, p, sp + a.location.value.offset, LaneCount(p.size), sp + outgoing, m0, m);
      assert data[..p.size] == data;
    }
  }

  /// A slot is copied whole: the value, or the pointer to it.
  lemma StackParameterIsStaged(s: Source, a: ArgumentAbi, p: Parameter, sp: nat, outgoing: nat, m0: Machine, m: Machine, junk: Junk)
    requires SourceSheltered(s, sp + outgoing, m0) && Fits(s, a, p, sp + outgoing, m0) && Placed(a, outgoing) && Accepted(s, a, sp)
    requires Pending(s, a, p, sp, sp + outgoing, m0, m) && StackStaging(a, p, sp).Ok?
    requires p.address + p.size <= sp && sp + outgoing <= |m.memory|
    ensures Run(StackStaging(a, p, sp).value, m, junk).Done?
    ensures var n := Run(StackStaging(a, p, sp).value, m, junk).machine;
            FullyStaged(s, a, p, sp + outgoing, m0, n) && Changes(m, n, SCRATCH, FLOAT_SCRATCH, p.address, p.address + p.size)
  {
    hide Step, General, FloatRegister, PlaceWord, FloatWord, Changes, Run, PointerWord, WordsInRegisters, WordsInMemory;
    if Early(a) || a.location.None? {
      assert StackStaging(a, p, sp).value == [];
      RunNothing(m, junk);
      NoChanges(m, SCRATCH, p.address, p.address + p.size);
    } else {
      var from, data := sp + a.location.value.offset, StagedBytes(s, a, p, sp + outgoing, m0);
      StagedSize(s, a, p, sp, outgoing, m0);
      SlotHolds(s, a, p, sp, outgoing, m0, m);
      EmptyHolds(m, p.address);
      assert data[..0] == [];
      hide MemoryHolds, StagedBytes, Fits, SourceSheltered, Delivered, Accepted, Staged;
      StackChunksCopy(p.address, from, data, 0, m, junk);
      ChangesMore(m, Run(StackChunks(p.address, from, |data|, 0), m, junk).machine, SCRATCH, SCRATCH,
                  p.address, p.address + |data|, p.address, p.address + p.size);
    }
  }

  lemma StagedSize(s: Source, a: ArgumentAbi, p: Parameter, sp: nat, outgoing: nat, m0: Machine)
    requires SourceSheltered(s, sp + outgoing, m0) && Fits(s, a, p, sp + outgoing, m0) && Placed(a, outgoing) && Accepted(s, a, sp)
    requires a.location.Some? && a.location.value.Slot? && StackStaging(a, p, sp).Ok?
    ensures var data := StagedBytes(s, a, p, sp + outgoing, m0);
            && |data| <= p.size && |data| <= a.location.value.size
            && StackStaging(a, p, sp).value == StackChunks(p.address, sp + a.location.value.offset, |data|, 0)
  {
    hide ArgumentBytes, PointerWord, StackChunks;
  }

  /// The pointer is replaced by what it points to.
  lemma IndirectParameterCloses(s: Source, a: ArgumentAbi, p: Parameter, sp: nat, outgoing: nat, m0: Machine, m: Machine, junk: Junk)
    requires SourceSheltered(s, sp + outgoing, m0) && Fits(s, a, p, sp + outgoing, m0)
    requires FullyStaged(s, a, p, sp + outgoing, m0, m) && PointeeHolds(s, a, p, sp + outgoing, m0, m)
    requires IndirectClosing(a, p).Ok? && p.address + p.size <= sp && sp + outgoing <= |m.memory|
    ensures Run(IndirectClosing(a, p).value, m, junk).Done?
    ensures var n := Run(IndirectClosing(a, p).value, m, junk).machine;
            Arrived(s, a, p, sp + outgoing, m0, n) && Changes(m, n, LATE_SCRATCH, FLOAT_SCRATCH, p.address, p.address + p.size)
  {
    hide Step, General, FloatRegister, PlaceWord, FloatWord, Changes, Run, PointerWord;
    if !a.class_.Indirect? {
      RunNothing(m, junk);
      NoChanges(m, LATE_SCRATCH, p.address, p.address + p.size);
    } else {
      var load, chunks := Load(WORD_SIZE, 0, p.address), PointeeChunks(p.address, 0, p.size, 0);
      var data := Slice(m0, s.address, p.size);
      NativeLoad(WORD_SIZE, 0, p.address, m, junk);
      var n := Step(load, m, junk).machine;
      assert General(n, 0)[..WORD_SIZE] == General(n, 0);
      SizeIsKept(m, n, {0}, 0, 0);
      OtherRange(m, n, 0, 0, {0}, s.address, data);
      assert data[..0] == [];
      EmptyHolds(n, p.address);
      PointeeChunksCopy(p.address, s.address, data, 0, n, junk);
      var q := Run(chunks, n, junk).machine;
      RunOne(load, m, junk);
      RunAppended([load], chunks, m, junk);
      ChangesMore(m, n, {0}, LATE_SCRATCH, 0, 0, p.address, p.address + p.size);
      ChangesMore(n, q, POINTEE_SCRATCH, LATE_SCRATCH, p.address, p.address + p.size, p.address, p.address + p.size);
      ChangesJoin(m, n, q, LATE_SCRATCH, p.address, p.address + p.size, p.address, p.address + p.size, p.address, p.address + p.size);
    }
  }

  lemma FullyStagedStays(s: Source, a: ArgumentAbi, p: Parameter, q: Parameter, above: nat, m0: Machine, m: Machine, n: Machine)
    requires SourceSheltered(s, above, m0) && Fits(s, a, p, above, m0) && FullyStaged(s, a, p, above, m0, m) && Disjoint(p, q)
    requires Changes(m, n, LATE_SCRATCH, FLOAT_SCRATCH, q.address, q.address + q.size)
    ensures FullyStaged(s, a, p, above, m0, n)
  {
    hide MemoryHolds, PointerWord, ArgumentBytes, Changes;
    var data := if a.class_.Indirect? then PointerWord(s.address) else ArgumentBytes(s, a, p, above, m0);
    OtherRange(m, n, q.address, q.address + q.size, LATE_SCRATCH, p.address, data);
  }

  // ---------------------------------------------------------------- all staging objects

  ghost predicate PointeesHold(sources: seq<Source>, abi: seq<ArgumentAbi>, ps: seq<Parameter>, sp: nat, outgoing: nat, m0: Machine, n: Machine)
    requires CallFits(sources, abi, ps, sp, outgoing, m0)
  {
    forall k: nat | k < |abi| :: PointeeHolds(sources[k], abi[k], ps[k], sp + outgoing, m0, n)
  }

  lemma PointeesStay(sources: seq<Source>, abi: seq<ArgumentAbi>, ps: seq<Parameter>, i: nat, sp: nat, outgoing: nat, m0: Machine, m: Machine, n: Machine)
    requires CallFits(sources, abi, ps, sp, outgoing, m0) && i < |abi| && PointeesHold(sources, abi, ps, sp, outgoing, m0, m)
    requires Changes(m, n, LATE_SCRATCH, FLOAT_SCRATCH, ps[i].address, ps[i].address + ps[i].size)
    ensures PointeesHold(sources, abi, ps, sp, outgoing, m0, n)
  {
    hide PointeeHolds, Changes, SourceSheltered, Fits, Apart, Placed, Disjoint;
    forall k: nat | k < |abi| ensures PointeeHolds(sources[k], abi[k], ps[k], sp + outgoing, m0, n) {
      PointeeStays(sources[k], abi[k], ps[k], ps[i], sp, sp + outgoing, m0, m, n, LATE_SCRATCH);
    }
  }

  ghost predicate StackStaged(sources: seq<Source>, abi: seq<ArgumentAbi>, ps: seq<Parameter>, i: nat, sp: nat, outgoing: nat, m0: Machine, n: Machine)
    requires CallFits(sources, abi, ps, sp, outgoing, m0) && i <= |abi|
  {
    && (forall k: nat | k < i :: FullyStaged(sources[k], abi[k], ps[k], sp + outgoing, m0, n))
    && (forall k: nat | i <= k < |abi| :: Pending(sources[k], abi[k], ps[k], sp, sp + outgoing, m0, n))
  }

  lemma StackStagedGrows(sources: seq<Source>, abi: seq<ArgumentAbi>, ps: seq<Parameter>, i: nat, sp: nat, outgoing: nat, m0: Machine, m: Machine, n: Machine)
    requires CallFits(sources, abi, ps, sp, outgoing, m0) && i < |abi| && StackStaged(sources, abi, ps, i, sp, outgoing, m0, m)
    requires Changes(m, n, LATE_SCRATCH, FLOAT_SCRATCH, ps[i].address, ps[i].address + ps[i].size)
    requires FullyStaged(sources[i], abi[i], ps[i], sp + outgoing, m0, n)
    ensures StackStaged(sources, abi, ps, i + 1, sp, outgoing, m0, n)
  {
    hide FullyStaged, Pending, Changes, SourceSheltered, Fits, Apart, Placed, Disjoint;
    forall k: nat | k < i ensures FullyStaged(sources[k], abi[k], ps[k], sp + outgoing, m0, n) {
      SeparateParameters(ps, sp, k, i);
      FullyStagedStays(sources[k], abi[k], ps[k], ps[i], sp + outgoing, m0, m, n);
    }
    forall k: nat | i + 1 <= k < |abi| ensures Pending(sources[k], abi[k], ps[k], sp, sp + outgoing, m0, n) {
      SeparateParameters(ps, sp, k, i);
      PendingStays(sources[k], abi[k], ps[k], ps[i], sp, outgoing, m0, m, n);
    }
  }

  lemma PendingAt(sources: seq<Source>, abi: seq<ArgumentAbi>, ps: seq<Parameter>, i: nat, sp: nat, outgoing: nat, m0: Machine, n: Machine)
    requires CallFits(sources, abi, ps, sp, outgoing, m0) && i < |abi| && StackStaged(sources, abi, ps, i, sp, outgoing, m0, n)
    ensures Pending(sources[i], abi[i], ps[i], sp, sp + outgoing, m0, n)
  {
  }

  lemma {:induction false} StackPass(sources: seq<Source>, abi: seq<ArgumentAbi>, ps: seq<Parameter>, i: nat, sp: nat, outgoing: nat, m0: Machine, m: Machine, junk: Junk)
    requires CallFits(sources, abi, ps, sp, outgoing, m0) && i <= |abi| == |ps| == |sources| && |m.memory| == |m0.memory|
    requires StackStagings(abi, ps, i, sp).Ok? && forall k: nat | k < |abi| :: Accepted(sources[k], abi[k], sp)
    requires StackStaged(sources, abi, ps, i, sp, outgoing, m0, m) && PointeesHold(sources, abi, ps, sp, outgoing, m0, m)
    ensures Run(StackStagings(abi, ps, i, sp).value, m, junk).Done?
    ensures var n := Run(StackStagings(abi, ps, i, sp).value, m, junk).machine;
            && |n.memory| == |m.memory| && PointeesHold(sources, abi, ps, sp, outgoing, m0, n)
            && StackStaged(sources, abi, ps, |abi|, sp, outgoing, m0, n)
    decreases |abi| - i
  {
    hide CallFits, StackStaged, PointeesHold, StackStaging, Changes, Accepted, Run, Pending, FullyStaged, SourceSheltered, Fits, Placed;
    if i == |abi| {
      RunNothing(m, junk);
    } else {
      var code, rest := StackStaging(abi[i], ps[i], sp).value, StackStagings(abi, ps, i + 1, sp).value;
      OneFits(sources, abi, ps, i, sp, outgoing, m0);
      PendingAt(sources, abi, ps, i, sp, outgoing, m0, m);
      StackParameterIsStaged(sources[i], abi[i], ps[i], sp, outgoing, m0, m, junk);
      var n, lo, hi := Run(code, m, junk).machine, ps[i].address, ps[i].address + ps[i].size;
      SizeIsKept(m, n, SCRATCH, lo, hi);
      ChangesMore(m, n, SCRATCH, LATE_SCRATCH, lo, hi, lo, hi);
      PointeesStay(sources, abi, ps, i, sp, outgoing, m0, m, n);
      StackStagedGrows(sources, abi, ps, i, sp, outgoing, m0, m, n);
      StackPass(sources, abi, ps, i + 1, sp, outgoing, m0, n, junk);
      RunAppended(code, rest, m, junk);
    }
  }

  ghost predicate ClosedUpTo(sources: seq<Source>, abi: seq<ArgumentAbi>, ps: seq<Parameter>, i: nat, sp: nat, outgoing: nat, m0: Machine, n: Machine)
    requires CallFits(sources, abi, ps, sp, outgoing, m0) && i <= |abi|
  {
    && (forall k: nat | k < i :: Arrived(sources[k], abi[k], ps[k], sp + outgoing, m0, n))
    && (forall k: nat | i <= k < |abi| :: FullyStaged(sources[k], abi[k], ps[k], sp + outgoing, m0, n))
  }

  lemma ClosedGrows(sources: seq<Source>, abi: seq<ArgumentAbi>, ps: seq<Parameter>, i: nat, sp: nat, outgoing: nat, m0: Machine, m: Machine, n: Machine)
    requires CallFits(sources, abi, ps, sp, outgoing, m0) && i < |abi| && ClosedUpTo(sources, abi, ps, i, sp, outgoing, m0, m)
    requires Changes(m, n, LATE_SCRATCH, FLOAT_SCRATCH, ps[i].address, ps[i].address + ps[i].size)
    requires Arrived(sources[i], abi[i], ps[i], sp + outgoing, m0, n)
    ensures ClosedUpTo(sources, abi, ps, i + 1, sp, outgoing, m0, n)
  {
    hide FullyStaged, Arrived, Changes, SourceSheltered, Fits, Apart, Placed, Disjoint;
    forall k: nat | k < i ensures Arrived(sources[k], abi[k], ps[k], sp + outgoing, m0, n) {
      SeparateParameters(ps, sp, k, i);
      ArrivedStays(sources[k], abi[k], ps[k], ps[i], sp + outgoing, m0, m, n, LATE_SCRATCH);
    }
    forall k: nat | i + 1 <= k < |abi| ensures FullyStaged(sources[k], abi[k], ps[k], sp + outgoing, m0, n) {
      SeparateParameters(ps, sp, k, i);
      FullyStagedStays(sources[k], abi[k], ps[k], ps[i], sp + outgoing, m0, m, n);
    }
  }

  lemma StagedAt(sources: seq<Source>, abi: seq<ArgumentAbi>, ps: seq<Parameter>, i: nat, sp: nat, outgoing: nat, m0: Machine, n: Machine)
    requires CallFits(sources, abi, ps, sp, outgoing, m0) && i < |abi| && ClosedUpTo(sources, abi, ps, i, sp, outgoing, m0, n)
    requires PointeesHold(sources, abi, ps, sp, outgoing, m0, n)
    ensures FullyStaged(sources[i], abi[i], ps[i], sp + outgoing, m0, n) && PointeeHolds(sources[i], abi[i], ps[i], sp + outgoing, m0, n)
  {
  }

  lemma {:induction false} ClosingPass(sources: seq<Source>, abi: seq<ArgumentAbi>, ps: seq<Parameter>, i: nat, sp: nat, outgoing: nat, m0: Machine, m: Machine, junk: Junk)
    requires CallFits(sources, abi, ps, sp, outgoing, m0) && i <= |abi| == |ps| == |sources| && |m.memory| == |m0.memory|
    requires IndirectClosings(abi, ps, i).Ok?
    requires ClosedUpTo(sources, abi, ps, i, sp, outgoing, m0, m) && PointeesHold(sources, abi, ps, sp, outgoing, m0, m)
    ensures Run(IndirectClosings(abi, ps, i).value, m, junk).Done?
    ensures var n := Run(IndirectClosings(abi, ps, i).value, m, junk).machine;
            |n.memory| == |m.memory| && ClosedUpTo(sources, abi, ps, |abi|, sp, outgoing, m0, n)
    decreases |abi| - i
  {
    hide CallFits, ClosedUpTo, PointeesHold, IndirectClosing, Changes, Run, Arrived, FullyStaged, SourceSheltered, Fits, Placed, PointeeHolds;
    if i == |abi| {
      RunNothing(m, junk);
    } else {
      var code, rest := IndirectClosing(abi[i], ps[i]).value, IndirectClosings(abi, ps, i + 1).value;
      OneFits(sources, abi, ps, i, sp, outgoing, m0);
      StagedAt(sources, abi, ps, i, sp, outgoing, m0, m);
      IndirectParameterCloses(sources[i], abi[i], ps[i], sp, outgoing, m0, m, junk);
      var n := Run(code, m, junk).machine;
      SizeIsKept(m, n, LATE_SCRATCH, ps[i].address, ps[i].address + ps[i].size);
      PointeesStay(sources, abi, ps, i, sp, outgoing, m0, m, n);
      ClosedGrows(sources, abi, ps, i, sp, outgoing, m0, m, n);
      ClosingPass(sources, abi, ps, i + 1, sp, outgoing, m0, n, junk);
      RunAppended(code, rest, m, junk);
    }
  }

  // ---------------------------------------------------------------- the heap frame

  /// The field of the heap frame holds the argument.
  predicate Captured(s: Source, a: ArgumentAbi, p: Parameter, field: Field, heap: nat, above: nat, m0: Machine, n: Machine)
    requires SourceSheltered(s, above, m0) && Fits(s, a, p, above, m0)
  {
    MemoryHolds(n, heap + field.offset, ArgumentBytes(s, a, p, above, m0))
  }

  lemma StoreThroughStep(w: nat, heap: nat, offset: nat, m: Machine, junk: Junk)
    requires General(m, 17) == PointerWord(heap) && heap < U64_LIMIT && Native(w) && InMemoryRange(m, heap + offset, w)
    ensures var n := Step(StoreThrough(w, 17, offset, 16), m, junk);
            && n.Done? && MemoryHolds(n.machine, heap + offset, General(m, 16)[..w])
            && Changes(m, n.machine, POINTEE_SCRATCH, FLOAT_SCRATCH, heap + offset, heap + offset + w)
  {
    hide Clobbered, WriteMemory, Changes, MemoryHolds, Pointer, PointerWord, General;
    var i := StoreThrough(w, 17, offset, 16);
    PointerReads(heap);
    ClobberedChanges(m, i, junk);
    StoreThroughSpoils(w, offset);
    WriteChanges(m, Clobbered(m, i, junk), Clobbers(i), FLOAT_SCRATCH, heap + offset, General(m, 16)[..w]);
    ChangesMore(m, Step(i, m, junk).machine, Clobbers(i), POINTEE_SCRATCH, heap + offset, heap + offset + w, heap + offset, heap + offset + w);
  }

  lemma StoreThroughSpoils(w: nat, offset: nat)
    ensures Clobbers(StoreThrough(w, 17, offset, 16)) <= POINTEE_SCRATCH
  {
  }

  lemma OneHeapChunk(from: nat, mapping: nat, heap: nat, field: nat, w: nat, m: Machine, junk: Junk)
    requires MemoryHolds(m, mapping, PointerWord(heap)) && heap < U64_LIMIT && Native(w)
    requires InMemoryRange(m, from, w) && InMemoryRange(m, heap + field, w)
    ensures var r := Run([Load(w, 16, from), Load(WORD_SIZE, 17, mapping), StoreThrough(w, 17, field, 16)], m, junk);
            && r.Done? && MemoryHolds(r.machine, heap + field, Slice(m, from, w))
            && Changes(m, r.machine, POINTEE_SCRATCH, FLOAT_SCRATCH, heap + field, heap + field + w)
  {
    hide Step, General, FloatRegister, Changes, MemoryHolds, Slice, Run, Native, PointerWord;
    var load, base, store := Load(w, 16, from), Load(WORD_SIZE, 17, mapping), StoreThrough(w, 17, field, 16);
    NativeWidth(w);
    NativeLoad(w, 16, from, m, junk);
    var n := Step(load, m, junk).machine;
    SizeIsKept(m, n, {16}, 0, 0);
    OtherRange(m, n, 0, 0, {16}, mapping, PointerWord(heap));
    HeldPrefix(n, mapping, PointerWord(heap), WORD_SIZE);
    WordIsNative();
    NativeLoad(WORD_SIZE, 17, mapping, n, junk);
    var q := Step(base, n, junk).machine;
    assert General(q, 17)[..WORD_SIZE] == General(q, 17) && PointerWord(heap)[..WORD_SIZE] == PointerWord(heap);
    SizeIsKept(n, q, {17}, 0, 0);
    RegisterIsKept(n, q, {17}, 0, 0, 16);
    StoreThroughStep(w, heap, field, q, junk);
    RunTwo(load, base, m, junk);
    RunOne(store, q, junk);
    RunAppended([load, base], [store], m, junk);
    assert [load, base] + [store] == [load, base, store];
    var lo, hi := heap + field, heap + field + w;
    ChangesMore(m, n, {16}, POINTEE_SCRATCH, 0, 0, lo, hi);
    ChangesMore(n, q, {17}, POINTEE_SCRATCH, 0, 0, lo, hi);
    ChangesJoin(m, n, q, POINTEE_SCRATCH, lo, hi, lo, hi, lo, hi);
    ChangesJoin(m, q, Step(store, q, junk).machine, POINTEE_SCRATCH, lo, hi, lo, hi, lo, hi);
  }

  lemma WordIsNative()
    ensures Native(WORD_SIZE)
  {
  }

  lemma {:induction false} HeapChunksCopy(from: nat, mapping: nat, heap: nat, field: nat, data: Bytes, offset: nat, m: Machine, junk: Junk)
    requires MemoryHolds(m, mapping, PointerWord(heap)) && mapping + WORD_SIZE <= heap < U64_LIMIT && from + |data| <= heap
    requires offset <= |data| && MemoryHolds(m, from, data) && MemoryHolds(m, heap + field, data[..offset])
    requires InMemoryRange(m, heap + field, |data|)
    ensures Run(HeapChunks(from, mapping, field, |data|, offset), m, junk).Done?
    ensures var n := Run(HeapChunks(from, mapping, field, |data|, offset), m, junk).machine;
            MemoryHolds(n, heap + field, data) && Changes(m, n, POINTEE_SCRATCH, FLOAT_SCRATCH, heap + field, heap + field + |data|)
    decreases |data| - offset
  {
    hide General, FloatRegister, Changes, MemoryHolds, Run, Slice, Native, PointerWord;
    var to := heap + field;
    if offset == |data| {
      assert data[..offset] == data;
      NoChanges(m, POINTEE_SCRATCH, to, to + |data|);
      RunNothing(m, junk);
    } else {
      var w := ChunkWidth(|data| - offset);
      ChunksAreNative(|data| - offset);
      var three := [Load(w, 16, from + offset), Load(WORD_SIZE, 17, mapping), StoreThrough(w, 17, field + offset, 16)];
      var rest := HeapChunks(from, mapping, field, |data|, offset + w);
      HeldPart(m, from, data, offset, w);
      OneHeapChunk(from + offset, mapping, heap, field + offset, w, m, junk);
      var n := Run(three, m, junk).machine;
      NextChunk(m, n, POINTEE_SCRATCH, to, data, offset, w);
      OtherRange(m, n, to + offset, to + offset + w, POINTEE_SCRATCH, from, data);
      OtherRange(m, n, to + offset, to + offset + w, POINTEE_SCRATCH, mapping, PointerWord(heap));
      SizeIsKept(m, n, POINTEE_SCRATCH, to + offset, to + offset + w);
      HeapChunksCopy(from, mapping, heap, field, data, offset + w, n, junk);
      RunAppended(three, rest, m, junk);
      ChangesJoin(m, n, Run(rest, n, junk).machine, POINTEE_SCRATCH, to, to + |data|, to + offset, to + offset + w, to, to + |data|);
    }
  }

  /// Fields of the heap frame are in it and apart. The heap frame is apart from the stack below `sp`.
  predicate FieldsSeparate(fields: seq<Field>, heap: nat, size: nat) {
    && (forall i | 0 <= i < |fields| :: fields[i].offset + fields[i].size <= size)
    && (forall i, j | 0 <= i < j < |fields| :: FieldsApart(fields[i], fields[j]))
  }

  predicate FieldsApart(f: Field, g: Field) {
    f.offset + f.size <= g.offset || g.offset + g.size <= f.offset
  }

  /// Staging objects complete, the frame mapped, and captures before `i` done.
  ghost predicate CapturedUpTo(sources: seq<Source>, abi: seq<ArgumentAbi>, ps: seq<Parameter>, fields: seq<Field>, i: nat, sp: nat, outgoing: nat,
                               mapping: nat, heap: nat, m0: Machine, n: Machine)
    requires CallFits(sources, abi, ps, sp, outgoing, m0) && i <= |abi| == |fields|
  {
    && MemoryHolds(n, mapping, PointerWord(heap))
    && (forall k: nat | k < |abi| :: Arrived(sources[k], abi[k], ps[k], sp + outgoing, m0, n))
    && (forall k: nat | k < i :: Captured(sources[k], abi[k], ps[k], fields[k], heap, sp + outgoing, m0, n))
  }

  lemma CapturedGrows(sources: seq<Source>, abi: seq<ArgumentAbi>, ps: seq<Parameter>, fields: seq<Field>, i: nat, sp: nat, outgoing: nat,
                      mapping: nat, heap: nat, size: nat, m0: Machine, m: Machine, n: Machine)
    requires CallFits(sources, abi, ps, sp, outgoing, m0) && i < |abi| == |fields|
    requires CapturedUpTo(sources, abi, ps, fields, i, sp, outgoing, mapping, heap, m0, m)
    requires mapping + WORD_SIZE <= sp <= heap && FieldsSeparate(fields, heap, size)
    requires forall k: nat | k < |abi| :: ps[k].size == fields[k].size
    requires Changes(m, n, POINTEE_SCRATCH, FLOAT_SCRATCH, heap + fields[i].offset, heap + fields[i].offset + fields[i].size)
    requires Captured(sources[i], abi[i], ps[i], fields[i], heap, sp + outgoing, m0, n)
    ensures CapturedUpTo(sources, abi, ps, fields, i + 1, sp, outgoing, mapping, heap, m0, n)
  {
    hide Changes, SourceSheltered, Fits, Apart, Placed, Disjoint, MemoryHolds, ArgumentBytes, PointerWord;
    var lo, hi := heap + fields[i].offset, heap + fields[i].offset + fields[i].size;
    OtherRange(m, n, lo, hi, POINTEE_SCRATCH, mapping, PointerWord(heap));
    forall k: nat | k < |abi| ensures Arrived(sources[k], abi[k], ps[k], sp + outgoing, m0, n) {
      assert Arrived(sources[k], abi[k], ps[k], sp + outgoing, m0, m);
      OtherRange(m, n, lo, hi, POINTEE_SCRATCH, ps[k].address, ArgumentBytes(sources[k], abi[k], ps[k], sp + outgoing, m0));
    }
    forall k: nat | k < i ensures Captured(sources[k], abi[k], ps[k], fields[k], heap, sp + outgoing, m0, n) {
      assert Captured(sources[k], abi[k], ps[k], fields[k], heap, sp + outgoing, m0, m);
      assert FieldsApart(fields[k], fields[i]);
      OtherRange(m, n, lo, hi, POINTEE_SCRATCH, heap + fields[k].offset, ArgumentBytes(sources[k], abi[k], ps[k], sp + outgoing, m0));
    }
  }

  lemma {:induction false} CapturesFit(ps: seq<Parameter>, fields: seq<Field>, i: nat, mapping: nat, k: nat)
    requires i <= k < |ps| == |fields| && Captures(ps, fields, i, mapping).Ok?
    ensures ps[k].size == fields[k].size
    decreases k - i
  {
    if i < k {
      CapturesFit(ps, fields, i + 1, mapping, k);
    }
  }

  lemma {:induction false} CapturePass(sources: seq<Source>, abi: seq<ArgumentAbi>, ps: seq<Parameter>, fields: seq<Field>, i: nat, sp: nat, outgoing: nat,
                                       mapping: nat, heap: nat, size: nat, m0: Machine, m: Machine, junk: Junk)
    requires CallFits(sources, abi, ps, sp, outgoing, m0) && i <= |abi| == |fields| == |ps| == |sources| && Captures(ps, fields, i, mapping).Ok?
    requires CapturedUpTo(sources, abi, ps, fields, i, sp, outgoing, mapping, heap, m0, m)
    requires mapping + WORD_SIZE <= sp <= heap < U64_LIMIT && FieldsSeparate(fields, heap, size) && heap + size <= |m.memory|
    requires forall k: nat | k < |abi| :: ps[k].size == fields[k].size
    ensures Run(Captures(ps, fields, i, mapping).value, m, junk).Done?
    ensures CapturedUpTo(sources, abi, ps, fields, |abi|, sp, outgoing, mapping, heap, m0, Run(Captures(ps, fields, i, mapping).value, m, junk).machine)
    decreases |abi| - i
  {
    hide CallFits, Changes, Run, Arrived, SourceSheltered, Fits, MemoryHolds, PointerWord, ArgumentBytes;
    if i == |abi| {
      RunNothing(m, junk);
    } else {
      var code, rest := CaptureCode(ps[i], fields[i], mapping).value, Captures(ps, fields, i + 1, mapping).value;
      OneFits(sources, abi, ps, i, sp, outgoing, m0);
      var data := ArgumentBytes(sources[i], abi[i], ps[i], sp + outgoing, m0);
      ArrivedHolds(sources[i], abi[i], ps[i], sp + outgoing, m0, m);
      assert data[..0] == [];
      EmptyHolds(m, heap + fields[i].offset);
      HeapChunksCopy(ps[i].address, mapping, heap, fields[i].offset, data, 0, m, junk);
      var n := Run(code, m, junk).machine;
      SizeIsKept(m, n, POINTEE_SCRATCH, heap + fields[i].offset, heap + fields[i].offset + fields[i].size);
      CapturedGrows(sources, abi, ps, fields, i, sp, outgoing, mapping, heap, size, m0, m, n);
      hide CapturedUpTo, FieldsSeparate;
      CapturePass(sources, abi, ps, fields, i + 1, sp, outgoing, mapping, heap, size, m0, n, junk);
      RunAppended(code, rest, m, junk);
    }
  }

  lemma ArrivedHolds(s: Source, a: ArgumentAbi, p: Parameter, above: nat, m0: Machine, n: Machine)
    requires SourceSheltered(s, above, m0) && Fits(s, a, p, above, m0) && Arrived(s, a, p, above, m0, n)
    ensures MemoryHolds(n, p.address, ArgumentBytes(s, a, p, above, m0))
  {
  }

  // ---------------------------------------------------------------- the constructor

  /// Staging leaves every argument's bytes in its staging object, at whatever offset it lies.
  lemma StagingHoldsArguments(sources: seq<Source>, abi: seq<ArgumentAbi>, ps: seq<Parameter>, sp: nat, outgoing: nat, m: Machine, e: Machine, junk: Junk)
    requires CallFits(sources, abi, ps, sp, outgoing, m) && CallCode(sources, abi, 0, sp).Ok? && |abi| == |ps| && StagingCode(abi, ps, sp).Ok?
    requires InFrame(ps, e.sp)
    requires Run(CallCode(sources, abi, 0, sp).value, m, junk).Done?
             ==> Entered(Run(CallCode(sources, abi, 0, sp).value, m, junk).machine, e, sp)
    ensures Run(CallCode(sources, abi, 0, sp).value, m, junk).Done? && Run(StagingCode(abi, ps, sp).value, e, junk).Done?
    ensures var q := Run(StagingCode(abi, ps, sp).value, e, junk).machine;
            |q.memory| == |m.memory| && forall k: nat | k < |abi| :: Arrived(sources[k], abi[k], ps[k], sp + outgoing, m, q)
  {
    hide Run, CallCode, EarlyCodes, RegisterStagings, StackStagings, IndirectClosings, Delivered, Accepted, SourceSheltered, Fits, Arrived, FullyStaged,
         Pending, Entered, AllDelivered, StagedUpTo, PointeesHold;
    ArgumentsAreDelivered(sources, abi, sp, outgoing, m, junk);
    var n := Run(CallCode(sources, abi, 0, sp).value, m, junk).machine;
    forall k: nat | k < |abi| ensures Accepted(sources[k], abi[k], sp) {
      CallAccepts(sources, abi, 0, sp, k);
    }
    AllDeliveredOnEntry(sources, abi, ps, sp, outgoing, m, n, e);
    MemorySize(m, n, e, sp, outgoing);
    NothingStaged(sources, abi, ps, sp, outgoing, m, e);
    RegisterStagingsAreEarly(sources, abi, ps, 0, sp, outgoing, m);
    var early, stack, closing := RegisterStagings(abi, ps, 0).value, StackStagings(abi, ps, 0, sp).value, IndirectClosings(abi, ps, 0).value;
    EarlyPass(sources, abi, ps, 0, sp, outgoing, m, e, junk);
    var x := Run(early, e, junk).machine;
    AllPending(sources, abi, ps, sp, outgoing, m, x);
    PointeesAreHeld(sources, abi, ps, sp, outgoing, m, x);
    StackPass(sources, abi, ps, 0, sp, outgoing, m, x, junk);
    var y := Run(stack, x, junk).machine;
    assert ClosedUpTo(sources, abi, ps, 0, sp, outgoing, m, y);
    ClosingPass(sources, abi, ps, 0, sp, outgoing, m, y, junk);
    RunAppended(early, stack, e, junk);
    RunAppended(early + stack, closing, e, junk);
  }

  lemma PointeesAreHeld(sources: seq<Source>, abi: seq<ArgumentAbi>, ps: seq<Parameter>, sp: nat, outgoing: nat, m0: Machine, n: Machine)
    requires CallFits(sources, abi, ps, sp, outgoing, m0) && AllDelivered(sources, abi, ps, sp, outgoing, m0, n)
    ensures PointeesHold(sources, abi, ps, sp, outgoing, m0, n)
  {
    hide Delivered, PointeeHolds;
  }

  /// What the frame mapping and the header leave alone: the staging objects.
  ghost predicate Mapped(n: Machine, y: Machine, ps: seq<Parameter>, mapping: nat, heap: nat) {
    && |y.memory| == |n.memory| && MemoryHolds(y, mapping, PointerWord(heap))
    && forall k | 0 <= k < |ps| :: forall x: nat | ps[k].address <= x < ps[k].address + ps[k].size && x < |n.memory| :: y.memory[x] == n.memory[x]
  }

  lemma StagedBehindMapping(s: Source, a: ArgumentAbi, ps: seq<Parameter>, k: nat, above: nat, mapping: nat, heap: nat, m0: Machine, n: Machine, y: Machine)
    requires k < |ps| && SourceSheltered(s, above, m0) && Fits(s, a, ps[k], above, m0)
    requires Arrived(s, a, ps[k], above, m0, n) && Mapped(n, y, ps, mapping, heap)
    ensures Arrived(s, a, ps[k], above, m0, y)
  {
    hide PointerWord, ArgumentBytes;
    var p := ps[k];
    assert y.memory[p.address..p.address + p.size] == n.memory[p.address..p.address + p.size];
  }

  /// The constructor captures into the heap frame exactly the bytes that the caller passed.
  lemma ConstructorCapturesArguments(sources: seq<Source>, abi: seq<ArgumentAbi>, ps: seq<Parameter>, fields: seq<Field>, sp: nat, outgoing: nat,
                                     mapping: nat, heap: nat, size: nat, m: Machine, e: Machine, y: Machine, junk: Junk)
    requires CallFits(sources, abi, ps, sp, outgoing, m) && CallCode(sources, abi, 0, sp).Ok? && |abi| == |ps| == |fields|
    requires StagingCode(abi, ps, sp).Ok? && Captures(ps, fields, 0, mapping).Ok? && InFrame(ps, e.sp)
    requires Run(CallCode(sources, abi, 0, sp).value, m, junk).Done?
             ==> Entered(Run(CallCode(sources, abi, 0, sp).value, m, junk).machine, e, sp)
    requires Run(StagingCode(abi, ps, sp).value, e, junk).Done?
             ==> Mapped(Run(StagingCode(abi, ps, sp).value, e, junk).machine, y, ps, mapping, heap)
    requires mapping + WORD_SIZE <= sp <= heap < U64_LIMIT && FieldsSeparate(fields, heap, size) && heap + size <= |m.memory|
    ensures Run(StagingCode(abi, ps, sp).value, e, junk).Done? && Run(Captures(ps, fields, 0, mapping).value, y, junk).Done?
    ensures var z := Run(Captures(ps, fields, 0, mapping).value, y, junk).machine;
            forall k: nat | k < |abi| :: Captured(sources[k], abi[k], ps[k], fields[k], heap, sp + outgoing, m, z)
  {
    hide Run, CallCode, StagingCode, Captures, SourceSheltered, Fits, Arrived, Captured, Entered, FieldsSeparate, PointerWord;
    StagingHoldsArguments(sources, abi, ps, sp, outgoing, m, e, junk);
    var n := Run(StagingCode(abi, ps, sp).value, e, junk).machine;
    forall k: nat | k < |abi| ensures Arrived(sources[k], abi[k], ps[k], sp + outgoing, m, y) && ps[k].size == fields[k].size {
      StagedBehindMapping(sources[k], abi[k], ps, k, sp + outgoing, mapping, heap, m, n, y);
      CapturesFit(ps, fields, 0, mapping, k);
    }
    CapturePass(sources, abi, ps, fields, 0, sp, outgoing, mapping, heap, size, m, y, junk);
  }
}
