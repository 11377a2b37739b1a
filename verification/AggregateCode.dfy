/**
 The two ways to build an aggregate: in its result registers, or in memory with its lanes loaded back.

 Both paths are instruction lists for one small machine. The main lemma runs both from the same state
 and compares the result registers.
 */
module AggregateCode {
  import opened Results
  import opened ByteRanges
  import opened ValuePlan
  import opened AggregatePlan

  // ---------------------------------------------------------------- instructions

  datatype Register = Virtual(index: nat) | Fixed(number: nat)

  /// The register that carries tag bytes.
  const SCRATCH: Register := Fixed(17)

  datatype Copy = Copy(destination: Register, source: Register)

  datatype Instruction =
    | ZeroStack(target: nat, bytes: nat)
    | LoadImmediate(bytes: nat, destination: Register, value: Word)
    | StoreMemory(bytes: nat, target: nat, offset: nat, source: Register)
    | FloatStoreMemory(bytes: nat, target: nat, offset: nat, floatSource: nat)
    | CopyMemoryNonOverlapping(target: nat, offset: nat, sourceObject: nat, bytes: nat)
    | LoadMemory(bytes: nat, destination: Register, target: nat, offset: nat)
    | ParallelCopy(first: Copy, second: Option<Copy>)
    | FloatMoveToGeneral(bytes: nat, destination: Register, floatSource: nat)

  /// Registers are words of eight bytes; frame objects are separate byte ranges.
  datatype Machine = Machine(general: map<Register, Word>, floating: map<nat, Word>, objects: map<nat, Bytes>)

  datatype Outcome = Done(machine: Machine) | Fault

  function Read(m: Machine, r: Register): Word {
    if r in m.general then m.general[r] else ZERO_WORD
  }

  function ReadFloat(m: Machine, f: nat): Word {
    if f in m.floating then m.floating[f] else ZERO_WORD
  }

  function Put(m: Machine, r: Register, w: Word): Machine {
    m.(general := m.general[r := w])
  }

  function WriteObject(m: Machine, target: nat, offset: nat, data: Bytes): Outcome {
    if target !in m.objects || offset + |data| > |m.objects[target]| then Fault
    else Done(m.(objects := m.objects[target := Splice(m.objects[target], offset, data)]))
  }

  function Step(i: Instruction, m: Machine): Outcome {
    match i
    case ZeroStack(target, bytes) => WriteObject(m, target, 0, Zeros(bytes))
    case LoadImmediate(bytes, destination, value) =>
      if bytes > 8 then Fault else Done(Put(m, destination, Truncated(value, bytes)))
    case StoreMemory(bytes, target, offset, source) =>
      if bytes > 8 then Fault else WriteObject(m, target, offset, Read(m, source)[..bytes])
    case FloatStoreMemory(bytes, target, offset, source) =>
      if bytes > 8 then Fault else WriteObject(m, target, offset, ReadFloat(m, source)[..bytes])
    case CopyMemoryNonOverlapping(target, offset, source, bytes) =>
      if source !in m.objects || bytes > |m.objects[source]| || (source == target && offset < bytes) then Fault
      else WriteObject(m, target, offset, m.objects[source][..bytes])
    case LoadMemory(bytes, destination, target, offset) =>
      if bytes > 8 || target !in m.objects || offset + bytes > |m.objects[target]| then Fault
      else Done(Put(m, destination, Truncated(m.objects[target][offset..offset + bytes], bytes)))
    case ParallelCopy(first, second) =>
      var once := Put(m, first.destination, Read(m, first.source));
      Done(if second.None? then once else Put(once, second.value.destination, Read(m, second.value.source)))
    case FloatMoveToGeneral(bytes, destination, source) =>
      if bytes > 8 then Fault else Done(Put(m, destination, Truncated(ReadFloat(m, source), bytes)))
  }

  function Run(code: seq<Instruction>, m: Machine): Outcome
    decreases |code|
  {
    if code == [] then Done(m)
    else
      var next := Step(code[0], m);
      if next.Fault? then Fault else Run(code[1..], next.machine)
  }

  lemma {:induction false} RunAppended(a: seq<Instruction>, b: seq<Instruction>, m: Machine)
    ensures Run(a + b, m) == if Run(a, m).Fault? then Fault else Run(b, Run(a, m).machine)
    decreases |a|
  {
    if a == [] {
      assert a + b == b;
    } else {
      assert (a + b)[0] == a[0] && (a + b)[1..] == a[1..] + b;
      if Step(a[0], m).Done? {
        RunAppended(a[1..], b, Step(a[0], m).machine);
      }
    }
  }

  // ---------------------------------------------------------------- memory stores

  datatype SelectionError =
    | UnknownValue(value: nat)
    | AggregateValueShape(value: nat)
    | AggregateWriteBounds(result: nat)
    | AggregateStorageAlias(result: nat)
    | DirectMemoryWidth(size: nat)
    | MemoryValue(value: nat)
    | MissingDirectMemoryStaging
    | DirectAggregatePlan

  /// One store into the destination: a tag byte, some bytes of a register, or a whole object.
  datatype Piece =
    | TagPiece(offset: nat, byte: Byte)
    | RegisterPiece(offset: nat, register: nat, bytes: nat)
    | FloatPiece(offset: nat, register: nat, bytes: nat)
    | ObjectPiece(offset: nat, origin: nat, bytes: nat)

  function Length(p: Piece): nat {
    if p.TagPiece? then 1 else p.bytes
  }

  predicate Fits(p: Piece, total: nat) {
    p.offset + Length(p) <= total && (p.RegisterPiece? || p.FloatPiece? ==> p.bytes <= 8)
  }

  predicate AllFit(ps: seq<Piece>, total: nat) {
    forall i | 0 <= i < |ps| :: Fits(ps[i], total)
  }

  function PieceCode(p: Piece, target: nat): seq<Instruction> {
    match p
    case TagPiece(offset, byte) =>
      [LoadImmediate(4, SCRATCH, [byte, 0, 0, 0, 0, 0, 0, 0]), StoreMemory(1, target, offset, SCRATCH)]
    case RegisterPiece(offset, register, bytes) => [StoreMemory(bytes, target, offset, Virtual(register))]
    case FloatPiece(offset, register, bytes) => [FloatStoreMemory(bytes, target, offset, register)]
    case ObjectPiece(offset, source, bytes) => [CopyMemoryNonOverlapping(target, offset, source, bytes)]
  }

  function PiecesCode(ps: seq<Piece>, target: nat): seq<Instruction> {
    if ps == [] then [] else PieceCode(ps[0], target) + PiecesCode(ps[1..], target)
  }

  function RegisterPieces(size: nat, offset: nat, registers: seq<nat>): (r: seq<Piece>)
    requires LaneCount(size) == |registers|
    ensures |r| == |registers|
    ensures forall k | 0 <= k < |r| :: r[k] == RegisterPiece(offset + WORD_SIZE * k, registers[k], LaneWidth(size, k))
  {
    seq(|registers|, k requires 0 <= k < |registers| =>
      RegisterPiece(offset + WORD_SIZE * k, registers[k], LaneWidth(size, k)))
  }

  /// The recipe that both paths follow, for a result `result` that memory would build in `object`.
  datatype Scope = Scope(body: Body, total: nat, result: nat, target: nat)

  function StoredSize(body: Body, value: nat): Result<nat, SelectionError> {
    if value >= |body.representations| then Err(UnknownValue(value))
    else if !body.representations[value].Stored? then Err(AggregateValueShape(value))
    else Ok(body.representations[value].size)
  }

  function ValuePieces(s: Scope, offset: nat, value: nat): (r: Result<seq<Piece>, SelectionError>)
    ensures r.Ok? ==> AllFit(r.value, s.total)
  {
    var stored := StoredSize(s.body, value);
    if stored.Err? then Err(stored.error)
    else
      var size := stored.value;
      if offset + size > s.total then Err(AggregateWriteBounds(s.result))
      else if value >= |s.body.storage| then Err(UnknownValue(value))
      else
        match s.body.storage[value]
        case Omitted => if size == 0 then Ok([]) else Err(AggregateValueShape(value))
        case Direct(registers) =>
          if LaneCount(size) == |registers| then Ok(RegisterPieces(size, offset, registers))
          else Err(DirectMemoryWidth(size))
        case Floating(register, bytes) =>
          if bytes == size && (bytes == 4 || bytes == 8) then Ok([FloatPiece(offset, register, bytes)])
          else Err(AggregateValueShape(value))
        case Memory(bytes, home) =>
          if bytes != size then Err(AggregateValueShape(value))
          else if home.None? then Err(MemoryValue(value))
          else if home.value == s.target && offset == 0 then Err(AggregateStorageAlias(s.result))
          else Ok([ObjectPiece(offset, home.value, size)])
  }

  function RepeatedPieces(s: Scope, offset: nat, stride: nat, index: nat, count: nat, value: nat): (r: Result<seq<Piece>, SelectionError>)
    requires index <= count
    ensures r.Ok? ==> AllFit(r.value, s.total)
    decreases count - index
  {
    if index == count then Ok([])
    else if OffsetOverflows(offset, stride, index) then Err(AggregateWriteBounds(s.result))
    else
      var one := ValuePieces(s, index * stride + offset, value);
      if one.Err? then Err(one.error)
      else
        var rest := RepeatedPieces(s, offset, stride, index + 1, count, value);
        if rest.Err? then rest else Ok(one.value + rest.value)
  }

  function WritePieces(s: Scope, w: Write): (r: Result<seq<Piece>, SelectionError>)
    ensures r.Ok? ==> AllFit(r.value, s.total)
  {
    match w
    case Tag(offset, byte) =>
      if offset + 1 > s.total then Err(AggregateWriteBounds(s.result)) else Ok([TagPiece(offset, byte)])
    case Value(offset, value) => ValuePieces(s, offset, value)
    case Repeated(offset, stride, count, value) => RepeatedPieces(s, offset, stride, 0, count, value)
  }

  function AllPieces(s: Scope, ws: seq<Write>): (r: Result<seq<Piece>, SelectionError>)
    ensures r.Ok? ==> AllFit(r.value, s.total)
  {
    if ws == [] then Ok([])
    else
      var one := WritePieces(s, ws[0]);
      if one.Err? then Err(one.error)
      else
        var rest := AllPieces(s, ws[1..]);
        if rest.Err? then rest else Ok(one.value + rest.value)
  }

  // ---------------------------------------------------------------- running the stores

  /// The piece can be read, and reading it does not read the destination.
  predicate Readable(p: Piece, target: nat, m: Machine) {
    p.ObjectPiece? ==> p.origin != target && p.origin in m.objects && p.bytes <= |m.objects[p.origin]|
  }

  predicate AllReadable(ps: seq<Piece>, target: nat, m: Machine) {
    forall i | 0 <= i < |ps| :: Readable(ps[i], target, m)
  }

  function Data(p: Piece, m: Machine): (r: Bytes)
    requires p.RegisterPiece? || p.FloatPiece? ==> p.bytes <= 8
    requires p.ObjectPiece? ==> p.origin in m.objects && p.bytes <= |m.objects[p.origin]|
    ensures |r| == Length(p)
  {
    match p
    case TagPiece(_, byte) => [byte]
    case RegisterPiece(_, register, bytes) => Read(m, Virtual(register))[..bytes]
    case FloatPiece(_, register, bytes) => ReadFloat(m, register)[..bytes]
    case ObjectPiece(_, source, bytes) => m.objects[source][..bytes]
  }

  /// The bytes of the destination after the pieces are stored in order.
  function Image(image: Bytes, ps: seq<Piece>, target: nat, m: Machine): (r: Bytes)
    requires AllFit(ps, |image|) && AllReadable(ps, target, m)
    ensures |r| == |image|
    decreases |ps|
  {
    if ps == [] then image
    else
      assert Fits(ps[0], |image|) && Readable(ps[0], target, m);
      assert forall i | 0 <= i < |ps| - 1 :: ps[1..][i] == ps[i + 1];
      Image(Splice(image, ps[0].offset, Data(ps[0], m)), ps[1..], target, m)
  }

  /// `n` has the inputs of `m`: only the destination object and the scratch register may differ.
  ghost predicate SameInputs(m: Machine, n: Machine, target: nat) {
    && n.floating == m.floating
    && (forall r: nat :: Read(n, Virtual(r)) == Read(m, Virtual(r)))
    && (forall o | o in m.objects && o != target :: o in n.objects && n.objects[o] == m.objects[o])
  }

  lemma StorePiece(p: Piece, target: nat, m: Machine, n: Machine)
    requires SameInputs(m, n, target) && target in n.objects
    requires Fits(p, |n.objects[target]|) && Readable(p, target, m)
    ensures Run(PieceCode(p, target), n).Done?
    ensures SameInputs(m, Run(PieceCode(p, target), n).machine, target)
    ensures target in Run(PieceCode(p, target), n).machine.objects
    ensures Run(PieceCode(p, target), n).machine.objects[target] == Splice(n.objects[target], p.offset, Data(p, m))
  {
    var code := PieceCode(p, target);
    var first := Step(code[0], n);
    if p.TagPiece? {
      assert code[1..] == [code[1]] && code[1..][1..] == [];
      assert Read(first.machine, SCRATCH)[..1] == [p.byte];
      assert Run(code, n) == Run(code[1..], first.machine) == Run([], Step(code[1], first.machine).machine);
    } else {
      assert code[1..] == [];
      assert Run(code, n) == Run([], first.machine);
    }
  }

  /// Stores in order build the image, and touch nothing else that a value is read from.
  lemma {:induction false} StoresBuildTheImage(ps: seq<Piece>, target: nat, m: Machine, n: Machine)
    requires SameInputs(m, n, target) && target in n.objects
    requires AllFit(ps, |n.objects[target]|) && AllReadable(ps, target, m)
    ensures Run(PiecesCode(ps, target), n).Done?
    ensures SameInputs(m, Run(PiecesCode(ps, target), n).machine, target)
    ensures target in Run(PiecesCode(ps, target), n).machine.objects
    ensures Run(PiecesCode(ps, target), n).machine.objects[target] == Image(n.objects[target], ps, target, m)
    decreases |ps|
  {
    if ps != [] {
      assert Fits(ps[0], |n.objects[target]|) && Readable(ps[0], target, m);
      StorePiece(ps[0], target, m, n);
      var next := Run(PieceCode(ps[0], target), n).machine;
      assert forall i | 0 <= i < |ps| - 1 :: ps[1..][i] == ps[i + 1];
      StoresBuildTheImage(ps[1..], target, m, next);
      RunAppended(PieceCode(ps[0], target), PiecesCode(ps[1..], target), n);
    }
  }

  // ---------------------------------------------------------------- lanes against memory

  /// What a finished lane will hold.
  function LaneWord(l: Lane, m: Machine): Word {
    match l.source
    case None => l.immediate
    case Some(General(r)) => Read(m, Virtual(r))
    case Some(Float(f, bytes)) => ReadFloat(m, f)
  }

  predicate Agrees(l: Lane, image: Bytes, total: nat, i: nat, m: Machine)
    requires total <= |image|
  {
    forall b | 0 <= b < 8 && WORD_SIZE * i + b < total :: image[WORD_SIZE * i + b] == LaneWord(l, m)[b]
  }

  /// Every lane has the bytes that memory has at its place.
  predicate Mirrors(lanes: seq<Lane>, image: Bytes, total: nat, m: Machine)
    requires total <= |image|
  {
    forall i | 0 <= i < |lanes| :: Agrees(lanes[i], image, total, i, m)
  }

  function PieceOf(w: LaneWrite, total: nat): Piece
    requires w.lane < LaneCount(total)
  {
    match w
    case TagByte(lane, byte, value) => TagPiece(WORD_SIZE * lane + byte, value)
    case Whole(lane, General(r)) => RegisterPiece(WORD_SIZE * lane, r, LaneWidth(total, lane))
    case Whole(lane, Float(f, _)) => FloatPiece(WORD_SIZE * lane, f, LaneWidth(total, lane))
  }

  lemma LaneStoreMirrors(lanes: seq<Lane>, w: LaneWrite, image: Bytes, total: nat, m: Machine)
    requires ValidLanes(lanes) && Apply(lanes, w).Some? && |lanes| == LaneCount(total) && total <= |image|
    requires Fits(PieceOf(w, total), total) && Mirrors(lanes, image, total, m)
    ensures Mirrors(Apply(lanes, w).value, Splice(image, PieceOf(w, total).offset, Data(PieceOf(w, total), m)), total, m)
  {
    var p, next := PieceOf(w, total), Apply(lanes, w).value;
    var after := Splice(image, p.offset, Data(p, m));
    forall i | 0 <= i < |lanes| ensures Agrees(next[i], after, total, i, m) {
      assert Agrees(lanes[i], image, total, i, m);
      var x, y := LaneWord(lanes[i], m), LaneWord(next[i], m);
      forall b | 0 <= b < 8 && WORD_SIZE * i + b < total ensures after[WORD_SIZE * i + b] == y[b] {
        assert image[WORD_SIZE * i + b] == x[b];
        if i != w.lane || (w.TagByte? && b != w.byte) {
          assert after[WORD_SIZE * i + b] == image[WORD_SIZE * i + b];
          assert x[b] == y[b];
        } else {
          assert after[WORD_SIZE * i + b] == Data(p, m)[WORD_SIZE * i + b - p.offset];
        }
      }
    }
  }

  function PiecesOf(ws: seq<LaneWrite>, total: nat): (r: seq<Piece>)
    requires forall i | 0 <= i < |ws| :: ws[i].lane < LaneCount(total)
    ensures |r| == |ws| && forall i | 0 <= i < |ws| :: r[i] == PieceOf(ws[i], total)
  {
    seq(|ws|, i requires 0 <= i < |ws| => PieceOf(ws[i], total))
  }

  lemma {:induction false} LaneStoresMirror(lanes: seq<Lane>, ws: seq<LaneWrite>, image: Bytes, total: nat, target: nat, m: Machine)
    requires ValidLanes(lanes) && ApplyAll(lanes, ws).Some? && |lanes| == LaneCount(total) && total <= |image|
    requires forall i | 0 <= i < |ws| :: ws[i].lane < LaneCount(total)
    requires AllFit(PiecesOf(ws, total), total) && Mirrors(lanes, image, total, m)
    ensures AllFit(PiecesOf(ws, total), |image|) && AllReadable(PiecesOf(ws, total), target, m)
    ensures Mirrors(ApplyAll(lanes, ws).value, Image(image, PiecesOf(ws, total), target, m), total, m)
    decreases |ws|
  {
    var ps := PiecesOf(ws, total);
    if ws != [] {
      assert Fits(ps[0], total);
      LaneStoreMirrors(lanes, ws[0], image, total, m);
      assert ps[1..] == PiecesOf(ws[1..], total);
      assert forall i | 0 <= i < |ps| - 1 :: ps[1..][i] == ps[i + 1];
      LaneStoresMirror(Apply(lanes, ws[0]).value, ws[1..], Splice(image, ps[0].offset, Data(ps[0], m)), total, target, m);
    }
  }

  lemma {:induction false} ImageAppended(image: Bytes, a: seq<Piece>, b: seq<Piece>, target: nat, m: Machine)
    requires AllFit(a + b, |image|) && AllReadable(a + b, target, m)
    ensures AllFit(a, |image|) && AllReadable(a, target, m) && AllFit(b, |image|) && AllReadable(b, target, m)
    ensures Image(image, a + b, target, m) == Image(Image(image, a, target, m), b, target, m)
    decreases |a|
  {
    assert forall i | 0 <= i < |a| :: (a + b)[i] == a[i];
    assert forall i | 0 <= i < |b| :: (a + b)[|a| + i] == b[i];
    if a == [] {
      assert a + b == b;
    } else {
      assert Fits((a + b)[0], |image|) && Readable((a + b)[0], target, m);
      assert (a + b)[1..] == a[1..] + b;
      assert forall i | 0 <= i < |a + b| - 1 :: (a + b)[1..][i] == (a + b)[i + 1];
      ImageAppended(Splice(image, a[0].offset, Data(a[0], m)), a[1..], b, target, m);
    }
  }

  predicate Within(p: Piece, k: nat) {
    p.offset <= k < p.offset + Length(p)
  }

  lemma {:induction false} UncoveredByteStays(image: Bytes, ps: seq<Piece>, target: nat, m: Machine, k: nat)
    requires AllFit(ps, |image|) && AllReadable(ps, target, m) && k < |image|
    requires forall i | 0 <= i < |ps| :: !Within(ps[i], k)
    ensures Image(image, ps, target, m)[k] == image[k]
    decreases |ps|
  {
    if ps != [] {
      assert Fits(ps[0], |image|) && Readable(ps[0], target, m) && !Within(ps[0], k);
      assert forall i | 0 <= i < |ps| - 1 :: ps[1..][i] == ps[i + 1];
      UncoveredByteStays(Splice(image, ps[0].offset, Data(ps[0], m)), ps[1..], target, m, k);
    }
  }

  lemma ImageUnfolds(image: Bytes, ps: seq<Piece>, target: nat, m: Machine)
    requires ps != [] && AllFit(ps, |image|) && AllReadable(ps, target, m)
    ensures Fits(ps[0], |image|) && Readable(ps[0], target, m)
    ensures AllFit(ps[1..], |image|) && AllReadable(ps[1..], target, m)
    ensures Image(image, ps, target, m) == Image(Splice(image, ps[0].offset, Data(ps[0], m)), ps[1..], target, m)
  {
    hide Splice, Data;
    assert Fits(ps[0], |image|) && Readable(ps[0], target, m);
    assert forall i | 0 <= i < |ps| - 1 :: ps[1..][i] == ps[i + 1];
  }

  lemma StoredByte(image: Bytes, p: Piece, target: nat, m: Machine, k: nat)
    requires Fits(p, |image|) && Readable(p, target, m) && Within(p, k)
    ensures k < |image| && Splice(image, p.offset, Data(p, m))[k] == Data(p, m)[k - p.offset]
  {
  }

  /// Each byte of the destination comes from the last piece that covers it.
  lemma {:induction false} LastStoreWins(image: Bytes, ps: seq<Piece>, target: nat, m: Machine, i: nat, k: nat)
    requires AllFit(ps, |image|) && AllReadable(ps, target, m) && k < |image| && i < |ps|
    requires Within(ps[i], k) && forall j | i < j < |ps| :: !Within(ps[j], k)
    ensures Fits(ps[i], |image|) && Readable(ps[i], target, m)
    ensures Image(image, ps, target, m)[k] == Data(ps[i], m)[k - ps[i].offset]
    decreases i
  {
    ImageUnfolds(image, ps, target, m);
    assert forall j | 0 <= j < |ps| - 1 :: ps[1..][j] == ps[j + 1];
    hide Image, Splice, Data, Fits, Readable;
    var after := Splice(image, ps[0].offset, Data(ps[0], m));
    if i == 0 {
      StoredByte(image, ps[0], target, m, k);
      UncoveredByteStays(after, ps[1..], target, m, k);
    } else {
      LastStoreWins(after, ps[1..], target, m, i - 1, k);
    }
  }
}
