/**
 Selection of an aggregate, and the proof that its two forms agree.
 */
module AggregateSelection {
  import opened Results
  import opened ByteRanges
  import opened ValuePlan
  import opened AggregatePlan
  import opened AggregateCode

  // ---------------------------------------------------------------- recipes as stores

  /// The stores of a value with bytes are its lane writes, one for one.
  lemma ValuePiecesAreLaneWrites(s: Scope, offset: nat, value: nat)
    requires ValueWrites(s.body, s.total, offset, value).Some? && ValuePieces(s, offset, value).Ok?
    requires s.body.representations[value].size != 0
    ensures forall w | w in ValueWrites(s.body, s.total, offset, value).value :: w.lane < LaneCount(s.total)
    ensures ValuePieces(s, offset, value).value == PiecesOf(ValueWrites(s.body, s.total, offset, value).value, s.total)
  {
    var ws, ps := ValueWrites(s.body, s.total, offset, value).value, ValuePieces(s, offset, value).value;
    var first := offset / WORD_SIZE;
    assert offset == WORD_SIZE * first;
    if s.body.storage[value].Direct? {
      forall k | 0 <= k < |ws| ensures ws[k].lane < LaneCount(s.total) && ps[k] == PieceOf(ws[k], s.total) {
      }
    }
  }

  lemma ValueMirrors(s: Scope, offset: nat, value: nat, lanes: seq<Lane>, image: Bytes, m: Machine)
    requires ValueWrites(s.body, s.total, offset, value).Some? && ValuePieces(s, offset, value).Ok?
    requires ValidLanes(lanes) && ApplyAll(lanes, ValueWrites(s.body, s.total, offset, value).value).Some?
    requires |lanes| == LaneCount(s.total) && s.total <= |image| && Mirrors(lanes, image, s.total, m)
    requires AllReadable(ValuePieces(s, offset, value).value, s.target, m)
    ensures AllFit(ValuePieces(s, offset, value).value, |image|)
    ensures Mirrors(ApplyAll(lanes, ValueWrites(s.body, s.total, offset, value).value).value,
                    Image(image, ValuePieces(s, offset, value).value, s.target, m), s.total, m)
  {
    var ws, ps := ValueWrites(s.body, s.total, offset, value).value, ValuePieces(s, offset, value).value;
    if s.body.representations[value].size == 0 {
      EmptyPieces(ps, image, s.target, m);
    } else {
      ValuePiecesAreLaneWrites(s, offset, value);
      hide ValuePieces, ValueWrites, Mirrors, ApplyAll, Image;
      LaneStoresMirror(lanes, ws, image, s.total, s.target, m);
    }
  }

  lemma EmptyPieces(ps: seq<Piece>, image: Bytes, target: nat, m: Machine)
    requires |ps| <= 1 && (forall p | p in ps :: Length(p) == 0)
    requires AllFit(ps, |image|) && AllReadable(ps, target, m)
    ensures Image(image, ps, target, m) == image
  {
    if ps != [] {
      assert Fits(ps[0], |image|) && Readable(ps[0], target, m);
      assert Length(ps[0]) == 0;
      assert Splice(image, ps[0].offset, Data(ps[0], m)) == image;
      assert ps[1..] == [];
    }
  }

  /// One group of writes after another.
  lemma MirrorsJoin(s: Scope, lanes: seq<Lane>, u: seq<LaneWrite>, v: seq<LaneWrite>, a: seq<Piece>, b: seq<Piece>, image: Bytes, m: Machine)
    requires ValidLanes(lanes) && ApplyAll(lanes, u + v).Some? && AllFit(a + b, |image|) && AllReadable(a + b, s.target, m)
    requires s.total <= |image| && |lanes| == LaneCount(s.total)
    ensures ApplyAll(lanes, u).Some? && ApplyAll(ApplyAll(lanes, u).value, v) == ApplyAll(lanes, u + v)
    ensures AllFit(a, |image|) && AllReadable(a, s.target, m) && AllFit(b, |image|) && AllReadable(b, s.target, m)
    ensures Image(image, a + b, s.target, m) == Image(Image(image, a, s.target, m), b, s.target, m)
  {
    ApplyAppended(lanes, u, v);
    ImageAppended(image, a, b, s.target, m);
  }

  lemma {:induction false} RepeatedMirrors(s: Scope, offset: nat, stride: nat, index: nat, count: nat, value: nat,
                                           lanes: seq<Lane>, image: Bytes, m: Machine)
    requires index <= count
    requires RepeatedWrites(s.body, s.total, offset, stride, index, count, value).Some?
    requires RepeatedPieces(s, offset, stride, index, count, value).Ok?
    requires ValidLanes(lanes) && ApplyAll(lanes, RepeatedWrites(s.body, s.total, offset, stride, index, count, value).value).Some?
    requires |lanes| == LaneCount(s.total) && s.total <= |image| && Mirrors(lanes, image, s.total, m)
    requires AllReadable(RepeatedPieces(s, offset, stride, index, count, value).value, s.target, m)
    ensures AllFit(RepeatedPieces(s, offset, stride, index, count, value).value, |image|)
    ensures Mirrors(ApplyAll(lanes, RepeatedWrites(s.body, s.total, offset, stride, index, count, value).value).value,
                    Image(image, RepeatedPieces(s, offset, stride, index, count, value).value, s.target, m), s.total, m)
    decreases count - index
  {
    hide Mirrors, ValueWrites, ValuePieces, ApplyAll, Image;
    if index == count {
      ApplyNothing(lanes, image, s.target, m);
    } else {
      var u := ValueWrites(s.body, s.total, index * stride + offset, value).value;
      var v := RepeatedWrites(s.body, s.total, offset, stride, index + 1, count, value).value;
      var a, b := ValuePieces(s, index * stride + offset, value).value, RepeatedPieces(s, offset, stride, index + 1, count, value).value;
      MirrorsJoin(s, lanes, u, v, a, b, image, m);
      ValueMirrors(s, index * stride + offset, value, lanes, image, m);
      RepeatedMirrors(s, offset, stride, index + 1, count, value, ApplyAll(lanes, u).value, Image(image, a, s.target, m), m);
    }
  }

  lemma ApplyNothing(lanes: seq<Lane>, image: Bytes, target: nat, m: Machine)
    requires ValidLanes(lanes)
    ensures ApplyAll(lanes, []) == Some(lanes) && Image(image, [], target, m) == image
  {
  }

  lemma WriteMirrors(s: Scope, w: Write, lanes: seq<Lane>, image: Bytes, m: Machine)
    requires LaneWrites(s.body, s.total, w).Some? && WritePieces(s, w).Ok?
    requires ValidLanes(lanes) && ApplyAll(lanes, LaneWrites(s.body, s.total, w).value).Some?
    requires |lanes| == LaneCount(s.total) && s.total <= |image| && Mirrors(lanes, image, s.total, m)
    requires AllReadable(WritePieces(s, w).value, s.target, m)
    ensures AllFit(WritePieces(s, w).value, |image|)
    ensures Mirrors(ApplyAll(lanes, LaneWrites(s.body, s.total, w).value).value,
                    Image(image, WritePieces(s, w).value, s.target, m), s.total, m)
  {
    hide Mirrors, ValueWrites, ValuePieces, ApplyAll, Image, RepeatedWrites, RepeatedPieces;
    match w
    case Tag(offset, byte) =>
      var ws := [TagByte(offset / WORD_SIZE, offset % WORD_SIZE, byte)];
      assert WritePieces(s, w).value == PiecesOf(ws, s.total);
      LaneStoresMirror(lanes, ws, image, s.total, s.target, m);
    case Value(offset, value) =>
      ValueMirrors(s, offset, value, lanes, image, m);
    case Repeated(offset, stride, count, value) =>
      RepeatedMirrors(s, offset, stride, 0, count, value, lanes, image, m);
  }

  lemma {:induction false} WritesMirror(s: Scope, ws: seq<Write>, lanes: seq<Lane>, image: Bytes, m: Machine)
    requires AllLaneWrites(s.body, s.total, ws).Some? && AllPieces(s, ws).Ok?
    requires ValidLanes(lanes) && ApplyAll(lanes, AllLaneWrites(s.body, s.total, ws).value).Some?
    requires |lanes| == LaneCount(s.total) && s.total <= |image| && Mirrors(lanes, image, s.total, m)
    requires AllReadable(AllPieces(s, ws).value, s.target, m)
    ensures AllFit(AllPieces(s, ws).value, |image|)
    ensures Mirrors(ApplyAll(lanes, AllLaneWrites(s.body, s.total, ws).value).value,
                    Image(image, AllPieces(s, ws).value, s.target, m), s.total, m)
  {
    hide Mirrors, LaneWrites, WritePieces, ApplyAll, Image;
    if ws == [] {
      ApplyNothing(lanes, image, s.target, m);
    } else {
      var u, v := LaneWrites(s.body, s.total, ws[0]).value, AllLaneWrites(s.body, s.total, ws[1..]).value;
      var a, b := WritePieces(s, ws[0]).value, AllPieces(s, ws[1..]).value;
      MirrorsJoin(s, lanes, u, v, a, b, image, m);
      WriteMirrors(s, ws[0], lanes, image, m);
      WritesMirror(s, ws[1..], ApplyAll(lanes, u).value, Image(image, a, s.target, m), m);
    }
  }

  // ---------------------------------------------------------------- when memory accepts a planned recipe

  /// What a plan does not look at: an empty value must still be in bounds and storable, and the width
  /// of a floating value must be its size.
  predicate Storable(s: Scope, offset: nat, value: nat) {
    && value < |s.body.representations| && s.body.representations[value].Stored? && value < |s.body.storage|
    && var size := s.body.representations[value].size;
       match s.body.storage[value]
       case Omitted => offset <= s.total
       case Direct(registers) => size == 0 ==> offset <= s.total && registers == []
       case Floating(_, bytes) => bytes == size && (bytes == 4 || bytes == 8)
       case Memory(bytes, home) => offset <= s.total && bytes == size && home.Some? && !(home.value == s.target && offset == 0)
  }

  predicate StorableAt(s: Scope, offset: nat, stride: nat, index: nat, value: nat) {
    Storable(s, index * stride + offset, value)
  }

  predicate WriteStorable(s: Scope, w: Write) {
    match w
    case Tag(_, _) => true
    case Value(offset, value) => Storable(s, offset, value)
    case Repeated(offset, stride, count, value) => forall index | 0 <= index < count :: StorableAt(s, offset, stride, index, value)
  }

  lemma ValueAccepted(s: Scope, offset: nat, value: nat)
    requires ValueWrites(s.body, s.total, offset, value).Some?
    ensures ValuePieces(s, offset, value).Ok? <==> Storable(s, offset, value)
  {
  }

  lemma {:induction false} RepeatedAccepted(s: Scope, offset: nat, stride: nat, index: nat, count: nat, value: nat)
    requires index <= count && RepeatedWrites(s.body, s.total, offset, stride, index, count, value).Some?
    ensures RepeatedPieces(s, offset, stride, index, count, value).Ok? <==>
            forall i | index <= i < count :: StorableAt(s, offset, stride, i, value)
    decreases count - index
  {
    if index < count {
      ValueAccepted(s, index * stride + offset, value);
      assert StorableAt(s, offset, stride, index, value) <==> Storable(s, index * stride + offset, value);
      RepeatedAccepted(s, offset, stride, index + 1, count, value);
    }
  }

  /// A recipe that has a plan is accepted by the memory path exactly when its writes are storable.
  lemma {:induction false} PlannedWritesAreAccepted(s: Scope, ws: seq<Write>)
    requires AllLaneWrites(s.body, s.total, ws).Some?
    ensures AllPieces(s, ws).Ok? <==> forall i | 0 <= i < |ws| :: WriteStorable(s, ws[i])
  {
    if ws != [] {
      match ws[0] {
        case Tag(_, _) =>
        case Value(offset, value) => ValueAccepted(s, offset, value);
        case Repeated(offset, stride, count, value) => RepeatedAccepted(s, offset, stride, 0, count, value);
      }
      assert WritePieces(s, ws[0]).Ok? <==> WriteStorable(s, ws[0]);
      PlannedWritesAreAccepted(s, ws[1..]);
      assert forall i | 0 <= i < |ws| - 1 :: ws[1..][i] == ws[i + 1];
      assert forall i | 0 < i < |ws| :: ws[i] == ws[1..][i - 1];
    }
  }

  /// An empty value behind the end: the plan accepts it and the memory path does not.
  lemma PlanAcceptsAnEmptyValueOutOfBounds()
    ensures var body := Body([Stored(8, 8), Stored(0, 1)], [Direct([0]), Omitted]);
            var a := Aggregate(8, 8, [Value(9, 1)]);
            Plan(body, a, 1).Some? && AllPieces(Scope(body, 8, 0, 0), a.writes) == Err(AggregateWriteBounds(0))
  {
    var body := Body([Stored(8, 8), Stored(0, 1)], [Direct([0]), Omitted]);
    var ws := [Value(9, 1)];
    assert body.representations[1] == Stored(0, 1);
    assert LaneWrites(body, 8, ws[0]) == Some([]);
    assert AllLaneWrites(body, 8, ws[1..]) == Some([]);
  }

  // ---------------------------------------------------------------- the register path

  predicate FromGeneral(l: Lane) {
    l.source.Some? && l.source.value.General?
  }

  function LaneCopy(destinations: seq<nat>, lanes: seq<Lane>, i: nat): Copy
    requires i < |lanes| == |destinations| && FromGeneral(lanes[i])
  {
    Copy(Virtual(destinations[i]), Virtual(lanes[i].source.value.register))
  }

  /// Lanes that come from general registers, from lane `i` on.
  function GeneralCopies(destinations: seq<nat>, lanes: seq<Lane>, i: nat): seq<Copy>
    requires i <= |lanes| == |destinations|
    decreases |lanes| - i
  {
    if i == |lanes| then []
    else if FromGeneral(lanes[i]) then
      [LaneCopy(destinations, lanes, i)] + GeneralCopies(destinations, lanes, i + 1)
    else GeneralCopies(destinations, lanes, i + 1)
  }

  function DataBytes(width: nat): nat {
    if width <= 4 then 4 else 8
  }

  function DeferredInstruction(destinations: seq<nat>, lanes: seq<Lane>, total: nat, i: nat): Instruction
    requires i < |lanes| == |destinations| == LaneCount(total) && !FromGeneral(lanes[i])
  {
    var bytes := DataBytes(LaneWidth(total, i));
    if lanes[i].source.None? then LoadImmediate(bytes, Virtual(destinations[i]), lanes[i].immediate)
    else FloatMoveToGeneral(bytes, Virtual(destinations[i]), lanes[i].source.value.register)
  }

  /// The other lanes, from lane `i` on.
  function Deferred(destinations: seq<nat>, lanes: seq<Lane>, total: nat, i: nat): seq<Instruction>
    requires i <= |lanes| == |destinations| == LaneCount(total)
    decreases |lanes| - i
  {
    if i == |lanes| then []
    else if FromGeneral(lanes[i]) then Deferred(destinations, lanes, total, i + 1)
    else [DeferredInstruction(destinations, lanes, total, i)] + Deferred(destinations, lanes, total, i + 1)
  }

  /// A floating lane is as wide as its value.
  predicate FloatsMatch(lanes: seq<Lane>, total: nat)
    requires |lanes| == LaneCount(total)
  {
    forall i | 0 <= i < |lanes| :: lanes[i].source.Some? && lanes[i].source.value.Float? ==> lanes[i].source.value.bytes == LaneWidth(total, i)
  }

  function CopyCode(copies: seq<Copy>): seq<Instruction>
    requires |copies| <= 2
  {
    if |copies| == 0 then []
    else if |copies| == 1 then [ParallelCopy(copies[0], None)]
    else [ParallelCopy(copies[0], Some(copies[1]))]
  }

  function DirectCode(destinations: seq<nat>, lanes: seq<Lane>, total: nat): Result<seq<Instruction>, SelectionError>
    requires |lanes| == LaneCount(total)
  {
    if |destinations| != |lanes| || !FloatsMatch(lanes, total) || |GeneralCopies(destinations, lanes, 0)| > 2
    then Err(DirectAggregatePlan)
    else Ok(CopyCode(GeneralCopies(destinations, lanes, 0)) + Deferred(destinations, lanes, total, 0))
  }

  predicate Distinct(s: seq<nat>) {
    forall i, j | 0 <= i < j < |s| :: s[i] != s[j]
  }

  lemma {:induction false} LaneIsCopied(destinations: seq<nat>, lanes: seq<Lane>, i: nat, j: nat)
    requires i <= j < |lanes| == |destinations| && FromGeneral(lanes[j])
    ensures LaneCopy(destinations, lanes, j) in GeneralCopies(destinations, lanes, i)
    decreases j - i
  {
    if i < j {
      LaneIsCopied(destinations, lanes, i + 1, j);
    }
  }

  lemma {:induction false} CopyHasALane(destinations: seq<nat>, lanes: seq<Lane>, i: nat, c: Copy) returns (j: nat)
    requires i <= |lanes| == |destinations| && c in GeneralCopies(destinations, lanes, i)
    ensures i <= j < |lanes| && FromGeneral(lanes[j]) && c == LaneCopy(destinations, lanes, j)
    decreases |lanes| - i
  {
    j := i;
    if !(FromGeneral(lanes[i]) && c == LaneCopy(destinations, lanes, i)) {
      j := CopyHasALane(destinations, lanes, i + 1, c);
    }
  }

  lemma RunOne(i: Instruction, m: Machine)
    ensures Run([i], m) == Step(i, m)
  {
    assert [i][1..] == [];
  }

  /// One instruction reads all copied sources before it writes: a destination may be a later source.
  lemma CopiesHappenTogether(destinations: seq<nat>, lanes: seq<Lane>, m: Machine)
    requires |lanes| == |destinations| && Distinct(destinations) && |GeneralCopies(destinations, lanes, 0)| <= 2
    ensures Run(CopyCode(GeneralCopies(destinations, lanes, 0)), m).Done?
    ensures var n := Run(CopyCode(GeneralCopies(destinations, lanes, 0)), m).machine;
            && n.floating == m.floating && n.objects == m.objects
            && (forall j | 0 <= j < |lanes| && FromGeneral(lanes[j]) :: Read(n, Virtual(destinations[j])) == LaneWord(lanes[j], m))
  {
    var cs := GeneralCopies(destinations, lanes, 0);
    var code := CopyCode(cs);
    if cs != [] {
      RunOne(code[0], m);
    }
    var n := Run(code, m).machine;
    forall j | 0 <= j < |lanes| && FromGeneral(lanes[j]) ensures Read(n, Virtual(destinations[j])) == LaneWord(lanes[j], m) {
      var c := LaneCopy(destinations, lanes, j);
      LaneIsCopied(destinations, lanes, 0, j);
      if |cs| == 2 {
        var x := CopyHasALane(destinations, lanes, 0, cs[1]);
        assert cs[1].destination == c.destination ==> x == j;
      }
    }
  }

  lemma DeferredLane(destinations: seq<nat>, lanes: seq<Lane>, total: nat, i: nat, n: Machine)
    requires i < |lanes| == |destinations| == LaneCount(total) && !FromGeneral(lanes[i]) && Distinct(destinations)
    ensures var o := Step(DeferredInstruction(destinations, lanes, total, i), n);
            && o.Done? && o.machine.objects == n.objects && o.machine.floating == n.floating
            && (forall j | 0 <= j < |destinations| && j != i :: Read(o.machine, Virtual(destinations[j])) == Read(n, Virtual(destinations[j])))
            && Read(o.machine, Virtual(destinations[i])) == Truncated(LaneWord(lanes[i], n), DataBytes(LaneWidth(total, i)))
            && (forall j | 0 <= j < |lanes| && !FromGeneral(lanes[j]) :: LaneWord(lanes[j], o.machine) == LaneWord(lanes[j], n))
  {
  }

  /// Each deferred instruction writes its own lane; none reads a general register.
  lemma {:induction false} DeferredLanesFollow(destinations: seq<nat>, lanes: seq<Lane>, total: nat, i: nat, n: Machine)
    requires i <= |lanes| == |destinations| == LaneCount(total) && Distinct(destinations)
    ensures Run(Deferred(destinations, lanes, total, i), n).Done?
    ensures var o := Run(Deferred(destinations, lanes, total, i), n).machine;
            && o.objects == n.objects && o.floating == n.floating
            && (forall j | 0 <= j < |lanes| && (j < i || FromGeneral(lanes[j])) :: Read(o, Virtual(destinations[j])) == Read(n, Virtual(destinations[j])))
            && (forall j | i <= j < |lanes| && !FromGeneral(lanes[j]) ::
                  Read(o, Virtual(destinations[j])) == Truncated(LaneWord(lanes[j], n), DataBytes(LaneWidth(total, j))))
    decreases |lanes| - i
  {
    if i < |lanes| {
      if FromGeneral(lanes[i]) {
        DeferredLanesFollow(destinations, lanes, total, i + 1, n);
      } else {
        DeferredLane(destinations, lanes, total, i, n);
        hide Step, Truncated, Read, LaneWord, DeferredInstruction, DataBytes, LaneWidth;
        var next := Step(Deferred(destinations, lanes, total, i)[0], n).machine;
        DeferredLanesFollow(destinations, lanes, total, i + 1, next);
      }
    }
  }

  /// Each result register holds its lane, up to the bytes that the aggregate has there.
  lemma DirectCodeFillsTheLanes(destinations: seq<nat>, lanes: seq<Lane>, total: nat, m: Machine)
    requires |lanes| == LaneCount(total) && ValidLanes(lanes) && Distinct(destinations)
    requires DirectCode(destinations, lanes, total).Ok?
    ensures Run(DirectCode(destinations, lanes, total).value, m).Done?
    ensures var n := Run(DirectCode(destinations, lanes, total).value, m).machine;
            && n.objects == m.objects
            && forall j | 0 <= j < |lanes| ::
                 Read(n, Virtual(destinations[j]))[..LaneWidth(total, j)] == LaneWord(lanes[j], m)[..LaneWidth(total, j)]
  {
    CopiesHappenTogether(destinations, lanes, m);
    var copies, deferred := CopyCode(GeneralCopies(destinations, lanes, 0)), Deferred(destinations, lanes, total, 0);
    var n := Run(copies, m).machine;
    DeferredLanesFollow(destinations, lanes, total, 0, n);
    RunAppended(copies, deferred, m);
    var o := Run(deferred, n).machine;
    forall j | 0 <= j < |lanes|
      ensures Read(o, Virtual(destinations[j]))[..LaneWidth(total, j)] == LaneWord(lanes[j], m)[..LaneWidth(total, j)]
    {
      if !FromGeneral(lanes[j]) {
        assert LaneWord(lanes[j], n) == LaneWord(lanes[j], m);
        var w, bytes := LaneWord(lanes[j], n), DataBytes(LaneWidth(total, j));
        assert Truncated(w, bytes)[..LaneWidth(total, j)] == Truncated(w, bytes)[..bytes][..LaneWidth(total, j)];
      }
    }
  }

  // ---------------------------------------------------------------- the memory path

  /// Loads the lanes back, from lane `i` on.
  function Loads(destinations: seq<nat>, total: nat, target: nat, i: nat): seq<Instruction>
    requires i <= |destinations| == LaneCount(total)
    decreases |destinations| - i
  {
    if i == |destinations| then []
    else [LoadMemory(LaneWidth(total, i), Virtual(destinations[i]), target, WORD_SIZE * i)] + Loads(destinations, total, target, i + 1)
  }

  /// Zero-fills the destination and stores the members in order.
  function StoreCode(s: Scope, ws: seq<Write>): Result<seq<Instruction>, SelectionError> {
    var ps := AllPieces(s, ws);
    if ps.Err? then Err(ps.error) else Ok([ZeroStack(s.target, s.total)] + PiecesCode(ps.value, s.target))
  }

  function MemoryCode(s: Scope, ws: seq<Write>, destinations: seq<nat>): Result<seq<Instruction>, SelectionError> {
    var stores := StoreCode(s, ws);
    if stores.Err? then stores
    else if LaneCount(s.total) != |destinations| then Err(DirectMemoryWidth(s.total))
    else Ok(stores.value + Loads(destinations, s.total, s.target, 0))
  }

  /// Frame planning gives the destination its size, and other objects to the values.
  predicate Prepared(s: Scope, ws: seq<Write>, m: Machine)
    requires AllPieces(s, ws).Ok?
  {
    && s.target in m.objects && s.total <= |m.objects[s.target]|
    && AllReadable(AllPieces(s, ws).value, s.target, m)
  }

  /// The destination before any member is stored.
  function Cleared(s: Scope, m: Machine): (r: Bytes)
    requires s.target in m.objects && s.total <= |m.objects[s.target]|
    ensures |r| == |m.objects[s.target]| && forall k | 0 <= k < s.total :: r[k] == 0
  {
    Splice(m.objects[s.target], 0, Zeros(s.total))
  }

  /// The memory form of an aggregate is its zero-filled bytes with every member stored in order.
  lemma MemoryHoldsTheImage(s: Scope, ws: seq<Write>, m: Machine)
    requires StoreCode(s, ws).Ok? && Prepared(s, ws, m)
    ensures Run(StoreCode(s, ws).value, m).Done?
    ensures AllFit(AllPieces(s, ws).value, |m.objects[s.target]|)
    ensures var n := Run(StoreCode(s, ws).value, m).machine;
            && SameInputs(m, n, s.target) && s.target in n.objects
            && n.objects[s.target] == Image(Cleared(s, m), AllPieces(s, ws).value, s.target, m)
  {
    var ps := AllPieces(s, ws).value;
    var zero := ZeroStack(s.target, s.total);
    var cleared := Step(zero, m).machine;
    RunOne(zero, m);
    RunAppended([zero], PiecesCode(ps, s.target), m);
    assert forall i | 0 <= i < |ps| :: Fits(ps[i], s.total);
    StoresBuildTheImage(ps, s.target, m, cleared);
  }

  lemma LoadLane(destinations: seq<nat>, total: nat, target: nat, i: nat, m: Machine)
    requires i < |destinations| == LaneCount(total) && Distinct(destinations)
    requires target in m.objects && total <= |m.objects[target]|
    ensures var width := LaneWidth(total, i);
            var r := Step(LoadMemory(width, Virtual(destinations[i]), target, WORD_SIZE * i), m);
            && r.Done? && r.machine.objects == m.objects
            && (forall j | 0 <= j < |destinations| && j != i :: Read(r.machine, Virtual(destinations[j])) == Read(m, Virtual(destinations[j])))
            && Read(r.machine, Virtual(destinations[i]))[..width] == m.objects[target][WORD_SIZE * i..WORD_SIZE * i + width]
            && Read(r.machine, Virtual(destinations[i]))[width..] == Zeros(8 - width)
  {
  }

  lemma {:induction false} LoadsReadTheLanes(destinations: seq<nat>, total: nat, target: nat, i: nat, m: Machine)
    requires i <= |destinations| == LaneCount(total) && Distinct(destinations)
    requires target in m.objects && total <= |m.objects[target]|
    ensures Run(Loads(destinations, total, target, i), m).Done?
    ensures var n := Run(Loads(destinations, total, target, i), m).machine;
            && n.objects == m.objects
            && (forall j | 0 <= j < i :: Read(n, Virtual(destinations[j])) == Read(m, Virtual(destinations[j])))
            && (forall j | i <= j < |destinations| ::
                  && Read(n, Virtual(destinations[j]))[..LaneWidth(total, j)] == m.objects[target][WORD_SIZE * j..WORD_SIZE * j + LaneWidth(total, j)]
                  && Read(n, Virtual(destinations[j]))[LaneWidth(total, j)..] == Zeros(8 - LaneWidth(total, j)))
    decreases |destinations| - i
  {
    if i < |destinations| {
      LoadLane(destinations, total, target, i, m);
      hide Step, Zeros;
      var load := LoadMemory(LaneWidth(total, i), Virtual(destinations[i]), target, WORD_SIZE * i);
      var next := Step(load, m).machine;
      LoadsReadTheLanes(destinations, total, target, i + 1, next);
    }
  }

  // ---------------------------------------------------------------- agreement

  predicate WellSized(w: LaneWrite, total: nat) {
    && w.lane < LaneCount(total)
    && (w.Whole? && w.source.Float? ==> w.source.bytes == LaneWidth(total, w.lane))
  }

  predicate AllWellSized(ws: seq<LaneWrite>, total: nat) {
    forall i | 0 <= i < |ws| :: WellSized(ws[i], total)
  }

  lemma {:induction false} RepeatedWritesAreWellSized(body: Body, total: nat, offset: nat, stride: nat, index: nat, count: nat, value: nat)
    requires index <= count && RepeatedWrites(body, total, offset, stride, index, count, value).Some?
    ensures AllWellSized(RepeatedWrites(body, total, offset, stride, index, count, value).value, total)
    decreases count - index
  {
    if index < count {
      RepeatedWritesAreWellSized(body, total, offset, stride, index + 1, count, value);
    }
  }

  lemma {:induction false} WritesAreWellSized(body: Body, total: nat, ws: seq<Write>)
    requires AllLaneWrites(body, total, ws).Some?
    ensures AllWellSized(AllLaneWrites(body, total, ws).value, total)
  {
    if ws != [] {
      WritesAreWellSized(body, total, ws[1..]);
      if ws[0].Repeated? {
        RepeatedWritesAreWellSized(body, total, ws[0].offset, ws[0].stride, 0, ws[0].count, ws[0].value);
      }
      assert AllWellSized(LaneWrites(body, total, ws[0]).value, total);
    }
  }

  lemma {:induction false} FloatsStayMatched(lanes: seq<Lane>, ws: seq<LaneWrite>, total: nat)
    requires ValidLanes(lanes) && |lanes| == LaneCount(total) && FloatsMatch(lanes, total)
    requires ApplyAll(lanes, ws).Some? && AllWellSized(ws, total)
    ensures FloatsMatch(ApplyAll(lanes, ws).value, total)
    decreases |ws|
  {
    if ws != [] {
      assert WellSized(ws[0], total);
      assert forall i | 0 <= i < |ws| - 1 :: ws[1..][i] == ws[i + 1];
      FloatsStayMatched(Apply(lanes, ws[0]).value, ws[1..], total);
    }
  }

  /// A plan is refused for its shape only when more than two lanes come from general registers.
  lemma PlansAreSelectable(body: Body, a: Aggregate, destinations: seq<nat>)
    requires Plan(body, a, |destinations|).Some?
    ensures DirectCode(destinations, Plan(body, a, |destinations|).value, a.size).Ok? <==>
            |GeneralCopies(destinations, Plan(body, a, |destinations|).value, 0)| <= 2
  {
    WritesAreWellSized(body, a.size, a.writes);
    FloatsStayMatched(FreshLanes(|destinations|), AllLaneWrites(body, a.size, a.writes).value, a.size);
  }

  lemma PlanMirrorsMemory(s: Scope, a: Aggregate, count: nat, m: Machine)
    requires a.size == s.total && Plan(s.body, a, count).Some? && AllPieces(s, a.writes).Ok? && Prepared(s, a.writes, m)
    requires AllFit(AllPieces(s, a.writes).value, |m.objects[s.target]|)
    ensures var image := Image(Cleared(s, m), AllPieces(s, a.writes).value, s.target, m);
            forall i | 0 <= i < count :: Agrees(Plan(s.body, a, count).value[i], image, s.total, i, m)
  {
    var image := Cleared(s, m);
    assert Mirrors(FreshLanes(count), image, s.total, m);
    hide AllLaneWrites, AllPieces, ApplyAll, Image;
    WritesMirror(s, a.writes, FreshLanes(count), image, m);
  }

  lemma LaneSlice(l: Lane, image: Bytes, total: nat, i: nat, m: Machine)
    requires total <= |image| && i < LaneCount(total) && Agrees(l, image, total, i, m)
    ensures image[WORD_SIZE * i..WORD_SIZE * i + LaneWidth(total, i)] == LaneWord(l, m)[..LaneWidth(total, i)]
  {
    var w := LaneWidth(total, i);
    forall b | 0 <= b < w ensures image[WORD_SIZE * i..WORD_SIZE * i + w][b] == LaneWord(l, m)[..w][b] {
      assert image[WORD_SIZE * i + b] == LaneWord(l, m)[b];
    }
  }

  lemma MemoryPathLoadsTheImage(s: Scope, ws: seq<Write>, destinations: seq<nat>, m: Machine)
    requires Distinct(destinations) && MemoryCode(s, ws, destinations).Ok? && Prepared(s, ws, m)
    ensures AllFit(AllPieces(s, ws).value, |m.objects[s.target]|)
    ensures Run(MemoryCode(s, ws, destinations).value, m).Done?
    ensures var y := Run(MemoryCode(s, ws, destinations).value, m).machine;
            var image := Image(Cleared(s, m), AllPieces(s, ws).value, s.target, m);
            forall j | 0 <= j < |destinations| ::
              && Read(y, Virtual(destinations[j]))[..LaneWidth(s.total, j)] == image[WORD_SIZE * j..WORD_SIZE * j + LaneWidth(s.total, j)]
              && Read(y, Virtual(destinations[j]))[LaneWidth(s.total, j)..] == Zeros(8 - LaneWidth(s.total, j))
  {
    MemoryHoldsTheImage(s, ws, m);
    var stores, loads := StoreCode(s, ws).value, Loads(destinations, s.total, s.target, 0);
    RunAppended(stores, loads, m);
    var stored := Run(stores, m).machine;
    hide Run, StoreCode, AllPieces, Image, Cleared, Loads, Zeros;
    LoadsReadTheLanes(destinations, s.total, s.target, 0, stored);
  }

  /// Whenever a plan exists, its registers agree with zero-filled memory, every write done there in
  /// order, and the lanes loaded back.
  lemma RegisterPathAgreesWithMemoryPath(s: Scope, a: Aggregate, destinations: seq<nat>, m: Machine)
    requires a.size == s.total && Distinct(destinations) && Plan(s.body, a, |destinations|).Some?
    requires DirectCode(destinations, Plan(s.body, a, |destinations|).value, s.total).Ok?
    requires MemoryCode(s, a.writes, destinations).Ok? && Prepared(s, a.writes, m)
    ensures Run(DirectCode(destinations, Plan(s.body, a, |destinations|).value, s.total).value, m).Done?
    ensures Run(MemoryCode(s, a.writes, destinations).value, m).Done?
    ensures var x := Run(DirectCode(destinations, Plan(s.body, a, |destinations|).value, s.total).value, m).machine;
            var y := Run(MemoryCode(s, a.writes, destinations).value, m).machine;
            forall j | 0 <= j < |destinations| ::
              && Read(x, Virtual(destinations[j]))[..LaneWidth(s.total, j)] == Read(y, Virtual(destinations[j]))[..LaneWidth(s.total, j)]
              && Read(y, Virtual(destinations[j]))[LaneWidth(s.total, j)..] == Zeros(8 - LaneWidth(s.total, j))
  {
    assert AllPieces(s, a.writes).Ok?;
    hide Run, DirectCode, AllPieces, Image, Cleared, Zeros, AllLaneWrites, ApplyAll, StoreCode;
    var lanes := Plan(s.body, a, |destinations|).value;
    DirectCodeFillsTheLanes(destinations, lanes, s.total, m);
    MemoryPathLoadsTheImage(s, a.writes, destinations, m);
    PlanMirrorsMemory(s, a, |destinations|, m);
    var image := Image(Cleared(s, m), AllPieces(s, a.writes).value, s.target, m);
    forall j | 0 <= j < |destinations|
      ensures image[WORD_SIZE * j..WORD_SIZE * j + LaneWidth(s.total, j)] == LaneWord(lanes[j], m)[..LaneWidth(s.total, j)]
    {
      LaneSlice(lanes[j], image, s.total, j, m);
    }
  }

  // ---------------------------------------------------------------- selection

  /// An aggregate without bytes has only empty members.
  function OmittedCode(body: Body, result: nat, ws: seq<Write>): Result<seq<Instruction>, SelectionError> {
    if ws == [] then Ok([])
    else if ws[0].Tag? then Err(AggregateWriteBounds(result))
    else
      var size := StoredSize(body, ws[0].value);
      if size.Err? then Err(size.error)
      else if size.value != 0 then Err(AggregateWriteBounds(result))
      else OmittedCode(body, result, ws[1..])
  }

  function SelectedCode(body: Body, a: Aggregate, result: nat, staging: Option<nat>): Result<seq<Instruction>, SelectionError> {
    if result >= |body.representations| then Err(UnknownValue(result))
    else if body.representations[result] != Stored(a.size, a.alignment) then Err(AggregateValueShape(result))
    else if result >= |body.storage| then Err(UnknownValue(result))
    else
      match body.storage[result]
      case Omitted => if a.size != 0 then Err(AggregateValueShape(result)) else OmittedCode(body, result, a.writes)
      case Direct(registers) =>
        var plan := Plan(body, a, |registers|);
        if plan.Some? then DirectCode(registers, plan.value, a.size)
        else if staging.None? then Err(MissingDirectMemoryStaging)
        else MemoryCode(Scope(body, a.size, result, staging.value), a.writes, registers)
      case Memory(_, home) =>
        if home.None? then Err(MemoryValue(result)) else StoreCode(Scope(body, a.size, result, home.value), a.writes)
      case Floating(_, _) => Err(AggregateValueShape(result))
  }

  /// Whichever form is selected, the result registers hold the bytes of the aggregate.
  lemma SelectedRegistersHoldTheAggregate(s: Scope, a: Aggregate, registers: seq<nat>, m: Machine)
    requires SelectedCode(s.body, a, s.result, Some(s.target)).Ok? && a.size == s.total
    requires s.body.storage[s.result] == Direct(registers) && Distinct(registers)
    requires MemoryCode(s, a.writes, registers).Ok? && Prepared(s, a.writes, m)
    ensures Run(SelectedCode(s.body, a, s.result, Some(s.target)).value, m).Done?
    ensures AllFit(AllPieces(s, a.writes).value, |m.objects[s.target]|)
    ensures var n := Run(SelectedCode(s.body, a, s.result, Some(s.target)).value, m).machine;
            var image := Image(Cleared(s, m), AllPieces(s, a.writes).value, s.target, m);
            forall j | 0 <= j < |registers| ::
              Read(n, Virtual(registers[j]))[..LaneWidth(s.total, j)] == image[WORD_SIZE * j..WORD_SIZE * j + LaneWidth(s.total, j)]
  {
    MemoryPathLoadsTheImage(s, a.writes, registers, m);
    if Plan(s.body, a, |registers|).Some? {
      RegisterPathAgreesWithMemoryPath(s, a, registers, m);
    }
  }
}
