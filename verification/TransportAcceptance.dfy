/**
 Which calls, entries and constructors have transport code.
 */
module TransportAcceptance {
  import opened Results
  import opened ByteRanges
  import opened NocterAbi
  import opened Transport
  import opened TransportEntry
  import opened Constructor

  // ---------------------------------------------------------------- the caller

  /// A source of the argument's class whose location has room for it.
  predicate ArgumentAccepted(s: Source, a: ArgumentAbi) {
    match a.class_
    case Zero => a.location.None?
    case Direct(words) =>
      && a.location.Some? && s.Words? && |s.places| == words
      && (a.location.value.Registers? ==> a.location.value.words == words && (words == 0 || a.location.value.first + words <= ARGUMENT_REGISTERS))
      && (a.location.value.Slot? ==> WORD_SIZE * words <= a.location.value.size)
    case Indirect =>
      && a.location.Some? && s.Object?
      && (a.location.value.Registers? ==> a.location.value.words == 1 && a.location.value.first <= 30)
      && (a.location.value.Slot? ==> WORD_SIZE <= a.location.value.size)
    case _ =>
      && a.location.Some? && s.Floating? && s.bytes == FloatBytes(a.class_)
      && (a.location.value.Registers? ==> a.location.value.words == 1 && a.location.value.first < FLOATING_ARGUMENT_REGISTERS)
      && (a.location.value.Slot? ==> s.bytes <= a.location.value.size)
  }

  lemma ArgumentIsExact(s: Source, a: ArgumentAbi, sp: nat)
    ensures ArgumentCode(s, a, sp).Ok? <==> ArgumentAccepted(s, a)
  {
    hide Moves, Stores;
  }

  /// MAIN RESULT. A call has code exactly when every argument is accepted.
  lemma {:induction false} CallIsExact(sources: seq<Source>, abi: seq<ArgumentAbi>, i: nat, sp: nat)
    requires i <= |abi| == |sources|
    ensures CallCode(sources, abi, i, sp).Ok? <==> forall k | i <= k < |abi| :: ArgumentAccepted(sources[k], abi[k])
    decreases |abi| - i
  {
    hide ArgumentCode, ArgumentAccepted;
    if i < |abi| {
      ArgumentIsExact(sources[i], abi[i], sp);
      CallIsExact(sources, abi, i + 1, sp);
    }
  }

  // ---------------------------------------------------------------- the callee

  /// A location from which the parameter's object can be filled.
  predicate ParameterAccepted(a: ArgumentAbi, p: Parameter) {
    match a.class_
    case Zero => a.location.None?
    case Direct(words) =>
      && a.location.Some? && LaneCount(p.size) == words
      && (a.location.value.Registers? ==> a.location.value.words == words && (words == 0 || a.location.value.first + words <= ARGUMENT_REGISTERS))
      && (a.location.value.Slot? ==> WORD_SIZE * words <= a.location.value.size)
    case Indirect =>
      && a.location.Some?
      && (a.location.value.Registers? ==> a.location.value.words == 1 && a.location.value.first <= 30)
      && (a.location.value.Slot? ==> WORD_SIZE <= a.location.value.size)
    case _ =>
      && a.location.Some?
      && (a.location.value.Registers? ==> a.location.value.words == 1 && a.location.value.first < FLOATING_ARGUMENT_REGISTERS)
      && (a.location.value.Slot? ==> FloatBytes(a.class_) <= a.location.value.size)
  }

  lemma ParameterIsExact(a: ArgumentAbi, p: Parameter, incoming: nat)
    ensures EarlyCode(a, p).Ok? && LateCode(a, p, incoming).Ok? <==> ParameterAccepted(a, p)
  {
    hide LaneStores, LaneCopies, LaneCount;
  }

  lemma {:induction false} EarlyIsExact(abi: seq<ArgumentAbi>, ps: seq<Parameter>, i: nat)
    requires i <= |abi| == |ps|
    ensures EarlyCodes(abi, ps, i).Ok? <==> forall k | i <= k < |abi| :: EarlyCode(abi[k], ps[k]).Ok?
    decreases |abi| - i
  {
    hide EarlyCode;
    if i < |abi| { EarlyIsExact(abi, ps, i + 1); }
  }

  lemma {:induction false} LateIsExact(abi: seq<ArgumentAbi>, ps: seq<Parameter>, i: nat, incoming: nat)
    requires i <= |abi| == |ps|
    ensures LateCodes(abi, ps, i, incoming).Ok? <==> forall k | i <= k < |abi| :: LateCode(abi[k], ps[k], incoming).Ok?
    decreases |abi| - i
  {
    hide LateCode;
    if i < |abi| { LateIsExact(abi, ps, i + 1, incoming); }
  }

  /// MAIN RESULT. An entry has code exactly when there is a parameter for every argument, and all of them
  /// are accepted.
  lemma EntryIsExact(abi: seq<ArgumentAbi>, ps: seq<Parameter>, incoming: nat)
    ensures EntryCode(abi, ps, incoming).Ok? <==> |abi| == |ps| && forall k | 0 <= k < |abi| :: ParameterAccepted(abi[k], ps[k])
  {
    hide EarlyCode, LateCode, EarlyCodes, LateCodes, ParameterAccepted;
    if |abi| == |ps| {
      EarlyIsExact(abi, ps, 0);
      LateIsExact(abi, ps, 0, incoming);
      forall k | 0 <= k < |abi|
        ensures EarlyCode(abi[k], ps[k]).Ok? && LateCode(abi[k], ps[k], incoming).Ok? <==> ParameterAccepted(abi[k], ps[k])
      {
        ParameterIsExact(abi[k], ps[k], incoming);
      }
    }
  }

  /// What a caller can pass, a callee with a parameter of that size can receive.
  lemma AcceptedArgumentsAreReceived(s: Source, a: ArgumentAbi, p: Parameter)
    requires ArgumentAccepted(s, a) && (a.class_.Direct? ==> LaneCount(p.size) == a.class_.words)
    ensures ParameterAccepted(a, p)
  {
  }

  // ---------------------------------------------------------------- the constructor

  /// An argument that a staging object can take, wherever it arrives.
  predicate StagingAccepted(a: ArgumentAbi, p: Parameter) {
    && (a.class_.Indirect? ==> WORD_SIZE <= p.size)
    && (a.location.Some? ==>
          match a.location.value
          case Slot(_, size) => TransportBytes(a.class_) <= size
          case Registers(first, span) =>
            match a.class_
            case Zero => true
            case Direct(words) => span == words <= LaneCount(p.size) && (words == 0 || first + words <= ARGUMENT_REGISTERS)
            case Indirect => span == 1 && first < ARGUMENT_REGISTERS
            case _ => span == 1 && first < FLOATING_ARGUMENT_REGISTERS)
  }

  lemma {:induction false} LanesAreExact(p: Parameter, first: nat, lane: nat, words: nat)
    requires lane <= words
    ensures StagedLanes(p, first, lane, words).Ok? <==> lane == words || (words <= LaneCount(p.size) && first + words <= ARGUMENT_REGISTERS)
    decreases words - lane
  {
    hide LaneCount;
    if lane < words { LanesAreExact(p, first, lane + 1, words); }
  }

  lemma StagingIsExact(a: ArgumentAbi, p: Parameter, incoming: nat)
    ensures RegisterStaging(a, p).Ok? && StackStaging(a, p, incoming).Ok? && IndirectClosing(a, p).Ok? <==> StagingAccepted(a, p)
  {
    hide StagedLanes, StackChunks, PointeeChunks, LaneCount;
    if a.location.Some? && a.location.value.Registers? && a.class_.Direct? {
      LanesAreExact(p, a.location.value.first, 0, a.class_.words);
    }
  }

  lemma {:induction false} StagingsAreExact(abi: seq<ArgumentAbi>, ps: seq<Parameter>, i: nat, incoming: nat)
    requires i <= |abi| == |ps|
    ensures RegisterStagings(abi, ps, i).Ok? <==> forall k | i <= k < |abi| :: RegisterStaging(abi[k], ps[k]).Ok?
    ensures StackStagings(abi, ps, i, incoming).Ok? <==> forall k | i <= k < |abi| :: StackStaging(abi[k], ps[k], incoming).Ok?
    ensures IndirectClosings(abi, ps, i).Ok? <==> forall k | i <= k < |abi| :: IndirectClosing(abi[k], ps[k]).Ok?
    decreases |abi| - i
  {
    hide RegisterStaging, StackStaging, IndirectClosing;
    if i < |abi| { StagingsAreExact(abi, ps, i + 1, incoming); }
  }

  /// MAIN RESULT. A constructor has staging code exactly when every argument is accepted.
  lemma ConstructorIsExact(abi: seq<ArgumentAbi>, ps: seq<Parameter>, incoming: nat)
    requires |abi| == |ps|
    ensures StagingCode(abi, ps, incoming).Ok? <==> forall k | 0 <= k < |abi| :: StagingAccepted(abi[k], ps[k])
  {
    hide RegisterStaging, StackStaging, IndirectClosing, StagingAccepted, RegisterStagings, StackStagings, IndirectClosings;
    StagingsAreExact(abi, ps, 0, incoming);
    forall k | 0 <= k < |abi|
      ensures RegisterStaging(abi[k], ps[k]).Ok? && StackStaging(abi[k], ps[k], incoming).Ok? && IndirectClosing(abi[k], ps[k]).Ok?
              <==> StagingAccepted(abi[k], ps[k])
    {
      StagingIsExact(abi[k], ps[k], incoming);
    }
  }

  /// And it can be copied to the heap frame exactly when every staging object has the size of its field.
  lemma {:induction false} CapturesAreExact(ps: seq<Parameter>, fields: seq<Field>, i: nat, mapping: nat)
    requires i <= |ps| == |fields|
    ensures Captures(ps, fields, i, mapping).Ok? <==> forall k | i <= k < |ps| :: ps[k].size == fields[k].size
    decreases |ps| - i
  {
    hide HeapChunks;
    if i < |ps| { CapturesAreExact(ps, fields, i + 1, mapping); }
  }
}
