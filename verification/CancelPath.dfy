/**
 When the address of what a cancelled deferred function destroys is right.

 `CancelAddress` says what the code computes at any offset. Here that is compared with what the path
 means: a wide offset does harm exactly where it lands in a register that is read later.
 */
module CancelPath {
  import opened Results
  import opened ByteRanges
  import opened Arithmetic
  import opened Isa
  import CodeWords
  import opened Addresses
  import opened AddressCode
  import opened CancelAddress

  // ---------------------------------------------------------------- what a selected path means

  function MeantStep(step: FrameStep, at: Word64, length: Option<Word64>, base: Word64, memory: Word64 -> Word64): Meaning {
    match step
    case FrameOffset(o) => At(Sum(at, o), length)
    case OffsetFrame(o) => At(Sum(at, memory(Sum(base, o))), length)
    case FrameDereference => At(memory(at), None)
    case FrameViewDereference(pointer, size) => At(memory(Sum(at, pointer)), Some(memory(Sum(at, size))))
    case FrameIndexStep(index, stride, bound, check) => IndexMeaning(at, length, IndexValue(index, base, memory), stride, bound, check)
  }

  function Meant(steps: seq<FrameStep>, at: Word64, length: Option<Word64>, base: Word64, memory: Word64 -> Word64): Meaning
    decreases |steps|
  {
    if steps == [] then At(at, length)
    else
      var next := MeantStep(steps[0], at, length, base, memory);
      if !next.At? then next else Meant(steps[1..], next.address, next.length, base, memory)
  }

  function MeantRoot(root: FrameRoot, base: Word64, memory: Word64 -> Word64): (Word64, Option<Word64>) {
    match root
    case InFrame(offset) => (Sum(base, offset), None)
    case FramePointer(offset) => (memory(Sum(base, offset)), None)
    case FrameView(field, pointer, size) => (memory(Sum(base, field + pointer)), Some(memory(Sum(base, field + size))))
  }

  function MeantPath(root: FrameRoot, steps: seq<FrameStep>, base: Word64, memory: Word64 -> Word64): Meaning {
    var (at, length) := MeantRoot(root, base, memory);
    Meant(steps, at, length, base, memory)
  }

  function ViewAfter(step: FrameStep, view: bool): bool {
    match step
    case FrameOffset(_) => view
    case OffsetFrame(_) => view
    case FrameViewDereference(_, _) => true
    case _ => false
  }

  /// An index is bounded by the current view only where there is one, as selection makes sure.
  predicate Tracked(steps: seq<FrameStep>, view: bool)
    decreases |steps|
  {
    steps != [] ==>
      (steps[0].FrameIndexStep? && steps[0].bound.CurrentView? ==> view) && Tracked(steps[1..], ViewAfter(steps[0], view))
  }

  // ---------------------------------------------------------------- selection keeps the meaning

  /// The heap frame and memory hold what the environment says.
  ghost predicate FrameCarries(scope: FrameScope, env: Env, base: Word64, w: World) {
    && env.memory == w.memory
    && (forall v, k: nat | v in scope.values && WORD_SIZE * k + WORD_SIZE <= scope.values[v].size ::
          env.words(v, k) == w.memory(Sum(base, scope.values[v].offset + WORD_SIZE * k)))
    && (forall v | v in scope.words && v in scope.values :: scope.values[v].size >= WORD_SIZE)
    && (forall stack | stack in scope.stacks :: env.stack(stack) == Sum(base, scope.stacks[stack].offset))
  }

  lemma WordCarried(scope: FrameScope, v: nat, env: Env, base: Word64, w: World)
    requires FrameCarries(scope, env, base, w) && RequireWord(scope, v).Ok?
    ensures env.words(v, 0) == w.memory(Sum(base, RequireWord(scope, v).value))
  {
    var k: nat := 0;
    assert env.words(v, k) == w.memory(Sum(base, scope.values[v].offset + WORD_SIZE * k));
  }

  /// A view's words are whole doublewords of its value.
  predicate ViewAligned(root: Root) {
    root.ViewRoot? ==> root.pointerOffset % WORD_SIZE == 0 && root.lengthOffset % WORD_SIZE == 0
  }

  lemma ViewWordsCarried(scope: FrameScope, root: Root, env: Env, base: Word64, w: World)
    requires root.ViewRoot? && SelectFrameRoot(scope, root).Ok? && FrameCarries(scope, env, base, w) && ViewAligned(root)
    ensures var field := scope.values[root.value].offset;
            && env.words(root.value, root.pointerOffset / WORD_SIZE) == w.memory(Sum(base, field + root.pointerOffset))
            && env.words(root.value, root.lengthOffset / WORD_SIZE) == w.memory(Sum(base, field + root.lengthOffset))
  {
    hide Sum;
    var p: nat, l: nat := root.pointerOffset / WORD_SIZE, root.lengthOffset / WORD_SIZE;
    assert WORD_SIZE * p == root.pointerOffset && WORD_SIZE * l == root.lengthOffset;
    assert env.words(root.value, p) == w.memory(Sum(base, scope.values[root.value].offset + WORD_SIZE * p));
    assert env.words(root.value, l) == w.memory(Sum(base, scope.values[root.value].offset + WORD_SIZE * l));
  }

  lemma {:induction false} SelectedStepsMean(scope: FrameScope, steps: seq<Step>, at: Word64, length: Option<Word64>, env: Env, base: Word64, w: World)
    requires FrameCarries(scope, env, base, w) && SelectFrameSteps(scope, steps, length.Some?).Ok?
    ensures var selected := SelectFrameSteps(scope, steps, length.Some?).value;
            Tracked(selected, length.Some?) && Meant(selected, at, length, base, w.memory) == StepsMeaning(steps, at, length, env)
    decreases |steps|
  {
    hide FrameCarries, Sum;
    if steps != [] {
      var (first, view) := SelectFrameStep(scope, steps[0], length.Some?).value;
      var selected := SelectFrameSteps(scope, steps[1..], view).value;
      assert SelectFrameSteps(scope, steps, length.Some?).value[1..] == selected;
      SelectedStepMeans(scope, steps[0], at, length, env, base, w);
      var next := StepMeaning(steps[0], at, length, env);
      hide SelectFrameStep, StepMeaning, MeantStep;
      if next.At? {
        SelectedStepsMean(scope, steps[1..], next.address, next.length, env, base, w);
      } else {
        var some: Option<Word64> := if view then Some(0) else None;
        SelectedStepsMean(scope, steps[1..], at, some, env, base, w);
      }
    }
  }

  lemma SelectedStepMeans(scope: FrameScope, step: Step, at: Word64, length: Option<Word64>, env: Env, base: Word64, w: World)
    requires FrameCarries(scope, env, base, w) && SelectFrameStep(scope, step, length.Some?).Ok?
    ensures var (first, view) := SelectFrameStep(scope, step, length.Some?).value;
            var m := StepMeaning(step, at, length, env);
            && MeantStep(first, at, length, base, w.memory) == m && view == ViewAfter(first, length.Some?)
            && (m.At? ==> m.length.Some? == view) && (first.FrameIndexStep? && first.bound.CurrentView? ==> length.Some?)
  {
    hide Sum;
    if step.OffsetValue? {
      WordCarried(scope, step.value, env, base, w);
    } else if step.IndexStep? && step.index.FromValue? {
      WordCarried(scope, step.index.value, env, base, w);
    }
    assert env.memory == w.memory;
  }

  /// The selected path means on the heap frame what the machine path means in the environment.
  lemma SelectedPathMeans(scope: FrameScope, a: Address, env: Env, base: Word64, w: World)
    requires SelectFrameAddress(scope, a).Ok? && ViewAligned(a.root) && FrameCarries(scope, env, base, w)
    ensures var (root, steps) := SelectFrameAddress(scope, a).value;
            MeantPath(root, steps, base, w.memory) == Denotes(a, env) && Tracked(steps, root.FrameView?)
  {
    hide Sum, Meant, StepsMeaning, SelectFrameSteps, Tracked;
    var (at, length) := RootMeaning(a.root, env);
    if a.root.PointerRoot? {
      WordCarried(scope, a.root.value, env, base, w);
    } else if a.root.ViewRoot? {
      ViewWordsCarried(scope, a.root, env, base, w);
    }
    SelectedStepsMean(scope, a.steps, at, length, env, base, w);
  }

  // ---------------------------------------------------------------- harm

  /// A wide offset replaces the address. An index that can never pass its check has nothing to lose.
  predicate HitsAddress(step: FrameStep) {
    match step
    case OffsetFrame(o) => !ScaledOffset(o)
    case FrameIndexStep(index, _, bound, check) =>
      index.FrameWordIndex? && !ScaledOffset(index.offset) && !check.ProvenTrap? && !(check.Required? && bound == Fixed(0))
    case _ => false
  }

  /// A wide offset replaces the length.
  predicate HitsLength(step: FrameStep) {
    match step
    case FrameOffset(o) => !Encodable(o)
    case FrameViewDereference(pointer, _) => !ScaledOffset(pointer)
    case _ => false
  }

  /// A check against the length that some length passes.
  predicate Compares(step: FrameStep) {
    step.FrameIndexStep? && step.check.Required? && step.bound.CurrentView? && step.index != FrameConstant(M64 - 1)
  }

  /// The length is read before there is another view.
  predicate ReadsLength(steps: seq<FrameStep>)
    decreases |steps|
  {
    steps != [] && (Compares(steps[0]) || ((steps[0].FrameOffset? || steps[0].OffsetFrame?) && ReadsLength(steps[1..])))
  }

  predicate Harmless(steps: seq<FrameStep>)
    decreases |steps|
  {
    steps != [] ==> !HitsAddress(steps[0]) && !(HitsLength(steps[0]) && ReadsLength(steps[1..])) && Harmless(steps[1..])
  }

  predicate HarmlessPath(root: FrameRoot, steps: seq<FrameStep>) {
    !(root.FrameView? && !ScaledOffset(root.field + root.pointerOffset) && ReadsLength(steps)) && Harmless(steps)
  }

  /// The registers say what is meant.
  predicate Agrees(h: Option<Held>, m: Meaning) {
    match m
    case Trapped => h.None?
    case At(address, _) => h.Some? && h.value.address == address
    case Unbounded => false
  }

  lemma {:induction false} HarmlessStepsAgree(steps: seq<FrameStep>, h: Held, length: Option<Word64>, base: Word64, memory: Word64 -> Word64)
    requires Tracked(steps, length.Some?) && Harmless(steps)
    requires length.Some? && ReadsLength(steps) ==> h.length == length.value
    ensures Agrees(HeldSteps(steps, h, base, memory), Meant(steps, h.address, length, base, memory))
    decreases |steps|
  {
    if steps != [] {
      HarmlessStepAgrees(steps, h, length, base, memory);
      var g, m := HeldStep(steps[0], h, base, memory), MeantStep(steps[0], h.address, length, base, memory);
      hide HeldStep, MeantStep, HitsAddress, HitsLength, Compares;
      if g.Some? {
        HarmlessStepsAgree(steps[1..], g.value, m.length, base, memory);
      }
    }
  }

  lemma HarmlessStepAgrees(steps: seq<FrameStep>, h: Held, length: Option<Word64>, base: Word64, memory: Word64 -> Word64)
    requires steps != [] && Tracked(steps, length.Some?) && Harmless(steps)
    requires length.Some? && ReadsLength(steps) ==> h.length == length.value
    ensures var g, m := HeldStep(steps[0], h, base, memory), MeantStep(steps[0], h.address, length, base, memory);
            && Agrees(g, m)
            && (m.At? ==> m.length.Some? == ViewAfter(steps[0], length.Some?))
            && (m.At? && m.length.Some? && ReadsLength(steps[1..]) ==> g.value.length == m.length.value)
  {
    hide Sum, ScaledOffset, Encodable;
    SumIsLow();
    SumOfWord();
  }

  lemma SumOfWord()
    ensures forall a: int, x: int :: Sum(a, Sum(x, 0)) == Sum(a, x)
  {
    forall a: int, x: int ensures Sum(a, Sum(x, 0)) == Sum(a, x) {
      RemainderIsCongruent(x, M64);
      CongruentSums(Low(x, Bits64), x, a, a, M64);
      CongruentRemainders(a + Low(x, Bits64), a + x, M64);
    }
  }

  lemma HarmlessPathAgrees(root: FrameRoot, steps: seq<FrameStep>, length: Word64, base: Word64, memory: Word64 -> Word64)
    requires Tracked(steps, root.FrameView?) && HarmlessPath(root, steps)
    ensures Agrees(HeldPath(root, steps, length, base, memory), MeantPath(root, steps, base, memory))
  {
    hide Sum, ScaledOffset, Encodable, HeldSteps, Meant;
    var (at, view) := MeantRoot(root, base, memory);
    HarmlessStepsAgree(steps, HeldRoot(root, length, base, memory), view, base, memory);
  }

  /// Where nothing wide hits a register that is read later, resolution leaves in x0 the address that
  /// the machine path denotes, and traps exactly where the path does.
  lemma CancellationAddressIsDenoted(scope: FrameScope, a: Address, env: Env, mapping: Word64, s: State, w: World) returns (t: State)
    requires SelectFrameAddress(scope, a).Ok? && ViewAligned(a.root) && FrameCarries(scope, env, FrameBase(s, mapping, w), w)
    requires FrameAddressCode(SelectFrameAddress(scope, a).value.0, SelectFrameAddress(scope, a).value.1, mapping).Ok?
    requires HarmlessPath(SelectFrameAddress(scope, a).value.0, SelectFrameAddress(scope, a).value.1)
    ensures var m := Denotes(a, env);
            var result := Exec2(FrameAddressCode(SelectFrameAddress(scope, a).value.0, SelectFrameAddress(scope, a).value.1, mapping).value, s, w);
            !m.Unbounded? && (m.Trapped? ==> result == Trap) && (m.At? ==> result == Done(t) && Reg(t, FIRST) == m.address)
  {
    hide Exec2, Reg, FrameCarries, FrameBase, HeldPath, MeantPath, HarmlessPath, Tracked, SelectFrameAddress, FrameAddressCode, ViewAligned, Denotes;
    var (root, steps) := SelectFrameAddress(scope, a).value;
    var base := FrameBase(s, mapping, w);
    SelectedPathMeans(scope, a, env, base, w);
    HarmlessPathAgrees(root, steps, Reg(s, LENGTH), base, w.memory);
    t := AddressCodeComputes(root, steps, mapping, s, w);
  }

  // ---------------------------------------------------------------- parts of a path

  function ViewAt(steps: seq<FrameStep>, i: nat, view: bool): bool
    requires i <= |steps|
    decreases |steps|
  {
    if i == 0 then view else ViewAt(steps[1..], i - 1, ViewAfter(steps[0], view))
  }

  /// The code of consecutive steps, from a state in which the registers stand for a point of the path.
  ghost predicate RunsRight(steps: seq<FrameStep>, length: Option<Word64>, mapping: Word64, s: State, w: World) {
    FrameStepsCode(steps, mapping).Ok? && (length.Some? ==> Reg(s, LENGTH) == length.value) ==>
      var m := Meant(steps, Reg(s, DESTINATION), length, FrameBase(s, mapping, w), w.memory);
      var result := Exec2(FrameStepsCode(steps, mapping).value, s, w);
      if m.At? then result.Done? && Reg(result.state, DESTINATION) == m.address else m.Trapped? && result == Trap
  }

  ghost predicate PartIsRight(steps: seq<FrameStep>, view: bool, mapping: Word64) {
    forall s, w, length: Option<Word64> :: length.Some? == view ==> RunsRight(steps, length, mapping, s, w)
  }

  /// The code of a root and the steps behind it.
  ghost predicate PathRunsRight(root: FrameRoot, steps: seq<FrameStep>, mapping: Word64, s: State, w: World) {
    FrameAddressCode(root, steps, mapping).Ok? ==>
      var m := MeantPath(root, steps, FrameBase(s, mapping, w), w.memory);
      var result := Exec2(FrameAddressCode(root, steps, mapping).value, s, w);
      if m.At? then result.Done? && Reg(result.state, FIRST) == m.address else m.Trapped? && result == Trap
  }

  ghost predicate PathIsRight(root: FrameRoot, steps: seq<FrameStep>, mapping: Word64) {
    forall s, w :: PathRunsRight(root, steps, mapping, s, w)
  }

  /// In every state and world, the path is right up to each step, and so are the steps between any two
  /// points from wherever the registers stand for the first.
  ghost predicate RightInEveryPart(root: FrameRoot, steps: seq<FrameStep>, mapping: Word64) {
    && (forall j | 0 <= j <= |steps| :: PathIsRight(root, steps[..j], mapping))
    && (forall i, j | 0 <= i <= j <= |steps| :: PartIsRight(steps[i..j], ViewAt(steps, i, root.FrameView?), mapping))
  }

  lemma AgreementRunsRight(steps: seq<FrameStep>, length: Option<Word64>, mapping: Word64, s: State, w: World)
    requires FrameStepsCode(steps, mapping).Ok? && (length.Some? ==> Reg(s, LENGTH) == length.value)
    ensures RunsRight(steps, length, mapping, s, w) <==>
            var base := FrameBase(s, mapping, w);
            Agrees(HeldSteps(steps, Holding(s), base, w.memory), Meant(steps, Reg(s, DESTINATION), length, base, w.memory))
  {
    hide Exec2, Reg, FrameBase, FrameStepsCode, HeldSteps, Meant, FrameKept;
    var code := FrameStepsCode(steps, mapping).value;
    var t := StepsLead(steps, mapping, s, w, []);
    assert code + [] == code;
    ExecDone(t, w);
  }

  lemma AgreementPathRunsRight(root: FrameRoot, steps: seq<FrameStep>, mapping: Word64, s: State, w: World)
    requires FrameAddressCode(root, steps, mapping).Ok?
    ensures PathRunsRight(root, steps, mapping, s, w) <==>
            var base := FrameBase(s, mapping, w);
            Agrees(HeldPath(root, steps, Reg(s, LENGTH), base, w.memory), MeantPath(root, steps, base, w.memory))
  {
    hide Exec2, Reg, FrameBase, FrameAddressCode, HeldPath, MeantPath;
    var t := AddressCodeComputes(root, steps, mapping, s, w);
  }

  // ---------------------------------------------------------------- harmless paths are right

  lemma {:induction false} Suffix(steps: seq<FrameStep>, i: nat, view: bool)
    requires i <= |steps|
    ensures Tracked(steps, view) ==> Tracked(steps[i..], ViewAt(steps, i, view))
    ensures Harmless(steps) ==> Harmless(steps[i..])
    decreases i
  {
    hide HitsAddress, HitsLength, ReadsLength;
    if i == 0 {
      assert steps[0..] == steps;
    } else {
      Suffix(steps[1..], i - 1, ViewAfter(steps[0], view));
      assert steps[1..][i - 1..] == steps[i..];
    }
  }

  lemma {:induction false} Prefix(steps: seq<FrameStep>, j: nat, view: bool)
    requires j <= |steps|
    ensures Tracked(steps, view) ==> Tracked(steps[..j], view)
    ensures ReadsLength(steps[..j]) ==> ReadsLength(steps)
    ensures Harmless(steps) ==> Harmless(steps[..j])
    decreases j
  {
    hide HitsAddress, HitsLength, Compares;
    if j > 0 {
      Prefix(steps[1..], j - 1, ViewAfter(steps[0], view));
      assert steps[..j][1..] == steps[1..][..j - 1];
    }
  }

  lemma HarmlessPartsAreRight(root: FrameRoot, steps: seq<FrameStep>, mapping: Word64)
    requires Tracked(steps, root.FrameView?) && HarmlessPath(root, steps)
    ensures RightInEveryPart(root, steps, mapping)
  {
    hide Tracked, Harmless, ReadsLength, FrameBase, Meant, HeldSteps, HeldPath, MeantPath, FrameStepsCode, FrameAddressCode, RunsRight, PathRunsRight, Reg;
    forall j | 0 <= j <= |steps| ensures PathIsRight(root, steps[..j], mapping) {
      Prefix(steps, j, root.FrameView?);
      forall s, w ensures PathRunsRight(root, steps[..j], mapping, s, w) {
        HarmlessPathRunsRight(root, steps[..j], mapping, s, w);
      }
    }
    forall i, j | 0 <= i <= j <= |steps| ensures PartIsRight(steps[i..j], ViewAt(steps, i, root.FrameView?), mapping) {
      var view := ViewAt(steps, i, root.FrameView?);
      Suffix(steps, i, root.FrameView?);
      Prefix(steps[i..], j - i, view);
      assert steps[i..][..j - i] == steps[i..j];
      forall s, w, length: Option<Word64> | length.Some? == view ensures RunsRight(steps[i..j], length, mapping, s, w) {
        HarmlessRunsRight(steps[i..j], length, mapping, s, w);
      }
    }
  }

  lemma HarmlessRunsRight(steps: seq<FrameStep>, length: Option<Word64>, mapping: Word64, s: State, w: World)
    requires Tracked(steps, length.Some?) && Harmless(steps)
    ensures RunsRight(steps, length, mapping, s, w)
  {
    hide Tracked, Harmless, ReadsLength, FrameBase, Meant, HeldSteps, FrameStepsCode;
    if FrameStepsCode(steps, mapping).Ok? && (length.Some? ==> Reg(s, LENGTH) == length.value) {
      AgreementRunsRight(steps, length, mapping, s, w);
      HarmlessStepsAgree(steps, Holding(s), length, FrameBase(s, mapping, w), w.memory);
    }
  }

  lemma HarmlessPathRunsRight(root: FrameRoot, steps: seq<FrameStep>, mapping: Word64, s: State, w: World)
    requires Tracked(steps, root.FrameView?) && HarmlessPath(root, steps)
    ensures PathRunsRight(root, steps, mapping, s, w)
  {
    hide Tracked, HarmlessPath, FrameBase, MeantPath, HeldPath, FrameAddressCode;
    if FrameAddressCode(root, steps, mapping).Ok? {
      AgreementPathRunsRight(root, steps, mapping, s, w);
      HarmlessPathAgrees(root, steps, Reg(s, LENGTH), FrameBase(s, mapping, w), w.memory);
    }
  }

  // ---------------------------------------------------------------- harmful paths are wrong somewhere

  /// A world in which every doubleword is `c`.
  function Flat(c: Word64): World {
    World(_ => c, _ => 0)
  }

  function StateOf(h: Held): State {
    State(map[DESTINATION := h.address, LENGTH := h.length], CodeWords.Flags(false, false, false, false), 0, 0)
  }

  predicate Differs(steps: seq<FrameStep>, h: Held, length: Option<Word64>, c: Word64) {
    && (length.Some? ==> h.length == length.value)
    && !Agrees(HeldSteps(steps, h, c, Flat(c).memory), Meant(steps, h.address, length, c, Flat(c).memory))
  }

  lemma DifferenceIsWrong(steps: seq<FrameStep>, h: Held, length: Option<Word64>, c: Word64, mapping: Word64)
    requires FrameStepsCode(steps, mapping).Ok? && Differs(steps, h, length, c)
    ensures !PartIsRight(steps, length.Some?, mapping)
  {
    hide HeldSteps, Meant, FrameStepsCode, RunsRight;
    var s, w := StateOf(h), Flat(c);
    assert Holding(s) == h && FrameBase(s, mapping, w) == c;
    AgreementRunsRight(steps, length, mapping, s, w);
    assert !RunsRight(steps, length, mapping, s, w);
  }

  function Back(x: Word64, p: Word64): (r: Word64)
    ensures Sum(r, p) == x
  {
    if x >= p then x - p else x - p + M64
  }

  lemma SumsDiffer(a: Word64, b: Word64, x: int)
    ensures Sum(a, x) == Sum(b, x) <==> a == b
  {
    if Sum(a, x) == Sum(b, x) {
      RemaindersOfSumsDiffer(a, b, x, M64);
    }
  }

  /// The index step that reads the length.
  function ReadAt(steps: seq<FrameStep>): (k: nat)
    requires ReadsLength(steps)
    ensures k < |steps| && Compares(steps[k])
    decreases |steps|
  {
    if Compares(steps[0]) then 0 else 1 + ReadAt(steps[1..])
  }

  function IndexIn(step: FrameStep, c: Word64): Word64
    requires step.FrameIndexStep?
  {
    if step.index.FrameConstant? then step.index.constant else c
  }

  /// Up to the index, only the two lengths decide.
  lemma {:induction false} LengthDecides(steps: seq<FrameStep>, h: Held, at: Word64, l: Word64, c: Word64)
    requires ReadsLength(steps) && Harmless(steps)
    ensures var k := ReadAt(steps);
            && (HeldSteps(steps[..k + 1], h, c, Flat(c).memory).None? <==> IndexIn(steps[k], c) >= h.length)
            && (Meant(steps[..k + 1], at, Some(l), c, Flat(c).memory).Trapped? <==> IndexIn(steps[k], c) >= l)
    decreases |steps|
  {
    var k, memory := ReadAt(steps), Flat(c).memory;
    var part := steps[..k + 1];
    var g, m := HeldStep(steps[0], h, c, memory), MeantStep(steps[0], at, Some(l), c, memory);
    hide ScaledOffset, Encodable, Sum;
    if Compares(steps[0]) {
      assert part[1..] == [];
    } else {
      assert part[1..] == steps[1..][..k];
      LengthDecides(steps[1..], g.value, m.address, l, c);
    }
  }

  /// Which lengths tell an index with a wide offset in the register from one with the view's length.
  function TellingLength(step: FrameStep, stale: Word64): Word64
    requires step.FrameIndexStep?
  {
    if step.index.FrameConstant? && step.index.constant >= stale then M64 - 1 else 0
  }

  lemma LengthTells(step: FrameStep, stale: Word64)
    requires Compares(step) && stale > 0
    ensures IndexIn(step, 0) >= stale <==> !(IndexIn(step, 0) >= TellingLength(step, stale))
  {
  }

  /// A wide offset under a view whose length is read.
  lemma OffsetDiffers(steps: seq<FrameStep>) returns (j: nat, h: Held)
    requires steps != [] && steps[0].FrameOffset? && HitsLength(steps[0]) && ReadsLength(steps[1..]) && Harmless(steps[1..])
    ensures j <= |steps| && Differs(steps[..j], h, Some(h.length), 0)
  {
    var rest, o := steps[1..], steps[0].offset;
    var k := ReadAt(rest);
    j := k + 2;
    h := Held(0, TellingLength(rest[k], o));
    LengthTells(rest[k], o);
    LengthDecides(rest, AfterOffset(o, h), Sum(0, o), h.length, 0);
    assert steps[..j][1..] == rest[..k + 1];
    hide Sum, ReadsLength, Harmless;
  }

  /// A wide pointer offset of a view whose length is read.
  lemma ViewDiffers(steps: seq<FrameStep>, length: Option<Word64>) returns (j: nat, h: Held, c: Word64)
    requires steps != [] && steps[0].FrameViewDereference? && HitsLength(steps[0]) && ReadsLength(steps[1..]) && Harmless(steps[1..])
    ensures j <= |steps| && (length.Some? ==> h.length == length.value) && Differs(steps[..j], h, length, c)
  {
    var rest, p := steps[1..], steps[0].pointerOffset;
    var k := ReadAt(rest);
    j := k + 2;
    c := if rest[k].index.FrameConstant? then M64 - 1 else 0;
    var stale: Word64 := if rest[k].index.FrameConstant? then 0 else 1;
    h := Held(Back(stale, p), if length.Some? then length.value else 0);
    LengthDecides(rest, Held(c, stale), c, c, c);
    assert steps[..j][1..] == rest[..k + 1];
    hide Sum, ReadsLength, Harmless;
  }

  lemma OneStep(step: FrameStep, h: Held, length: Option<Word64>, base: Word64, memory: Word64 -> Word64)
    ensures HeldSteps([step], h, base, memory) == HeldStep(step, h, base, memory)
    ensures Meant([step], h.address, length, base, memory) == MeantStep(step, h.address, length, base, memory)
  {
    assert [step][1..] == [];
    hide HeldStep, MeantStep;
  }

  function OtherAddress(o: Word64): Held {
    Held(if o == 0 then 1 else 0, M64 - 1)
  }

  /// A wide frame word replaces the address by its own offset.
  lemma WordDiffers(o: Word64, length: Option<Word64>)
    requires !ScaledOffset(o)
    ensures HeldStep(OffsetFrame(o), OtherAddress(o), 0, Flat(0).memory).value.address == o
    ensures MeantStep(OffsetFrame(o), OtherAddress(o).address, length, 0, Flat(0).memory) == At(OtherAddress(o).address, length)
  {
    WordIsLow(o);
    WordIsLow(OtherAddress(o).address);
    hide Sum, ScaledOffset;
  }

  lemma IndexDiffers(step: FrameStep, length: Option<Word64>)
    requires HitsAddress(step) && step.FrameIndexStep? && (step.bound.CurrentView? ==> length == Some(M64 - 1))
    ensures var o := step.index.offset;
            && HeldStep(step, OtherAddress(o), 0, Flat(0).memory).Some?
            && HeldStep(step, OtherAddress(o), 0, Flat(0).memory).value.address == o
            && MeantStep(step, OtherAddress(o).address, length, 0, Flat(0).memory) == At(OtherAddress(o).address, None)
  {
    hide Sum, ScaledOffset, IndexMeaning, HeldIndex;
    var o := step.index.offset;
    FirstElement(OtherAddress(o).address, length, step.stride, step.bound, step.check);
    FirstHeld(o, OtherAddress(o), step.stride, step.bound, step.check);
  }

  lemma FirstElement(at: Word64, length: Option<Word64>, stride: Word64, bound: Bound, check: Check)
    requires !check.ProvenTrap? && !(check.Required? && bound == Fixed(0)) && (bound.CurrentView? ==> length == Some(M64 - 1))
    ensures IndexMeaning(at, length, 0, stride, bound, check) == At(at, None)
  {
    hide Sum;
    assert 0 * stride == 0;
    WordIsLow(at);
  }

  lemma FirstHeld(o: Word64, h: Held, stride: Word64, bound: Bound, check: Check)
    requires !ScaledOffset(o) && !check.ProvenTrap? && !(check.Required? && bound == Fixed(0))
    ensures HeldIndex(FrameWordIndex(o), stride, bound, check, h, 0, Flat(0).memory) == Some(Held(o, o))
  {
    assert o > 0;
    hide Sum, ScaledOffset;
    assert 0 * stride == 0;
    WordIsLow(o);
    SumFromZero(o);
  }

  lemma SumFromZero(o: Word64)
    ensures Sum(0, o) == o
  {
  }

  lemma AddressDiffers(step: FrameStep, length: Option<Word64>) returns (h: Held)
    requires HitsAddress(step) && (step.FrameIndexStep? && step.bound.CurrentView? ==> length.Some?)
    requires length.Some? ==> length.value == M64 - 1
    ensures Differs([step], h, length, 0)
  {
    var o := if step.OffsetFrame? then step.offset else step.index.offset;
    h := OtherAddress(o);
    OneStep(step, h, length, 0, Flat(0).memory);
    if step.OffsetFrame? {
      WordDiffers(o, length);
    } else {
      IndexDiffers(step, length);
    }
    hide HeldStep, MeantStep, HeldSteps, Meant, ScaledOffset;
  }

  lemma {:induction false} PartsCode(steps: seq<FrameStep>, i: nat, j: nat, mapping: Word64)
    requires i <= j <= |steps| && FrameStepsCode(steps, mapping).Ok?
    ensures FrameStepsCode(steps[i..j], mapping).Ok?
    decreases j
  {
    hide FrameStepCode;
    if j > 0 {
      if i == 0 {
        PartsCode(steps[1..], 0, j - 1, mapping);
        assert steps[0..j][1..] == steps[1..][0..j - 1];
      } else {
        PartsCode(steps[1..], i - 1, j - 1, mapping);
        assert steps[1..][i - 1..j - 1] == steps[i..j];
      }
    }
  }

  lemma {:induction false} HarmIsWrong(steps: seq<FrameStep>, view: bool, mapping: Word64) returns (i: nat, j: nat)
    requires Tracked(steps, view) && !Harmless(steps) && FrameStepsCode(steps, mapping).Ok?
    ensures i <= j <= |steps| && !PartIsRight(steps[i..j], ViewAt(steps, i, view), mapping)
    decreases |steps|
  {
    hide FrameStepCode, HitsAddress, HitsLength, ReadsLength, PartIsRight, Differs;
    i := 0;
    var top: Word64 := M64 - 1;
    var length: Option<Word64> := if view then Some(top) else None;
    if HitsAddress(steps[0]) {
      j := 1;
      var h := AddressDiffers(steps[0], length);
      assert steps[0..1] == [steps[0]];
      PartsCode(steps, 0, 1, mapping);
      DifferenceIsWrong(steps[0..1], h, length, 0, mapping);
    } else if !Harmless(steps[1..]) {
      var p, q := HarmIsWrong(steps[1..], ViewAfter(steps[0], view), mapping);
      i, j := p + 1, q + 1;
      assert steps[1..][p..q] == steps[i..j];
    } else if steps[0].FrameOffset? {
      ViewIsRead(steps[1..], view);
      var k, h := OffsetDiffers(steps);
      j := k;
      assert steps[0..j] == steps[..j];
      PartsCode(steps, 0, j, mapping);
      DifferenceIsWrong(steps[0..j], h, Some(h.length), 0, mapping);
    } else {
      LengthHitters(steps[0]);
      var k, h, c := ViewDiffers(steps, length);
      j := k;
      assert steps[0..j] == steps[..j];
      PartsCode(steps, 0, j, mapping);
      DifferenceIsWrong(steps[0..j], h, length, c, mapping);
    }
  }

  lemma LengthHitters(step: FrameStep)
    ensures HitsLength(step) ==> step.FrameOffset? || step.FrameViewDereference?
  {
  }

  /// Where a length is read, there is a view.
  lemma {:induction false} ViewIsRead(steps: seq<FrameStep>, view: bool)
    requires Tracked(steps, view) && ReadsLength(steps)
    ensures view
    decreases |steps|
  {
    if !Compares(steps[0]) {
      ViewIsRead(steps[1..], view);
    }
  }

  /// A view root whose wide pointer word takes the length that is read.
  lemma RootDiffers(root: FrameRoot, steps: seq<FrameStep>) returns (j: nat, c: Word64)
    requires root.FrameView? && root.field + root.pointerOffset < M64 && !ScaledOffset(root.field + root.pointerOffset)
    requires ReadsLength(steps) && Harmless(steps)
    ensures j <= |steps| && forall length: Word64 ::
              !Agrees(HeldPath(root, steps[..j], length, c, Flat(c).memory), MeantPath(root, steps[..j], c, Flat(c).memory))
  {
    var k, offset := ReadAt(steps), root.field + root.pointerOffset;
    j := k + 1;
    c := if steps[k].index.FrameConstant? && steps[k].index.constant >= offset - 1 then M64 - 1 else 0;
    TopWraps(offset);
    WordIsLow(offset);
    LengthDecides(steps, Held(c, Sum(c, offset)), c, c, c);
    hide Sum, ReadsLength, Harmless, ScaledOffset;
  }

  lemma TopWraps(offset: Word64)
    requires offset > 0
    ensures Sum(M64 - 1, offset) == offset - 1
  {
    RemaindersRepeat(offset - 1);
  }

  lemma RemaindersRepeat(x: Word64)
    ensures (x + M64) % M64 == x
  {
  }

  lemma HarmfulRootIsWrong(root: FrameRoot, steps: seq<FrameStep>, mapping: Word64) returns (j: nat)
    requires FrameAddressCode(root, steps, mapping).Ok? && !HarmlessPath(root, steps) && Harmless(steps)
    ensures j <= |steps| && !PathIsRight(root, steps[..j], mapping)
  {
    hide ReadsLength, Harmless, HeldPath, MeantPath, FrameStepsCode, PathRunsRight;
    var k, c := RootDiffers(root, steps);
    j := k;
    PartsCode(steps, 0, j, mapping);
    assert steps[0..j] == steps[..j];
    var s, w := StateOf(Held(0, 0)), Flat(c);
    assert FrameBase(s, mapping, w) == c;
    AgreementPathRunsRight(root, steps[..j], mapping, s, w);
    assert !PathRunsRight(root, steps[..j], mapping, s, w);
  }

  /// Every part of a path is right in every state and world if and only if no wide offset is
  /// materialized in a register that is read later.
  lemma PathIsRightExactlyWhenHarmless(root: FrameRoot, steps: seq<FrameStep>, mapping: Word64)
    requires Tracked(steps, root.FrameView?) && FrameAddressCode(root, steps, mapping).Ok?
    ensures RightInEveryPart(root, steps, mapping) <==> HarmlessPath(root, steps)
  {
    hide ReadsLength, Harmless, FrameStepsCode, PathIsRight, PartIsRight, Tracked, ViewAt;
    if HarmlessPath(root, steps) {
      HarmlessPartsAreRight(root, steps, mapping);
    } else if Harmless(steps) {
      var j := HarmfulRootIsWrong(root, steps, mapping);
      assert !RightInEveryPart(root, steps, mapping);
    } else {
      var i, j := HarmIsWrong(steps, root.FrameView?, mapping);
      assert !RightInEveryPart(root, steps, mapping);
    }
  }

  // ---------------------------------------------------------------- when one wide step is right

  lemma StepRuns(step: FrameStep, mapping: Word64, s: State, w: World) returns (t: State)
    requires FrameStepCode(step, mapping).Ok?
    ensures var h, result := HeldStep(step, Holding(s), FrameBase(s, mapping, w), w.memory), Exec2(FrameStepCode(step, mapping).value, s, w);
            if h.None? then result == Trap else result == Done(t) && Holding(t) == h.value
  {
    hide FrameStepCode, HeldStep, FrameBase, Holding, Exec2, FrameKept;
    var code := FrameStepCode(step, mapping).value;
    t := StepLeads(step, mapping, s, w, []);
    assert code + [] == code;
    ExecDone(t, w);
  }

  /// An offset keeps the length of the current view exactly when it can be encoded, or is that length.
  lemma ViewSurvivesAnOffset(offset: Word64, mapping: Word64, s: State, w: World) returns (t: State)
    ensures Exec2(FrameStepCode(FrameOffset(offset), mapping).value, s, w) == Done(t)
    ensures Reg(t, DESTINATION) == Sum(Reg(s, DESTINATION), offset)
    ensures Reg(t, LENGTH) == Reg(s, LENGTH) <==> Encodable(offset) || Reg(s, LENGTH) == offset
  {
    hide Exec2, Reg, Sum, Encodable, AddOffset;
    t := StepRuns(FrameOffset(offset), mapping, s, w);
  }

  /// Adding a word of the frame to the address is right exactly when the word is at a narrow offset,
  /// or the address happens to be that offset.
  lemma FrameWordIsAddedExactly(offset: Word64, mapping: Word64, s: State, w: World) returns (t: State)
    ensures Exec2(FrameStepCode(OffsetFrame(offset), mapping).value, s, w) == Done(t)
    ensures Reg(t, DESTINATION) == Sum(Reg(s, DESTINATION), w.memory(Sum(FrameBase(s, mapping, w), offset)))
            <==> ScaledOffset(offset) || Reg(s, DESTINATION) == offset
  {
    hide Exec2, Reg, Sum, ScaledOffset, FrameWord, FrameBase;
    t := StepRuns(OffsetFrame(offset), mapping, s, w);
    SumsDiffer(offset, Reg(s, DESTINATION), w.memory(Sum(FrameBase(s, mapping, w), offset)));
  }

  /// A view's length survives the load of its pointer exactly when the pointer is at a narrow offset,
  /// or the length happens to be the pointer's address.
  lemma ViewDereferenceKeepsItsLength(pointer: Word64, size: Word64, mapping: Word64, s: State, w: World) returns (t: State)
    ensures Exec2(FrameStepCode(FrameViewDereference(pointer, size), mapping).value, s, w) == Done(t)
    ensures Reg(t, DESTINATION) == w.memory(Sum(Reg(s, DESTINATION), pointer))
    ensures var length := w.memory(Sum(Reg(s, DESTINATION), size));
            Reg(t, LENGTH) == length <==> ScaledOffset(pointer) || length == Sum(Reg(s, DESTINATION), pointer)
  {
    hide Exec2, Reg, Sum, ScaledOffset, LoadNative, FrameBase;
    t := StepRuns(FrameViewDereference(pointer, size), mapping, s, w);
  }

  /// The same for a view in the frame.
  lemma ViewRootKeepsItsLength(field: Word64, pointer: Word64, size: Word64, mapping: Word64, s: State, w: World)
    requires field + pointer < M64 && field + size < M64
    ensures AllStraight(FrameRootCode(FrameView(field, pointer, size), mapping).value)
    ensures var t, base := After(FrameRootCode(FrameView(field, pointer, size), mapping).value, s, w), FrameBase(s, mapping, w);
            var length := w.memory(Sum(base, field + size));
            && Reg(t, DESTINATION) == w.memory(Sum(base, field + pointer))
            && (Reg(t, LENGTH) == length <==> ScaledOffset(field + pointer) || length == Sum(base, field + pointer))
  {
    hide After, AllStraight, Reg, Sum, ScaledOffset, FrameWord, FrameBase, Touches;
    RootComputes(FrameView(field, pointer, size), mapping, s, w);
  }

  /// An index at a wide offset is compared with its own address instead of the view's length, and
  /// added to its offset instead of the path's address.
  predicate IndexSurvives(i: Word64, offset: Word64, at: Word64, length: Option<Word64>, base: Word64, bound: Bound, check: Check) {
    if !check.Required? then at == offset
    else if bound.Fixed? then i >= bound.length || at == offset
    else length.Some? && (i >= length.value <==> i >= Sum(base, offset)) && (i >= length.value || at == offset)
  }

  /// An index from the frame is right exactly when it is at a narrow offset, or that changes nothing.
  lemma FrameIndexIsExact(offset: Word64, stride: Word64, bound: Bound, check: Check, length: Option<Word64>, mapping: Word64, s: State, w: World)
    requires !check.ProvenTrap? && (bound.CurrentView? ==> length.Some?) && (length.Some? ==> Reg(s, LENGTH) == length.value)
    ensures var base := FrameBase(s, mapping, w);
            RunsRight([FrameIndexStep(FrameWordIndex(offset), stride, bound, check)], length, mapping, s, w) <==>
            ScaledOffset(offset) || IndexSurvives(w.memory(Sum(base, offset)), offset, Reg(s, DESTINATION), length, base, bound, check)
  {
    hide Exec2, Reg, Sum, ScaledOffset, FrameBase, HeldSteps, Meant, FrameStepsCode, FrameStepCode, RunsRight, HeldIndex, IndexMeaning, IndexSurvives, Agrees;
    var step, base := FrameIndexStep(FrameWordIndex(offset), stride, bound, check), FrameBase(s, mapping, w);
    FrameWordsHaveCode(offset, stride, bound, check, mapping);
    OneCode(step, mapping);
    AgreementRunsRight([step], length, mapping, s, w);
    OneStep(step, Holding(s), length, base, w.memory);
    IndexAgrees(offset, stride, bound, check, Holding(s), length, base, w.memory);
  }

  lemma FrameWordsHaveCode(offset: Word64, stride: Word64, bound: Bound, check: Check, mapping: Word64)
    ensures FrameStepCode(FrameIndexStep(FrameWordIndex(offset), stride, bound, check), mapping).Ok?
  {
    hide LoadIndex, FrameBoundCode, AdvanceFrame;
  }

  lemma IndexAgrees(offset: Word64, stride: Word64, bound: Bound, check: Check, h: Held, length: Option<Word64>, base: Word64, memory: Word64 -> Word64)
    requires !check.ProvenTrap? && (bound.CurrentView? ==> length.Some?) && (length.Some? ==> h.length == length.value)
    ensures var i := memory(Sum(base, offset));
            Agrees(HeldIndex(FrameWordIndex(offset), stride, bound, check, h, base, memory), IndexMeaning(h.address, length, i, stride, bound, check)) <==>
            ScaledOffset(offset) || IndexSurvives(i, offset, h.address, length, base, bound, check)
  {
    hide Sum, ScaledOffset;
    SumsDiffer(offset, h.address, memory(Sum(base, offset)) * stride);
  }

  lemma OneCode(step: FrameStep, mapping: Word64)
    requires FrameStepCode(step, mapping).Ok?
    ensures FrameStepsCode([step], mapping).Ok?
  {
    assert [step][1..] == [];
    hide FrameStepCode;
  }

  // ---------------------------------------------------------------- a path that goes wrong

  /// A word behind the first 32760 bytes of the heap frame, and a stack object at its start.
  function FarScope(): FrameScope {
    FrameScope(map[0 := FrameField(0x8000, 8)], {0}, map[0 := FrameField(0, 8)])
  }

  /// The stack object's address plus the word.
  function FarAddress(): Address {
    Address(StackRoot(0), [OffsetValue(0)], false)
  }

  lemma FarAddressIsSelected(mapping: Word64)
    ensures SelectFrameAddress(FarScope(), FarAddress()) == Ok((InFrame(0), [OffsetFrame(0x8000)]))
    ensures FrameAddressCode(InFrame(0), [OffsetFrame(0x8000)], mapping).Ok?
  {
    var step := OffsetFrame(0x8000);
    assert SelectFrameSteps(FarScope(), [], false) == Ok([]);
    assert [OffsetValue(0)][1..] == [];
    assert SelectFrameStep(FarScope(), OffsetValue(0), false) == Ok((step, false));
    assert [step] + [] == [step];
    OneCode(step, mapping);
    hide LoadStack, LoadNative, AddOffset;
  }

  /// Its code adds the word to 0x8000. That is the denoted address only if the frame lies there.
  lemma FarFieldLosesTheAddress(env: Env, mapping: Word64, s: State, w: World) returns (t: State)
    requires FrameCarries(FarScope(), env, FrameBase(s, mapping, w), w)
    ensures SelectFrameAddress(FarScope(), FarAddress()) == Ok((InFrame(0), [OffsetFrame(0x8000)]))
    ensures FrameAddressCode(InFrame(0), [OffsetFrame(0x8000)], mapping).Ok?
    ensures Exec2(FrameAddressCode(InFrame(0), [OffsetFrame(0x8000)], mapping).value, s, w) == Done(t)
    ensures Reg(t, FIRST) == Sum(0x8000, env.words(0, 0))
    ensures Denotes(FarAddress(), env) == At(Sum(FrameBase(s, mapping, w), env.words(0, 0)), None)
    ensures Denotes(FarAddress(), env) == At(Reg(t, FIRST), None) <==> FrameBase(s, mapping, w) == 0x8000
  {
    hide Exec2, Reg, Sum, FrameBase, FrameAddressCode, SelectFrameAddress, FrameCarries;
    var base := FrameBase(s, mapping, w);
    FarAddressIsSelected(mapping);
    t := AddressCodeComputes(InFrame(0), [OffsetFrame(0x8000)], mapping, s, w);
    FarWordCarried(env, base, w);
    WordIsLow(base);
    assert [OffsetValue(0)][1..] == [] && [OffsetFrame(0x8000)][1..] == [];
    SumsDiffer(base, 0x8000, env.words(0, 0));
  }

  lemma FarWordCarried(env: Env, base: Word64, w: World)
    requires FrameCarries(FarScope(), env, base, w)
    ensures env.words(0, 0) == w.memory(Sum(base, 0x8000)) && env.stack(0) == Sum(base, 0)
  {
    WordCarried(FarScope(), 0, env, base, w);
  }
}
