/**
 Which addresses are selected and which selected addresses have code: for ordinary code, and for the
 cancel entry of a deferred function.
 */
module AddressAcceptance {
  import opened Results
  import opened ByteRanges
  import opened ValuePlan
  import opened Isa
  import opened Addresses
  import opened AddressCode
  import opened CancelAddress

  // ---------------------------------------------------------------- the current view

  /// There is no current view behind such a step.
  predicate EndsView(step: Step) {
    step.Dereference? || step.IndexStep?
  }

  predicate KeepsView(steps: seq<Step>, from: nat, to: nat) {
    forall i | from <= i < to && i < |steps| :: !EndsView(steps[i])
  }

  /// In front of step `k` there is a current view: a view root or a view dereference gave it, and no step
  /// since then ended it.
  predicate HasView(steps: seq<Step>, k: nat, atRoot: bool) {
    || (atRoot && KeepsView(steps, 0, k))
    || exists j: nat :: j < k && j < |steps| && steps[j].ViewDereference? && KeepsView(steps, j + 1, k)
  }

  lemma ViewBehindStep(steps: seq<Step>, k: nat, atRoot: bool)
    requires k < |steps|
    ensures HasView(steps, k + 1, atRoot)
            <==> steps[k].ViewDereference? || (!EndsView(steps[k]) && HasView(steps, k, atRoot))
  {
    if steps[k].ViewDereference? {
      assert KeepsView(steps, k + 1, k + 1);
    } else if HasView(steps, k + 1, atRoot) {
      if !(atRoot && KeepsView(steps, 0, k + 1)) {
        var j: nat :| j < k + 1 && j < |steps| && steps[j].ViewDereference? && KeepsView(steps, j + 1, k + 1);
        assert KeepsView(steps, j + 1, k);
      }
    } else if !EndsView(steps[k]) && HasView(steps, k, atRoot) {
      if atRoot && KeepsView(steps, 0, k) {
        assert KeepsView(steps, 0, k + 1);
      } else {
        var j: nat :| j < k && j < |steps| && steps[j].ViewDereference? && KeepsView(steps, j + 1, k);
        assert KeepsView(steps, j + 1, k + 1);
      }
    }
  }

  lemma ViewInFront(steps: seq<Step>, atRoot: bool)
    ensures HasView(steps, 0, atRoot) <==> atRoot
  {
  }

  /// Behind the first step the same question is asked of the rest.
  lemma {:induction false} ViewOfTheRest(steps: seq<Step>, k: nat, atRoot: bool)
    requires steps != [] && k < |steps|
    ensures HasView(steps[1..], k, HasView(steps, 1, atRoot)) <==> HasView(steps, k + 1, atRoot)
  {
    hide HasView, EndsView;
    if k == 0 {
      ViewInFront(steps[1..], HasView(steps, 1, atRoot));
    } else {
      ViewOfTheRest(steps, k - 1, atRoot);
      ViewBehindStep(steps, k, atRoot);
      ViewBehindStep(steps[1..], k - 1, HasView(steps, 1, atRoot));
    }
  }

  // ---------------------------------------------------------------- selection

  /// A value in a single general register.
  predicate IsWord(s: Scope, value: nat) {
    value < |s.storage| && s.storage[value].Direct? && |s.storage[value].registers| == 1
  }

  /// An index bounded by the current view needs one.
  predicate StepAccepted(s: Scope, step: Step, view: bool) {
    match step
    case OffsetValue(value) => IsWord(s, value)
    case IndexStep(index, _, bound, _) => (index.FromValue? ==> IsWord(s, index.value)) && (bound.CurrentView? ==> view)
    case _ => true
  }

  predicate StepsAccepted(s: Scope, steps: seq<Step>, atRoot: bool) {
    forall k: nat | k < |steps| :: StepAccepted(s, steps[k], HasView(steps, k, atRoot))
  }

  predicate IsLane(offset: nat, count: nat) {
    offset % WORD_SIZE == 0 && offset < WORD_SIZE * count
  }

  predicate RootAccepted(s: Scope, root: Root) {
    match root
    case StackRoot(stack) => stack in s.persistent || stack in s.objects
    case DataRoot(_) => true
    case PointerRoot(value) => IsWord(s, value)
    case ViewRoot(value, pointer, length) =>
      && value < |s.storage| && s.storage[value].Direct?
      && IsLane(pointer, |s.storage[value].registers|) && IsLane(length, |s.storage[value].registers|)
  }

  lemma LaneIsExact(offset: Word64, count: nat)
    ensures DirectLane(offset, count).Ok? <==> IsLane(offset, count)
  {
  }

  lemma RootIsExact(s: Scope, root: Root)
    ensures SelectRoot(s, root).Ok? <==> RootAccepted(s, root)
    ensures SelectRoot(s, root).Ok? ==> SelectRoot(s, root).value.1 == root.ViewRoot?
  {
    if root.ViewRoot? && root.value < |s.storage| && s.storage[root.value].Direct? {
      LaneIsExact(root.pointerOffset, |s.storage[root.value].registers|);
      LaneIsExact(root.lengthOffset, |s.storage[root.value].registers|);
      hide DirectLane, IsLane;
    }
  }

  lemma StepIsExact(s: Scope, step: Step, view: bool)
    ensures SelectStep(s, step, view).Ok? <==> StepAccepted(s, step, view)
    ensures SelectStep(s, step, view).Ok? ==> SelectStep(s, step, view).value.1 == (step.ViewDereference? || (!EndsView(step) && view))
  {
  }

  lemma RestIsAccepted(s: Scope, steps: seq<Step>, atRoot: bool)
    requires steps != []
    ensures StepsAccepted(s, steps, atRoot)
            <==> StepAccepted(s, steps[0], atRoot) && StepsAccepted(s, steps[1..], HasView(steps, 1, atRoot))
    ensures HasView(steps[1..], |steps| - 1, HasView(steps, 1, atRoot)) == HasView(steps, |steps|, atRoot)
    ensures HasView(steps, 1, atRoot) == (steps[0].ViewDereference? || (!EndsView(steps[0]) && atRoot))
  {
    hide HasView, StepAccepted, EndsView;
    ViewInFront(steps, atRoot);
    ViewBehindStep(steps, 0, atRoot);
    ViewOfTheRest(steps, |steps| - 1, atRoot);
    forall k: nat | k < |steps| - 1
      ensures StepAccepted(s, steps[1..][k], HasView(steps[1..], k, HasView(steps, 1, atRoot)))
              <==> StepAccepted(s, steps[k + 1], HasView(steps, k + 1, atRoot))
    {
      ViewOfTheRest(steps, k, atRoot);
    }
    assert forall k: nat | 0 < k < |steps| :: steps[k] == steps[1..][k - 1];
    if StepAccepted(s, steps[0], atRoot) && StepsAccepted(s, steps[1..], HasView(steps, 1, atRoot)) {
      forall k: nat | k < |steps| ensures StepAccepted(s, steps[k], HasView(steps, k, atRoot)) {
        if k > 0 { assert StepAccepted(s, steps[1..][k - 1], HasView(steps[1..], k - 1, HasView(steps, 1, atRoot))); }
      }
    }
  }

  lemma {:induction false} StepsAreExact(s: Scope, steps: seq<Step>, view: bool)
    ensures SelectSteps(s, steps, view).Ok? <==> StepsAccepted(s, steps, view)
    ensures SelectSteps(s, steps, view).Ok? ==> SelectSteps(s, steps, view).value.1 == HasView(steps, |steps|, view)
    decreases |steps|
  {
    hide SelectStep, StepAccepted, HasView, EndsView;
    if steps == [] {
      ViewInFront(steps, view);
    } else {
      StepIsExact(s, steps[0], view);
      RestIsAccepted(s, steps, view);
      StepsAreExact(s, steps[1..], HasView(steps, 1, view));
    }
  }

  /// The sum of the first offsets.
  function OffsetSum(steps: seq<Step>, k: nat): nat
    requires k <= |steps|
  {
    if k == 0 then 0 else OffsetSum(steps, k - 1) + if steps[k - 1].Offset? then steps[k - 1].offset else 0
  }

  predicate OnlyOffsets(steps: seq<Step>, k: nat) {
    k <= |steps| && forall j | 0 <= j < k :: steps[j].Offset?
  }

  /// The offsets in front of all other steps exceed a word.
  predicate LeadingOverflow(steps: seq<Step>, offset: nat) {
    exists k: nat :: OnlyOffsets(steps, k) && k <= |steps| && offset + OffsetSum(steps, k) >= M64
  }

  lemma {:induction false} SumOfTheRest(steps: seq<Step>, k: nat)
    requires steps != [] && steps[0].Offset? && k < |steps|
    ensures OffsetSum(steps, k + 1) == steps[0].offset + OffsetSum(steps[1..], k)
  {
    if k > 0 { SumOfTheRest(steps, k - 1); }
  }

  lemma {:induction false} StaticIsExact(steps: seq<Step>, offset: Word64)
    ensures StaticOffset(steps, offset).Err? <==> LeadingOverflow(steps, offset)
    ensures StaticOffset(steps, offset).Ok? ==> (StaticOffset(steps, offset).value.Some? <==> OnlyOffsets(steps, |steps|))
    decreases |steps|
  {
    if steps == [] {
    } else if !steps[0].Offset? {
      assert forall k: nat | OnlyOffsets(steps, k) :: k == 0;
      assert !OnlyOffsets(steps, |steps|);
    } else {
      var first, rest := steps[0].offset, steps[1..];
      SumOfTheRest(steps, 0);
      assert OnlyOffsets(steps, 1) && OffsetSum(steps, 1) == first;
      if offset + first < M64 {
        StaticIsExact(rest, offset + first);
        OverflowOfTheRest(steps, offset);
        assert OnlyOffsets(rest, |rest|) <==> OnlyOffsets(steps, |steps|) by { RestIsOffsets(steps, |rest|); }
      }
    }
  }

  lemma RestIsOffsets(steps: seq<Step>, k: nat)
    requires steps != [] && steps[0].Offset? && k < |steps|
    ensures OnlyOffsets(steps[1..], k) <==> OnlyOffsets(steps, k + 1)
  {
    if OnlyOffsets(steps[1..], k) {
      forall j | 0 <= j < k + 1 ensures steps[j].Offset? {
        if j > 0 { assert steps[1..][j - 1].Offset?; }
      }
    }
  }

  lemma OverflowOfTheRest(steps: seq<Step>, offset: Word64)
    requires steps != [] && steps[0].Offset? && offset + steps[0].offset < M64
    ensures LeadingOverflow(steps, offset) <==> LeadingOverflow(steps[1..], offset + steps[0].offset)
  {
    hide OnlyOffsets;
    var rest := steps[1..];
    if LeadingOverflow(steps, offset) {
      var k: nat :| OnlyOffsets(steps, k) && k <= |steps| && offset + OffsetSum(steps, k) >= M64;
      SumOfTheRest(steps, k - 1);
      RestIsOffsets(steps, k - 1);
      assert OnlyOffsets(rest, k - 1);
    }
    if LeadingOverflow(rest, offset + steps[0].offset) {
      var k: nat :| OnlyOffsets(rest, k) && k <= |rest| && offset + steps[0].offset + OffsetSum(rest, k) >= M64;
      SumOfTheRest(steps, k);
      RestIsOffsets(steps, k);
      assert OnlyOffsets(steps, k + 1);
    }
  }

  /// A stack object of the activation's own frame.
  predicate OnStack(s: Scope, root: Root) {
    root.StackRoot? && root.stack !in s.persistent
  }

  /// MAIN RESULT. An address is selected exactly when its root and the values of its steps are where they
  /// must be, every index that is bounded by the current view has one, the end has a view as expected,
  /// and the offsets in front of a path on the stack fit a word. A path of offsets on the stack expects nothing.
  lemma SelectionIsExact(s: Scope, a: Address)
    ensures Select(s, a).Ok? <==>
            && RootAccepted(s, a.root)
            && (OnStack(s, a.root) ==> !LeadingOverflow(a.steps, 0))
            && ((OnStack(s, a.root) && OnlyOffsets(a.steps, |a.steps|))
                || (StepsAccepted(s, a.steps, a.root.ViewRoot?) && HasView(a.steps, |a.steps|, a.root.ViewRoot?) == a.expectsView))
  {
    hide StepsAccepted, HasView, LeadingOverflow, OnlyOffsets, SelectSteps, StaticOffset, SelectRoot;
    StaticIsExact(a.steps, 0);
    RootIsExact(s, a.root);
    StepsAreExact(s, a.steps, a.root.ViewRoot?);
  }

  // ---------------------------------------------------------------- emission

  predicate StepHasCode(l: Layout, step: SelectedStep) {
    match step
    case OffsetRegister(r) => r < |l.locations|
    case SelectedIndexStep(ConstantIndex(i), stride, _, check) => check.ProvenInBounds? ==> i * stride < M64
    case SelectedIndexStep(RegisterIndex(r), _, _, check) => !check.ProvenTrap? ==> r < |l.locations|
    case _ => true
  }

  predicate RootHasCode(l: Layout, root: SelectedRoot) {
    match root
    case FrameObject(o) => o in l.objects
    case AsyncField(_) => l.heapFramePointer.Some?
    case DataAddress(d) => d in l.data
    case Pointer(r) => r < |l.locations|
    case View(pointer, length) => pointer < |l.locations| && length < |l.locations|
  }

  lemma StepCodeIsExact(l: Layout, step: SelectedStep)
    ensures StepCode(l, step).Ok? <==> StepHasCode(l, step)
  {
    hide AddOffset, ReadRegister, Immediate, BoundCode, AddressCode.Advance, LoadNative;
  }

  lemma {:induction false} StepsCodeIsExact(l: Layout, steps: seq<SelectedStep>)
    ensures StepsCode(l, steps).Ok? <==> forall k | 0 <= k < |steps| :: StepHasCode(l, steps[k])
  {
    hide StepCode, StepHasCode;
    if steps != [] {
      StepCodeIsExact(l, steps[0]);
      StepsCodeIsExact(l, steps[1..]);
      assert forall k | 0 < k < |steps| :: steps[k] == steps[1..][k - 1];
      assert forall k | 0 <= k < |steps| - 1 :: steps[1..][k] == steps[k + 1];
    }
  }

  /// MAIN RESULT. A selected address has code exactly when everything it names has a place, and the
  /// offsets of its constant indices that need no check fit a word.
  lemma ResolutionIsExact(l: Layout, root: SelectedRoot, steps: seq<SelectedStep>)
    ensures ResolveCode(l, root, steps).Ok? <==> RootHasCode(l, root) && forall k | 0 <= k < |steps| :: StepHasCode(l, steps[k])
  {
    StepsCodeIsExact(l, steps);
    hide StepsCode, StepHasCode, AddOffset, LoadStack, FormStackAddress, MoveSelected;
  }

  // ---------------------------------------------------------------- the cancel entry

  /// A word that the state keeps.
  predicate KeepsWord(s: FrameScope, value: nat) {
    value in s.values && value in s.words
  }

  predicate FrameRootAccepted(s: FrameScope, root: Root) {
    match root
    case StackRoot(stack) => stack in s.stacks
    case PointerRoot(value) => KeepsWord(s, value)
    case ViewRoot(value, pointer, length) =>
      value in s.values && pointer + WORD_SIZE <= s.values[value].size && length + WORD_SIZE <= s.values[value].size
    case DataRoot(_) => false
  }

  predicate FrameStepAccepted(s: FrameScope, step: Step, view: bool) {
    match step
    case OffsetValue(value) => KeepsWord(s, value)
    case IndexStep(index, _, bound, _) => (index.FromValue? ==> KeepsWord(s, index.value)) && (bound.CurrentView? ==> view)
    case _ => true
  }

  predicate FrameStepsAccepted(s: FrameScope, steps: seq<Step>, atRoot: bool) {
    forall k: nat | k < |steps| :: FrameStepAccepted(s, steps[k], HasView(steps, k, atRoot))
  }

  lemma FrameStepIsExact(s: FrameScope, step: Step, view: bool)
    ensures SelectFrameStep(s, step, view).Ok? <==> FrameStepAccepted(s, step, view)
    ensures SelectFrameStep(s, step, view).Ok? ==>
              SelectFrameStep(s, step, view).value.1 == (step.ViewDereference? || (!EndsView(step) && view))
  {
  }

  lemma FrameRestIsAccepted(s: FrameScope, steps: seq<Step>, atRoot: bool)
    requires steps != []
    ensures FrameStepsAccepted(s, steps, atRoot)
            <==> FrameStepAccepted(s, steps[0], atRoot) && FrameStepsAccepted(s, steps[1..], HasView(steps, 1, atRoot))
    ensures HasView(steps[1..], |steps| - 1, HasView(steps, 1, atRoot)) == HasView(steps, |steps|, atRoot)
    ensures HasView(steps, 1, atRoot) == (steps[0].ViewDereference? || (!EndsView(steps[0]) && atRoot))
  {
    hide HasView, FrameStepAccepted, EndsView;
    ViewInFront(steps, atRoot);
    ViewBehindStep(steps, 0, atRoot);
    ViewOfTheRest(steps, |steps| - 1, atRoot);
    forall k: nat | k < |steps| - 1
      ensures FrameStepAccepted(s, steps[1..][k], HasView(steps[1..], k, HasView(steps, 1, atRoot)))
              <==> FrameStepAccepted(s, steps[k + 1], HasView(steps, k + 1, atRoot))
    {
      ViewOfTheRest(steps, k, atRoot);
    }
    if FrameStepAccepted(s, steps[0], atRoot) && FrameStepsAccepted(s, steps[1..], HasView(steps, 1, atRoot)) {
      forall k: nat | k < |steps| ensures FrameStepAccepted(s, steps[k], HasView(steps, k, atRoot)) {
        if k > 0 { assert FrameStepAccepted(s, steps[1..][k - 1], HasView(steps[1..], k - 1, HasView(steps, 1, atRoot))); }
      }
    }
  }

  lemma {:induction false} FrameStepsAreExact(s: FrameScope, steps: seq<Step>, view: bool)
    ensures SelectFrameSteps(s, steps, view).Ok? <==> FrameStepsAccepted(s, steps, view) && !HasView(steps, |steps|, view)
    decreases |steps|
  {
    hide SelectFrameStep, FrameStepAccepted, HasView, EndsView;
    if steps == [] {
      ViewInFront(steps, view);
    } else {
      FrameStepIsExact(s, steps[0], view);
      FrameRestIsAccepted(s, steps, view);
      FrameStepsAreExact(s, steps[1..], HasView(steps, 1, view));
    }
  }

  /// MAIN RESULT. The cancel entry selects an address exactly when it needs nothing but what the state
  /// keeps, has no view at its end, and bounds indices by the current view only where there is one.
  lemma FrameSelectionIsExact(s: FrameScope, a: Address)
    ensures SelectFrameAddress(s, a).Ok? <==>
            && !a.expectsView && FrameRootAccepted(s, a.root)
            && FrameStepsAccepted(s, a.steps, a.root.ViewRoot?) && !HasView(a.steps, |a.steps|, a.root.ViewRoot?)
  {
    FrameStepsAreExact(s, a.steps, a.root.ViewRoot?);
    hide FrameStepsAccepted, HasView, SelectFrameSteps;
  }

  predicate FrameStepHasCode(step: FrameStep) {
    step.FrameIndexStep? && step.check.ProvenInBounds? && step.index.FrameConstant? ==> step.index.constant * step.stride < M64
  }

  lemma {:induction false} FrameStepsCodeIsExact(steps: seq<FrameStep>, mapping: Word64)
    ensures FrameStepsCode(steps, mapping).Ok? <==> forall k | 0 <= k < |steps| :: FrameStepHasCode(steps[k])
  {
    if steps != [] {
      FrameStepCodeIsExact(steps[0], mapping);
      FrameStepsCodeIsExact(steps[1..], mapping);
      hide FrameStepCode, FrameStepHasCode;
      assert forall k | 0 < k < |steps| :: steps[k] == steps[1..][k - 1];
      assert forall k | 0 <= k < |steps| - 1 :: steps[1..][k] == steps[k + 1];
    }
  }

  lemma FrameStepCodeIsExact(step: FrameStep, mapping: Word64)
    ensures FrameStepCode(step, mapping).Ok? <==> FrameStepHasCode(step)
  {
    hide AddOffset, LoadNative, FrameWord, LoadIndex, FrameBoundCode, AdvanceFrame;
  }

  /// MAIN RESULT. A selected path has code exactly when the words of a view root and the offsets of its
  /// constant indices that need no check fit a word.
  lemma FrameCodeIsExact(root: FrameRoot, steps: seq<FrameStep>, mapping: Word64)
    ensures FrameAddressCode(root, steps, mapping).Ok? <==>
            && (root.FrameView? ==> root.field + root.lengthOffset < M64 && root.field + root.pointerOffset < M64)
            && forall k | 0 <= k < |steps| :: FrameStepHasCode(steps[k])
  {
    FrameStepsCodeIsExact(steps, mapping);
    hide FrameStepsCode, FrameStepHasCode, AddOffset, LoadStack, FrameWord, MoveCode;
  }
}
