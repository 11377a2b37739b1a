/**
 Whole runs of a group: polls, with readiness signals in between, until the borrow ends.
 */
module GroupRuns {
  import opened Results
  import opened AsyncTree
  import opened AsyncTreeProofs
  import opened AsyncHeap
  import opened AsyncRuntime
  import opened AsyncGroup
  import Runs = AsyncRuns
  import Driver = AsyncDriver

  // ---------------------------------------------------------------- a run as a function

  datatype GroupStep = PollGroup | WakeChildren(leaves: set<nat>)

  datatype Outcome = Outcome(available: nat, index: nat)

  /// The children, and what the group completed with.
  datatype Situation = Situation(children: seq<Computation>, outcome: Option<Outcome>)

  function SignalAll(cs: seq<Computation>, leaves: set<nat>): (r: seq<Computation>)
    ensures |r| == |cs| && forall i | 0 <= i < |cs| :: r[i] == Runs.Signal(cs[i], leaves)
  {
    seq(|cs|, i requires 0 <= i < |cs| => Runs.Signal(cs[i], leaves))
  }

  /// Nothing when the poll traps.
  function AfterPoll(s: Situation): Option<Situation> {
    if s.outcome.Some? then Some(s)
    else if s.children == [] then Some(s.(outcome := Some(Outcome(0, 0))))
    else if |s.children| > MAX_DYNAMIC_COUNT then None
    else
      match ScanFrom(s.children, 0)
      case Corrupt => None
      case ReadyAt(i, polled) => Some(Situation(polled, Some(Outcome(1, i))))
      case AllPending(polled) => Some(Situation(polled, None))
  }

  function AfterStep(s: Situation, step: GroupStep): Option<Situation> {
    match step
    case PollGroup => AfterPoll(s)
    case WakeChildren(leaves) => Some(s.(children := SignalAll(s.children, leaves)))
  }

  function AfterSteps(s: Situation, steps: seq<GroupStep>): Option<Situation> {
    if steps == [] then Some(s)
    else
      var before := AfterSteps(s, steps[..|steps| - 1]);
      if before.None? then None else AfterStep(before.value, steps[|steps| - 1])
  }

  lemma OneStepMore(s: Situation, steps: seq<GroupStep>, k: nat)
    requires k < |steps|
    ensures AfterSteps(s, steps[..k + 1]) ==
            var before := AfterSteps(s, steps[..k]);
            if before.None? then None else AfterStep(before.value, steps[k])
  {
    assert steps[..k + 1][..k] == steps[..k];
    hide AfterStep;
  }

  lemma {:induction false} TrapsStay(s: Situation, steps: seq<GroupStep>, k: nat)
    requires k <= |steps| && AfterSteps(s, steps[..k]).None?
    ensures AfterSteps(s, steps).None?
    decreases |steps| - k
  {
    if k == |steps| {
      assert steps[..k] == steps;
    } else {
      OneStepMore(s, steps, k);
      TrapsStay(s, steps, k + 1);
    }
  }

  /// What holds at every point: no child is released, and an outcome names a child that is ready and
  /// not yet consumed, or says that there are no children.
  ghost predicate Sound(s: Situation, cs: seq<Computation>) {
    && Borrowed(s.children) && |s.children| == |cs|
    && (forall i | 0 <= i < |cs| :: Handle(s.children[i]) == Handle(cs[i]))
    && match s.outcome
       case None => true
       case Some(outcome) =>
         if cs == [] then outcome == Outcome(0, 0)
         else outcome.available == 1 && outcome.index < |cs| && Finished(s.children[outcome.index])
  }

  lemma WakingKeepsSound(s: Situation, cs: seq<Computation>, leaves: set<nat>)
    requires Sound(s, cs)
    ensures Sound(s.(children := SignalAll(s.children, leaves)), cs)
  {
    hide Valid, Runs.Signal;
    var woken := SignalAll(s.children, leaves);
    forall i | 0 <= i < |cs|
      ensures Valid(woken[i]) && !woken[i].Released? && woken[i].frame == s.children[i].frame
      ensures Finished(woken[i]) == Finished(s.children[i])
    {
      Runs.SignalKeepsTheTree(s.children[i], leaves, 0);
      SignalKeepsTheFrame(s.children[i], leaves);
    }
  }

  lemma SignalKeepsTheFrame(c: Computation, leaves: set<nat>)
    ensures Handle(Runs.Signal(c, leaves)) == Handle(c)
  {
  }

  lemma PollingKeepsSound(s: Situation, cs: seq<Computation>)
    requires Sound(s, cs) && AfterPoll(s).Some?
    ensures Sound(AfterPoll(s).value, cs)
  {
    hide Valid, ScanFrom;
    if s.outcome.None? && s.children != [] {
      ScanReleasesNoChild(s.children, 0);
      ScanFindsTheLeastReadyChild(s.children, 0);
    }
  }

  /// MAIN RESULT. However often the group is polled and its children are signalled, no child is
  /// released, and the outcome keeps naming a child that is ready.
  lemma {:induction false} RunsStaySound(cs: seq<Computation>, steps: seq<GroupStep>)
    requires Borrowed(cs) && AfterSteps(Situation(cs, None), steps).Some?
    ensures Sound(AfterSteps(Situation(cs, None), steps).value, cs)
    decreases |steps|
  {
    hide Sound, AfterPoll, SignalAll;
    if steps == [] {
      StartIsSound(cs);
    } else {
      var s := AfterSteps(Situation(cs, None), steps[..|steps| - 1]).value;
      RunsStaySound(cs, steps[..|steps| - 1]);
      match steps[|steps| - 1] {
        case PollGroup => PollingKeepsSound(s, cs);
        case WakeChildren(leaves) => WakingKeepsSound(s, cs, leaves);
      }
    }
  }

  lemma StartIsSound(cs: seq<Computation>)
    requires Borrowed(cs)
    ensures Sound(Situation(cs, None), cs)
  {
  }

  // ---------------------------------------------------------------- signals on the heap

  lemma SignalledForest(frames: FrameMap, buffers: BufferMap, cs: seq<Computation>, leaves: set<nat>)
    requires Forest(frames, buffers, cs)
    ensures Forest(Driver.SignalFrames(frames, leaves), buffers, SignalAll(cs, leaves))
    ensures forall i | 0 <= i < |cs| :: Buffers(Driver.SignalFrames(frames, leaves), Runs.Signal(cs[i], leaves)) == Buffers(frames, cs[i])
  {
    hide Valid, Holds, Runs.Signal, Driver.SignalFrames, Buffers;
    var woken, f1 := SignalAll(cs, leaves), Driver.SignalFrames(frames, leaves);
    forall i | 0 <= i < |cs|
      ensures Valid(woken[i]) && !woken[i].Released? && Holds(f1, buffers, woken[i])
      ensures Frames(woken[i]) == Frames(cs[i]) && Buffers(f1, woken[i]) == Buffers(frames, cs[i])
    {
      Runs.SignalKeepsTheTree(cs[i], leaves, 0);
      Driver.SignalledHeapHolds(frames, buffers, cs[i], leaves);
    }
    forall i, j | 0 <= i < j < |woken|
      ensures Frames(woken[i]) !! Frames(woken[j]) && Buffers(f1, woken[i]) !! Buffers(f1, woken[j])
    {
      assert Frames(cs[i]) !! Frames(cs[j]) && Buffers(frames, cs[i]) !! Buffers(frames, cs[j]);
    }
  }

  /// A wait sets the readiness words of some leaves. The group is as live as before, for the children
  /// with those leaves ready.
  method Wake(group: Group, leaves: set<nat>, ghost cs: seq<Computation>)
    requires group.Live(cs)
    modifies group.runtime`frames
    ensures group.runtime.frames == Driver.SignalFrames(old(group.runtime.frames), leaves)
    ensures group.Live(SignalAll(cs, leaves))
  {
    hide Forest, Valid, Holds, Runs.Signal, Buffers;
    var runtime := group.runtime;
    SignalledForest(runtime.frames, runtime.buffers, cs, leaves);
    forall i | 0 <= i < |cs| ensures Handle(SignalAll(cs, leaves)[i]) == Handle(cs[i]) {
      SignalKeepsTheFrame(cs[i], leaves);
    }
    runtime.frames := map f | f in runtime.frames ::
      if f in leaves && runtime.frames[f].LeafFrame?
      then LeafFrame(runtime.frames[f].tag, 1, runtime.frames[f].records) else runtime.frames[f];
    assert runtime.frames == Driver.SignalFrames(old(runtime.frames), leaves);
  }

  // ---------------------------------------------------------------- runs on the heap

  /// The group's words say what the situation is.
  ghost predicate Shows(group: Group, s: Situation)
    reads group, group.runtime
  {
    && group.Live(s.children)
    && match s.outcome
       case None => group.state == GROUP_INITIAL
       case Some(outcome) => group.state == GROUP_COMPLETED && group.available == outcome.available && group.index == outcome.index
  }

  method Poll(group: Group, ghost s: Situation) returns (ok: bool, ghost t: Situation)
    requires Shows(group, s)
    modifies group, group.runtime
    ensures ok <==> AfterPoll(s).Some?
    ensures ok ==> AfterPoll(s) == Some(t) && Shows(group, t)
    ensures group.runtime.output == old(group.runtime.output)
  {
    hide Forest, ScanFrom;
    assert |s.children| == |group.children|;
    var status, pointer, count;
    ghost var ds;
    status, pointer, count, ds := group.Resume(s.children);
    ok := !status.Trapped?;
    t := if AfterPoll(s).Some? then AfterPoll(s).value else s;
  }

  /// Any polls and signals, one after another.
  method RunGroup(group: Group, steps: seq<GroupStep>, ghost cs: seq<Computation>) returns (ok: bool, ghost s: Situation)
    requires group.Live(cs) && group.state == GROUP_INITIAL
    modifies group, group.runtime
    ensures ok <==> AfterSteps(Situation(cs, None), steps).Some?
    ensures ok ==> AfterSteps(Situation(cs, None), steps) == Some(s) && Shows(group, s)
    ensures group.runtime.output == old(group.runtime.output)
  {
    hide AfterSteps, AfterPoll;
    s := Situation(cs, None);
    ghost var start := s;
    NoStepsYet(start, steps);
    for k := 0 to |steps|
      invariant AfterSteps(start, steps[..k]) == Some(s) && Shows(group, s)
      invariant group.runtime.output == old(group.runtime.output)
    {
      OneStepMore(start, steps, k);
      match steps[k] {
        case PollGroup =>
          ok, s := Poll(group, s);
          if !ok {
            TrapsStay(start, steps, k + 1);
            return;
          }
        case WakeChildren(leaves) =>
          Wake(group, leaves, s.children);
          s := s.(children := SignalAll(s.children, leaves));
      }
    }
    assert steps[..|steps|] == steps;
    ok := true;
  }

  lemma NoStepsYet(s: Situation, steps: seq<GroupStep>)
    ensures AfterSteps(s, steps[..0]) == Some(s)
  {
  }

  /// MAIN RESULT. After any polls and signals, ending the borrow unmaps everything that the group mapped
  /// exactly once and leaves the children to their owner. A cancel always succeeds; a consume succeeds
  /// when a poll completed, and writes what that poll found.
  method RunToTheEnd(group: Group, steps: seq<GroupStep>, ending: Runs.Ending, target: nat, ghost cs: seq<Computation>)
    returns (ok: bool, ghost s: Situation)
    requires group.Live(cs) && group.state == GROUP_INITIAL
    modifies group, group.runtime
    ensures var after := AfterSteps(Situation(cs, None), steps);
            && (ok <==> after.Some? && (ending.ByConsume? ==> after.value.outcome.Some?))
            && (ok ==> after == Some(s) && group.Ended(s.children))
    ensures group.runtime.output ==
            if ok && ending.ByConsume?
            then old(group.runtime.output)[target + group.availableOutput := s.outcome.value.available]
                                          [target + group.indexOutput := s.outcome.value.index]
            else old(group.runtime.output)
  {
    hide AfterSteps;
    ok, s := RunGroup(group, steps, cs);
    if !ok { return; }
    match ending {
      case ByCancel => ok := group.Cancel(s.children);
      case ByConsume => ok := group.Consume(target, s.children);
    }
  }
}
