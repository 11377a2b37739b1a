/**
 Whole runs of a join/race tree: any number of polls, with leaves signalled at any time in between,
 ended by one cancel or by one consume of a completed root.
 */
module AsyncRuns {
  import opened AsyncTree
  import opened AsyncTreeProofs

  // ---------------------------------------------------------------- no frame is used after its release

  ghost predicate NeverUsedAfterRelease(events: seq<Event>) {
    forall i, j :: 0 <= i < j < |events| && events[i].FrameUnmapped? ==> events[j].frame != events[i].frame
  }

  /// Every event concerns a frame of `owned`, and every released frame is outside `kept`.
  ghost predicate Confined(events: seq<Event>, owned: set<nat>, kept: set<nat>) {
    forall i :: 0 <= i < |events| ==>
      events[i].frame in owned && (events[i].FrameUnmapped? ==> events[i].frame !in kept)
  }

  lemma ConfinedPartsCompose(a: seq<Event>, b: seq<Event>, x: set<nat>, y: set<nat>, kept: set<nat>)
    requires NeverUsedAfterRelease(a) && NeverUsedAfterRelease(b)
    requires Confined(a, x, kept + y) && Confined(b, y, kept)
    ensures NeverUsedAfterRelease(a + b) && Confined(a + b, x + y, kept)
  {
  }

  lemma {:induction false} CancelIsOrdered(c: Computation)
    requires Valid(c)
    ensures NeverUsedAfterRelease(Cancel(c)) && Confined(Cancel(c), Frames(c), {})
  {
    if c.Pair? {
      CancelIsOrdered(c.first);
      CancelIsOrdered(c.second);
      PairEntryIsOrdered([Cancelled(c.frame)] + BufferRelease(c), c.frame, Cancel(c.first), Frames(c.first),
                         Cancel(c.second), Frames(c.second), {c.frame});
      ConfinedPartsCompose([Cancelled(c.frame)] + BufferRelease(c) + Cancel(c.first) + Cancel(c.second),
                           [FrameUnmapped(c.frame)], Frames(c), {c.frame}, {});
    }
  }

  /// An entry that touches its own frame, then two disjoint children.
  lemma PairEntryIsOrdered(entered: seq<Event>, frame: nat, a: seq<Event>, x: set<nat>,
                           b: seq<Event>, y: set<nat>, kept: set<nat>)
    requires forall i :: 0 <= i < |entered| ==> entered[i].frame == frame && !entered[i].FrameUnmapped?
    requires NeverUsedAfterRelease(a) && NeverUsedAfterRelease(b)
    requires Confined(a, x, kept + y) && Confined(b, y, kept)
    ensures NeverUsedAfterRelease(entered + a + b)
    ensures Confined(entered + a + b, {frame} + x + y, kept)
  {
    ConfinedPartsCompose(a, b, x, y, kept);
    assert entered + a + b == entered + (a + b);
    ConfinedPartsCompose(entered, a + b, {frame}, x + y, kept);
    assert {frame} + x + y == {frame} + (x + y);
  }

  lemma {:induction false} ConsumeIsOrdered(c: Computation)
    requires Valid(c)
    ensures NeverUsedAfterRelease(Consume(c)) && Confined(Consume(c), Frames(c), {})
  {
    if c.Pair? {
      ConsumeIsOrdered(c.first);
      ConsumeIsOrdered(c.second);
      PairEntryIsOrdered([Consumed(c.frame)], c.frame, Consume(c.first), Frames(c.first),
                         Consume(c.second), Frames(c.second), {c.frame});
      ConfinedPartsCompose([Consumed(c.frame)] + Consume(c.first) + Consume(c.second),
                           [FrameUnmapped(c.frame)], Frames(c), {c.frame}, {});
    }
  }

  lemma {:induction false} PollIsOrdered(c: Computation)
    requires Valid(c) && !c.Released? && !Poll(c).status.Trapped?
    ensures NeverUsedAfterRelease(Poll(c).events)
    ensures Confined(Poll(c).events, Frames(c), Frames(Poll(c).node))
  {
    if c.Pair? && !c.phase.Completed? {
      var entered := [Resumed(c.frame)] + BufferRelease(c);
      var a := Observe(c.firstDone, c.first);
      if !c.firstDone { PollIsOrdered(c.first); PollKeepsValid(c.first); }
      if c.kind.Race? && a.status.Done? {
        CancelIsOrdered(c.second);
        PairEntryIsOrdered(entered, c.frame, a.events, Frames(c.first), Cancel(c.second), Frames(c.second),
                           {c.frame} + Frames(a.node));
      } else {
        var b := Observe(c.secondDone, c.second);
        if !c.secondDone { PollIsOrdered(c.second); PollKeepsValid(c.second); }
        PairPollIsOrdered(c, a, b);
      }
    }
  }

  lemma PairPollIsOrdered(c: Computation, a: PollResult, b: PollResult)
    requires Valid(c) && c.Pair? && !c.phase.Completed?
    requires !AfterBoth(c, [Resumed(c.frame)] + BufferRelease(c), a, b).status.Trapped?
    requires Valid(a.node) && Frames(a.node) <= Frames(c.first) && Frames(b.node) <= Frames(c.second)
    requires NeverUsedAfterRelease(a.events) && Confined(a.events, Frames(c.first), Frames(a.node))
    requires NeverUsedAfterRelease(b.events) && Confined(b.events, Frames(c.second), Frames(b.node))
    ensures var r := AfterBoth(c, [Resumed(c.frame)] + BufferRelease(c), a, b);
            NeverUsedAfterRelease(r.events) && Confined(r.events, Frames(c), Frames(r.node))
  {
    hide Poll;
    var entered := [Resumed(c.frame)] + BufferRelease(c);
    var r := AfterBoth(c, entered, a, b);
    var kept := {c.frame} + Frames(a.node) + Frames(b.node);
    PairEntryIsOrdered(entered, c.frame, a.events, Frames(c.first), b.events, Frames(c.second), kept);
    if c.kind.Race? && b.status.Done? {
      CancelIsOrdered(a.node);
      ConfinedPartsCompose(entered + a.events + b.events, Cancel(a.node), Frames(c), Frames(a.node),
                           {c.frame} + Frames(b.node));
    } else if !(a.status.Done? && b.status.Done?) {
      ConfinedPartsCompose(entered + a.events + b.events, [BufferMapped(c.frame)], Frames(c), {c.frame}, kept);
    }
  }

  // ---------------------------------------------------------------- runs

  /// Sets the readiness word of the chosen leaves, as the process root does after a wait.
  function Signal(c: Computation, leaves: set<nat>): Computation {
    match c
    case Released => c
    case Leaf(frame, phase, ready, records) =>
      if frame in leaves then Leaf(frame, phase, 1, records) else c
    case Pair(_, _, phase, firstDone, first, secondDone, second, _, _) =>
      Advance(c, phase, firstDone, Signal(first, leaves), secondDone, Signal(second, leaves))
  }

  datatype Step = PollRoot | SignalLeaves(leaves: set<nat>)

  datatype Ending = ByCancel | ByConsume

  datatype Run = Run(node: Computation, events: seq<Event>, trapped: bool)

  function RunOf(c: Computation, steps: seq<Step>): Run
    decreases |steps|
  {
    if steps == [] then Run(c, [], false)
    else
      match steps[0]
      case SignalLeaves(leaves) => RunOf(Signal(c, leaves), steps[1..])
      case PollRoot =>
        var poll := Poll(c);
        if poll.status.Trapped? then Run(c, [], true)
        else
          var rest := RunOf(poll.node, steps[1..]);
          Run(rest.node, poll.events + rest.events, rest.trapped)
  }

  function End(c: Computation, ending: Ending): seq<Event> {
    if ending.ByCancel? then Cancel(c) else Consume(c)
  }

  lemma {:induction false} SignalKeepsTheTree(c: Computation, leaves: set<nat>, f: nat)
    ensures Frames(Signal(c, leaves)) == Frames(c)
    ensures Live(Signal(c, leaves), f) == Live(c, f)
    ensures Buffered(Signal(c, leaves), f) == Buffered(c, f)
    ensures Valid(c) ==> Valid(Signal(c, leaves))
    ensures Interests(Signal(c, leaves)) == Interests(c)
    ensures RecordTotal(Signal(c, leaves)) == RecordTotal(c)
    ensures Signal(c, leaves).Released? == c.Released? && Finished(Signal(c, leaves)) == Finished(c)
  {
    if c.Pair? {
      SignalKeepsTheTree(c.first, leaves, f);
      SignalKeepsTheTree(c.second, leaves, f);
    }
  }

  lemma {:induction false} RunExtends(c: Computation, steps: seq<Step>, step: Step)
    requires !RunOf(c, steps).trapped
    ensures var before := RunOf(c, steps);
            var last := RunOf(before.node, [step]);
            RunOf(c, steps + [step]) == Run(last.node, before.events + last.events, last.trapped)
    decreases |steps|
  {
    hide Poll;
    if steps == [] {
      assert steps + [step] == [step];
    } else {
      assert (steps + [step])[1..] == steps[1..] + [step];
      if steps[0].SignalLeaves? {
        RunExtends(Signal(c, steps[0].leaves), steps[1..], step);
      } else {
        RunExtends(Poll(c).node, steps[1..], step);
      }
    }
  }

  lemma RunOfOneStep(c: Computation, leaves: set<nat>)
    ensures RunOf(c, []) == Run(c, [], false)
    ensures RunOf(c, [SignalLeaves(leaves)]) == Run(Signal(c, leaves), [], false)
    ensures RunOf(c, [PollRoot])
         == if Poll(c).status.Trapped? then Run(c, [], true) else Run(Poll(c).node, Poll(c).events, false)
  {
    hide Poll;
    assert RunOf(Poll(c).node, []) == Run(Poll(c).node, [], false);
  }

  /// What a run keeps, for one frame.
  lemma {:induction false} RunKeepsAccounts(c: Computation, steps: seq<Step>, f: nat)
    requires Valid(c) && !c.Released? && !RunOf(c, steps).trapped
    ensures var run := RunOf(c, steps);
            && Valid(run.node) && !run.node.Released?
            && FrameBalanced(c, run.events, run.node, f)
            && BufferBalanced(c, run.events, run.node, f)
            && NeverUsedAfterRelease(run.events)
            && Confined(run.events, Frames(c), Frames(run.node))
            && Frames(run.node) <= Frames(c)
    decreases |steps|
  {
    hide Count, Poll, Valid;
    if steps == [] {
      CountsOfOne(Resumed(0), f);
    } else if steps[0].SignalLeaves? {
      SignalKeepsTheTree(c, steps[0].leaves, f);
      RunKeepsAccounts(Signal(c, steps[0].leaves), steps[1..], f);
    } else {
      var poll := Poll(c);
      var rest := RunOf(poll.node, steps[1..]);
      PollKeepsValid(c);
      PollBalances(c, f);
      PollIsOrdered(c);
      RunKeepsAccounts(poll.node, steps[1..], f);
      RunPartsCompose(c, poll.events, poll.node, rest.events, rest.node, f);
    }
  }

  lemma RunPartsCompose(c: Computation, a: seq<Event>, d: Computation, b: seq<Event>, e: Computation, f: nat)
    requires FrameBalanced(c, a, d, f) && BufferBalanced(c, a, d, f)
    requires FrameBalanced(d, b, e, f) && BufferBalanced(d, b, e, f)
    requires NeverUsedAfterRelease(a) && Confined(a, Frames(c), Frames(d)) && Frames(d) <= Frames(c)
    requires NeverUsedAfterRelease(b) && Confined(b, Frames(d), Frames(e)) && Frames(e) <= Frames(d)
    ensures FrameBalanced(c, a + b, e, f) && BufferBalanced(c, a + b, e, f)
    ensures NeverUsedAfterRelease(a + b) && Confined(a + b, Frames(c), Frames(e))
  {
    assert Frames(e) + Frames(d) == Frames(d);
    assert Frames(c) + Frames(d) == Frames(c);
    ConfinedPartsCompose(a, b, Frames(c), Frames(d), Frames(e));
    forall e | e in {FrameUnmapped(f), Cancelled(f), Consumed(f), BufferMapped(f), BufferUnmapped(f)}
      ensures Count(a + b, e) == Count(a, e) + Count(b, e)
    {
      CountConcatenates(a, b, e);
    }
    hide Count;
  }

  /// MAIN RESULT. Over every run of a tree, ended by cancel, or by consume of a completed root: each
  /// node's frame is unmapped exactly once, with exactly one cancel or consume, no event touches a
  /// frame after its release, and every interest buffer that was mapped is unmapped.
  lemma EveryFrameIsReleasedExactlyOnce(c: Computation, steps: seq<Step>, ending: Ending, f: nat)
    requires Valid(c) && !c.Released? && !RunOf(c, steps).trapped
    requires ending.ByConsume? ==> Finished(RunOf(c, steps).node)
    ensures var events := RunOf(c, steps).events + End(RunOf(c, steps).node, ending);
            && Count(events, FrameUnmapped(f)) == (if f in Frames(c) then 1 else 0)
            && Count(events, Cancelled(f)) + Count(events, Consumed(f)) == (if f in Frames(c) then 1 else 0)
            && Count(events, BufferUnmapped(f)) == Buffered(c, f) + Count(events, BufferMapped(f))
            && NeverUsedAfterRelease(events)
  {
    hide Count, Poll, Valid;
    var run := RunOf(c, steps);
    RunKeepsAccounts(c, steps, f);
    if ending.ByCancel? {
      CancelBalances(run.node, f);
      CancelIsOrdered(run.node);
    } else {
      ConsumeBalances(run.node, f);
      ConsumeIsOrdered(run.node);
    }
    LiveMeansOwned(c, f);
    RunPartsCompose(c, run.events, run.node, End(run.node, ending), Released, f);
  }

  // ---------------------------------------------------------------- progress of the driver

  /// How many owned leaves have not completed.
  function Unfinished(c: Computation): nat {
    match c
    case Released => 0
    case Leaf(_, phase, _, _) => if phase.Completed? then 0 else 1
    case Pair(_, _, _, _, first, _, second, _, _) => Unfinished(first) + Unfinished(second)
  }

  /// Every unfinished leaf has been polled, so that its readiness word is read at the next poll.
  predicate AllWaiting(c: Computation) {
    match c
    case Released => true
    case Leaf(_, phase, _, _) => !phase.Initial?
    case Pair(_, _, _, _, first, _, second, _, _) => AllWaiting(first) && AllWaiting(second)
  }

  /// Some unfinished leaf has been signalled.
  predicate Signalled(c: Computation) {
    match c
    case Released => false
    case Leaf(_, phase, ready, _) => !phase.Completed? && ready != 0
    case Pair(_, _, _, _, first, _, second, _, _) => Signalled(first) || Signalled(second)
  }

  lemma {:induction false} FinishedHasNothingUnfinished(c: Computation)
    requires Valid(c) && (c.Released? || Finished(c))
    ensures Unfinished(c) == 0 && AllWaiting(c) && !Signalled(c)
  {
    if c.Pair? {
      FinishedHasNothingUnfinished(c.first);
      FinishedHasNothingUnfinished(c.second);
    }
  }

  lemma {:induction false} PollNeverRevivesLeaves(c: Computation)
    requires Valid(c) && !c.Released? && !Poll(c).status.Trapped?
    ensures Unfinished(Poll(c).node) <= Unfinished(c)
    ensures AllWaiting(Poll(c).node)
  {
    if Finished(c) {
      FinishedHasNothingUnfinished(c);
    } else if c.Pair? {
      var a := Observe(c.firstDone, c.first);
      if c.firstDone { FinishedHasNothingUnfinished(c.first); } else { PollNeverRevivesLeaves(c.first); }
      if !(c.kind.Race? && a.status.Done?) {
        if c.secondDone { FinishedHasNothingUnfinished(c.second); } else { PollNeverRevivesLeaves(c.second); }
      }
    }
  }

  /// Every signal that reaches a waiting leaf makes the next poll retire at least one leaf.
  lemma {:induction false} PollAfterSignalRetiresALeaf(c: Computation)
    requires Valid(c) && !c.Released? && !Poll(c).status.Trapped?
    requires AllWaiting(c) && Signalled(c)
    ensures Unfinished(Poll(c).node) < Unfinished(c)
  {
    if Finished(c) {
      FinishedHasNothingUnfinished(c);
    } else if c.Pair? {
      var a := Observe(c.firstDone, c.first);
      if c.firstDone { FinishedHasNothingUnfinished(c.first); }
      else {
        PollNeverRevivesLeaves(c.first);
        if Signalled(c.first) { PollAfterSignalRetiresALeaf(c.first); }
      }
      if Signalled(c.second) { SignalledIsUnfinished(c.second); }
      if !(c.kind.Race? && a.status.Done?) {
        if c.secondDone { FinishedHasNothingUnfinished(c.second); }
        else {
          PollNeverRevivesLeaves(c.second);
          if Signalled(c.second) { PollAfterSignalRetiresALeaf(c.second); }
        }
      }
    }
  }

  lemma {:induction false} SignalledIsUnfinished(c: Computation)
    requires Signalled(c)
    ensures Unfinished(c) > 0
  {
    if c.Pair? {
      if Signalled(c.first) { SignalledIsUnfinished(c.first); } else { SignalledIsUnfinished(c.second); }
    }
  }

  /// Signalling through any returned interest reaches an unfinished leaf of the tree.
  lemma {:induction false} SignalThroughAnInterestIsSeen(c: Computation, leaves: set<nat>, i: nat)
    requires Valid(c) && i < |Interests(c)| && Interests(c)[i].readiness in leaves
    ensures Signalled(Signal(c, leaves))
    ensures Unfinished(Signal(c, leaves)) == Unfinished(c)
  {
    SignalKeepsUnfinished(c, leaves);
    if c.Pair? {
      if i < |Interests(c.first)| { SignalThroughAnInterestIsSeen(c.first, leaves, i); }
      else { SignalThroughAnInterestIsSeen(c.second, leaves, i - |Interests(c.first)|); }
    }
  }

  lemma {:induction false} SignalKeepsUnfinished(c: Computation, leaves: set<nat>)
    ensures Unfinished(Signal(c, leaves)) == Unfinished(c)
    ensures AllWaiting(Signal(c, leaves)) == AllWaiting(c)
  {
    if c.Pair? {
      SignalKeepsUnfinished(c.first, leaves);
      SignalKeepsUnfinished(c.second, leaves);
    }
  }

  /// A root whose poll stayed pending and whose interests were then signalled is closer to its end.
  lemma PollAndSignalProgress(c: Computation, leaves: set<nat>)
    requires Valid(c) && !c.Released? && Poll(c).status.Pending?
    requires exists i :: 0 <= i < |Interests(Poll(c).node)| && Interests(Poll(c).node)[i].readiness in leaves
    ensures var d := Signal(Poll(c).node, leaves);
            && Valid(d) && !d.Released? && d.frame == c.frame && Frames(d) <= Frames(c)
            && RecordTotal(d) <= RecordTotal(c)
            && AllWaiting(d) && Signalled(d)
            && Unfinished(d) <= Unfinished(c)
            && (AllWaiting(c) && Signalled(c) ==> Unfinished(d) < Unfinished(c))
            && Unfinished(d) > 0
  {
    hide Poll;
    var node := Poll(c).node;
    PollKeepsValid(c);
    PollNeverRevivesLeaves(c);
    PollNeverAddsRecords(c);
    if AllWaiting(c) && Signalled(c) { PollAfterSignalRetiresALeaf(c); }
    var i :| 0 <= i < |Interests(node)| && Interests(node)[i].readiness in leaves;
    SignalThroughAnInterestIsSeen(node, leaves, i);
    SignalKeepsUnfinished(node, leaves);
    SignalKeepsTheTree(node, leaves, 0);
    SignalledIsUnfinished(Signal(node, leaves));
  }
}
