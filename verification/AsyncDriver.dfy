/**
 The process root: it polls one computation, waits, polls again, and consumes it once.
 */
module AsyncDriver {
  import opened AsyncTree
  import opened AsyncTreeProofs
  import opened AsyncHeap
  import opened AsyncRuns
  import opened AsyncRuntime

  /// The largest interest count one wait accepts.
  const MAX_EVENT_COUNT: nat := 0x7FFF_FFFF

  /// The heap after a wait set the readiness words of some leaves.
  function SignalFrames(frames: FrameMap, leaves: set<nat>): FrameMap {
    map f | f in frames ::
      if f in leaves && frames[f].LeafFrame? then LeafFrame(frames[f].tag, 1, frames[f].records) else frames[f]
  }

  lemma {:induction false} SignalledHeapHolds(frames: FrameMap, buffers: BufferMap, c: Computation, leaves: set<nat>)
    requires Holds(frames, buffers, c)
    ensures Holds(SignalFrames(frames, leaves), buffers, Signal(c, leaves))
    ensures Buffers(SignalFrames(frames, leaves), Signal(c, leaves)) == Buffers(frames, c)
  {
    if c.Pair? {
      SignalledHeapHolds(frames, buffers, c.first, leaves);
      SignalledHeapHolds(frames, buffers, c.second, leaves);
    }
  }

  lemma SignalBecomes(f0: FrameMap, b0: BufferMap, c: Computation, frames: FrameMap, buffers: BufferMap,
                      node: Computation, leaves: set<nat>)
    requires Becomes(f0, b0, c, frames, buffers, node) && Holds(frames, buffers, node)
    requires leaves <= Frames(node) && Frames(node) <= Frames(c)
    ensures Becomes(f0, b0, c, SignalFrames(frames, leaves), buffers, Signal(node, leaves))
  {
    SignalledHeapHolds(frames, buffers, node, leaves);
    SignalKeepsTheTree(node, leaves, 0);
  }

  class ProcessRoot {
    var handle: nat
    const runtime: Runtime

    constructor (runtime: Runtime, handle: nat)
      ensures this.runtime == runtime && this.handle == handle
    {
      this.runtime := runtime;
      this.handle := handle;
    }

    /// Waits until at least one interest of the slice is ready and signals every ready one. Which
    /// ones become ready is the environment's choice.
    method Wait(pointer: Pointer, count: nat, ghost c: Computation) returns (ok: bool, ghost leaves: set<nat>)
      requires runtime.Owns(c) && runtime.Returns(pointer, count, c) && count > 0
      modifies runtime`frames
      ensures ok <==> count <= MAX_EVENT_COUNT
      ensures ok ==> runtime.frames == SignalFrames(old(runtime.frames), leaves) && leaves <= Frames(c)
      ensures ok ==> exists i :: 0 <= i < |Interests(c)| && Interests(c)[i].readiness in leaves
    {
      leaves := {};
      if pointer.Null? || count == 0 || count > MAX_EVENT_COUNT { return false, leaves; }
      var records := RecordsAt(runtime.frames, runtime.buffers, pointer);
      var candidates := set i | 0 <= i < |records| :: records[i].readiness;
      assert records[0].readiness in candidates;
      var ready: set<nat> :| ready <= candidates && ready != {};
      leaves := ready;
      forall f | f in ready ensures f in Frames(c) {
        var i :| 0 <= i < |records| && records[i].readiness == f;
        ReadinessPointersNameLiveLeaves(c, i);
      }
      runtime.frames := map f | f in runtime.frames ::
        if f in ready && runtime.frames[f].LeafFrame?
        then LeafFrame(runtime.frames[f].tag, 1, runtime.frames[f].records) else runtime.frames[f];
      return true, leaves;
    }

    /// Polls the root until it completes, then clears the owning handle and consumes the output.
    /// The root is resumed at most once more than it has unfinished leaves.
    method Drive(target: nat, ghost c: Computation) returns (ok: bool, resumes: nat, ghost steps: seq<Step>)
      requires runtime.Owns(c) && !c.Released? && handle == c.frame
      modifies this`handle, runtime
      ensures RecordTotal(c) <= MAX_EVENT_COUNT ==> ok
      ensures resumes <= Unfinished(c) + 1
      ensures ok ==>
                && handle == 0
                && !RunOf(c, steps).trapped && Finished(RunOf(c, steps).node)
                && runtime.trace == old(runtime.trace) + RunOf(c, steps).events + Consume(RunOf(c, steps).node)
                && Becomes(old(runtime.frames), old(runtime.buffers), c, runtime.frames, runtime.buffers, Released)
                && runtime.output == OutputOf(RunOf(c, steps).node, target, old(runtime.output))
    {
      hide Holds, Becomes, Buffers, Poll, Valid, Frames, Interests, RunOf, Unfinished, Signalled, AllWaiting, RecordTotal, Consume, OutputOf, Signal, RecordsAt;
      ghost var f0, b0, t0 := runtime.frames, runtime.buffers, runtime.trace;
      ghost var node := c;
      steps := [];
      resumes := 0;
      RunOfOneStep(c, {});
      BecomesReflexive(f0, b0, c);
      while true
        invariant runtime.Owns(node) && !node.Released? && node.frame == handle
        invariant !RunOf(c, steps).trapped && RunOf(c, steps).node == node
        invariant runtime.trace == t0 + RunOf(c, steps).events
        invariant Becomes(f0, b0, c, runtime.frames, runtime.buffers, node) && Frames(node) <= Frames(c)
        invariant RecordTotal(node) <= RecordTotal(c)
        invariant if resumes == 0 then Unfinished(node) == Unfinished(c)
                  else && AllWaiting(node) && Signalled(node) && Unfinished(node) > 0
                       && resumes + Unfinished(node) <= Unfinished(c) + 1
        invariant runtime.output == old(runtime.output)
        decreases Unfinished(node) + if resumes == 0 then 1 else 0
      {
        ghost var f1, b1, poll := runtime.frames, runtime.buffers, Poll(node);
        var status, pointer, count := runtime.Resume(handle, node);
        resumes := resumes + 1;
        if RecordTotal(node) <= MAX_EVENT_COUNT { BoundedTreesNeverTrap(node); }
        if status.Trapped? { return false, resumes, steps; }
        PollKeepsValid(node);
        BecomesTransitive(f0, b0, c, f1, b1, node, runtime.frames, runtime.buffers, poll.node);
        RunOfOneStep(node, {});
        RunExtends(c, steps, PollRoot);
        steps := steps + [PollRoot];
        if status.Done? {
          node := poll.node;
          break;
        }
        InterestsAreBounded(poll.node);
        PollNeverAddsRecords(node);
        ghost var f2 := runtime.frames;
        var waited, leaves := Wait(pointer, count, poll.node);
        if !waited { return false, resumes, steps; }
        SignalBecomes(f0, b0, c, f2, runtime.buffers, poll.node, leaves);
        SignalledHeapHolds(f2, runtime.buffers, poll.node, leaves);
        PollAndSignalProgress(node, leaves);
        RunOfOneStep(poll.node, leaves);
        RunExtends(c, steps, SignalLeaves(leaves));
        steps := steps + [SignalLeaves(leaves)];
        node := Signal(poll.node, leaves);
      }
      var root := handle;
      handle := 0;
      ghost var f3, b3 := runtime.frames, runtime.buffers;
      ok := runtime.Consume(root, target, node);
      BecomesTransitive(f0, b0, c, f3, b3, node, runtime.frames, runtime.buffers, Released);
    }
  }
}
