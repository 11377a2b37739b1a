/**
 What join, race and leaf-wait computations do to a tree of owned frames.

 A computation is a heap frame with a state tag and three entries: resume polls it, cancel destroys
 it, consume moves its completed output out and destroys it. This module states the protocol as
 functions over an immutable tree, and proves what every run of it keeps. `AsyncRuntime` holds the
 imperative entries and proves that they implement these functions on a mutable heap.
 */
module AsyncTree {

  /// One wait-interest record. `readiness` names the leaf frame whose readiness word is signalled.
  datatype Interest = Interest(kind: nat, subject: nat, detail: nat, readiness: nat)

  /// A composition keeps its initial tag while it waits; `Suspended` is that tag with a mapped
  /// interest buffer. A leaf has a suspension tag of its own.
  datatype Phase = Initial | Suspended | Completed

  datatype Kind = Join | Race

  datatype Computation =
    | Released
    | Leaf(frame: nat, phase: Phase, ready: nat, records: seq<Interest>)
    | Pair(frame: nat, kind: Kind, phase: Phase,
           firstDone: bool, first: Computation,
           secondDone: bool, second: Computation,
           firstOutput: nat, secondOutput: nat)

  /// Entry calls and mapping calls, each naming the frame it concerns. A buffer event names the
  /// frame that owns the buffer.
  datatype Event =
    | Resumed(frame: nat)
    | Cancelled(frame: nat)
    | Consumed(frame: nat)
    | FrameUnmapped(frame: nat)
    | BufferMapped(frame: nat)
    | BufferUnmapped(frame: nat)

  datatype Status = Done | Pending | Trapped

  datatype PollResult = PollResult(status: Status, node: Computation, events: seq<Event>)

  /// The largest interest count a pair passes on.
  const MAX_INTEREST_COUNT: nat := 0xFFFF_FFFF

  predicate Finished(c: Computation) {
    !c.Released? && c.phase.Completed?
  }

  function Handle(c: Computation): nat {
    if c.Released? then 0 else c.frame
  }

  function Frames(c: Computation): set<nat> {
    match c
    case Released => {}
    case Leaf(frame, _, _, _) => {frame}
    case Pair(frame, _, _, _, first, _, second, _, _) => {frame} + Frames(first) + Frames(second)
  }

  /// Distinct nonzero frames, leaves with one or two records that point at their own leaf, and done flags that agree with
  /// the children they describe.
  predicate Valid(c: Computation) {
    match c
    case Released => true
    case Leaf(frame, _, _, records) =>
      && frame != 0
      && 1 <= |records| <= 2
      && forall i :: 0 <= i < |records| ==> records[i].readiness == frame
    case Pair(frame, kind, phase, firstDone, first, secondDone, second, _, _) =>
      && frame != 0
      && frame !in Frames(first) && frame !in Frames(second)
      && Frames(first) !! Frames(second)
      && Valid(first) && Valid(second)
      && (firstDone ==> Finished(first))
      && (secondDone ==> Finished(second))
      && if phase.Completed? then
           if kind.Join? then firstDone && secondDone
           else if firstDone then second.Released? && !secondDone else first.Released? && secondDone
         else
           && !first.Released? && !second.Released?
           && !(firstDone && secondDone)
           && (kind.Race? ==> !firstDone && !secondDone)
  }

  // ---------------------------------------------------------------- the three entries

  function Cancel(c: Computation): seq<Event> {
    match c
    case Released => []
    case Leaf(frame, _, _, _) => [Cancelled(frame), FrameUnmapped(frame)]
    case Pair(frame, _, phase, _, first, _, second, _, _) =>
      [Cancelled(frame)] + BufferRelease(c) + Cancel(first) + Cancel(second) + [FrameUnmapped(frame)]
  }

  function BufferRelease(c: Computation): seq<Event> {
    if c.Pair? && c.phase.Suspended? then [BufferUnmapped(c.frame)] else []
  }

  function Consume(c: Computation): seq<Event> {
    match c
    case Released => []
    case Leaf(frame, _, _, _) => [Consumed(frame), FrameUnmapped(frame)]
    case Pair(frame, _, _, _, first, _, second, _, _) =>
      [Consumed(frame)] + Consume(first) + Consume(second) + [FrameUnmapped(frame)]
  }

  /// The interest records a pending computation hands to its caller.
  function Interests(c: Computation): seq<Interest> {
    match c
    case Released => []
    case Leaf(_, phase, _, records) => if phase.Completed? then [] else records
    case Pair(_, _, phase, _, first, _, second, _, _) =>
      if phase.Completed? then [] else Interests(first) + Interests(second)
  }

  /// A pair after one step of its lifecycle.
  function Advance(c: Computation, phase: Phase, firstDone: bool, first: Computation,
                   secondDone: bool, second: Computation): Computation
    requires c.Pair?
  {
    Pair(c.frame, c.kind, phase, firstDone, first, secondDone, second, c.firstOutput, c.secondOutput)
  }

  function Poll(c: Computation): PollResult
  {
    match c
    case Released => PollResult(Trapped, c, [])
    case Leaf(frame, phase, ready, records) =>
      var events := [Resumed(frame)];
      (match phase
       case Initial => PollResult(Pending, Leaf(frame, Suspended, ready, records), events)
       case Suspended =>
         if ready == 0 then PollResult(Pending, c, events)
         else PollResult(Done, Leaf(frame, Completed, ready, records), events)
       case Completed => PollResult(Done, c, events))
    case Pair(frame, kind, phase, firstDone, first, secondDone, second, _, _) =>
      if phase.Completed? then PollResult(Done, c, [Resumed(frame)])
      else
        var entered := [Resumed(frame)] + BufferRelease(c);
        var a := if firstDone then PollResult(Done, first, []) else Poll(first);
        if a.status.Trapped? then PollResult(Trapped, c, [])
        else if kind.Race? && a.status.Done? then
          PollResult(Done,
                     Advance(c, Completed, true, a.node, false, Released),
                     entered + a.events + Cancel(second))
        else
          var b := if secondDone then PollResult(Done, second, []) else Poll(second);
          if b.status.Trapped? then PollResult(Trapped, c, [])
          else AfterBoth(c, entered, a, b)
  }

  /// How a pair ends a poll in which both children were observed.
  function AfterBoth(c: Computation, entered: seq<Event>, a: PollResult, b: PollResult): PollResult
    requires c.Pair?
  {
    var events := entered + a.events + b.events;
    if c.kind.Race? && b.status.Done? then
      PollResult(Done,
                 Advance(c, Completed, false, Released, true, b.node),
                 events + Cancel(a.node))
    else if a.status.Done? && b.status.Done? then
      PollResult(Done,
                 Advance(c, Completed, true, a.node, true, b.node),
                 events)
    else if |Interests(a.node)| + |Interests(b.node)| > MAX_INTEREST_COUNT then
      PollResult(Trapped, c, [])
    else
      PollResult(Pending,
                 Advance(c, Suspended, a.status.Done?, a.node, b.status.Done?, b.node),
                 events + [BufferMapped(c.frame)])
  }

  /// A done child is left alone; any other child is polled.
  function Observe(done: bool, c: Computation): PollResult {
    if done then PollResult(Done, c, []) else Poll(c)
  }
}
