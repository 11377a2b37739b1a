/**
 Properties of one poll and of whole runs of a join/race tree.
 */
module AsyncTreeProofs {
  import opened AsyncTree

  // ---------------------------------------------------------------- one poll keeps the tree valid

  lemma {:induction false} PollKeepsValid(c: Computation)
    requires Valid(c) && !c.Released? && !Poll(c).status.Trapped?
    ensures Valid(Poll(c).node) && !Poll(c).node.Released?
    ensures Poll(c).node.frame == c.frame
    ensures Frames(Poll(c).node) <= Frames(c)
    ensures Poll(c).status.Done? <==> Finished(Poll(c).node)
    ensures Poll(c).status.Pending? ==> 1 <= |Interests(Poll(c).node)| <= MAX_INTEREST_COUNT
  {
    if c.Pair? && !c.phase.Completed? {
      if !c.firstDone { PollKeepsValid(c.first); }
      var first := if c.firstDone then PollResult(Done, c.first, []) else Poll(c.first);
      if !(c.kind.Race? && first.status.Done?) {
        if !c.secondDone { PollKeepsValid(c.second); }
      }
    }
  }

  /// One poll of a waiting pair, in terms of what it observes of its children.
  lemma PollOfWaitingPair(c: Computation)
    requires Valid(c) && c.Pair? && !c.phase.Completed?
    ensures !c.first.Released? && !c.second.Released?
    ensures c.firstDone ==> Finished(c.first)
    ensures c.secondDone ==> Finished(c.second)
    ensures var entered := [Resumed(c.frame)] + BufferRelease(c);
            var a := Observe(c.firstDone, c.first);
            var b := Observe(c.secondDone, c.second);
            Poll(c) == if a.status.Trapped? then PollResult(Trapped, c, [])
                       else if c.kind.Race? && a.status.Done? then
                         PollResult(Done, Advance(c, Completed, true, a.node, false, Released),
                                    entered + a.events + Cancel(c.second))
                       else if b.status.Trapped? then PollResult(Trapped, c, [])
                       else AfterBoth(c, entered, a, b)
    ensures var a := Observe(c.firstDone, c.first);
            !a.status.Trapped? ==> !a.node.Released? && Frames(a.node) <= Frames(c.first)
    ensures var b := Observe(c.secondDone, c.second);
            !b.status.Trapped? ==> !b.node.Released? && Frames(b.node) <= Frames(c.second)
  {
    if !Poll(c.first).status.Trapped? { PollKeepsValid(c.first); }
    if !Poll(c.second).status.Trapped? { PollKeepsValid(c.second); }
  }

  lemma PollOfCompleted(c: Computation)
    requires Finished(c)
    ensures Poll(c) == PollResult(Done, c, [Resumed(c.frame)])
  {
  }

  /// A pair that stays pending has something to wait for.
  lemma PendingPairsHaveInterests(c: Computation)
    requires Valid(c) && c.Pair? && !c.phase.Completed?
    ensures var a := Observe(c.firstDone, c.first);
            var b := Observe(c.secondDone, c.second);
            a.status.Pending? || (b.status.Pending? && !a.status.Trapped?) ==>
              Interests(a.node) + (if b.status.Trapped? then [] else Interests(b.node)) != []
  {
    if Observe(c.firstDone, c.first).status.Pending? { PollKeepsValid(c.first); }
    if Observe(c.secondDone, c.second).status.Pending? { PollKeepsValid(c.second); }
  }

  // ---------------------------------------------------------------- which poll completes, and who wins

  /// Whether the tree completes at its next poll: leaves that were signalled after they were first
  /// polled, joins that need both children, races that need either.
  predicate Ready(c: Computation) {
    match c
    case Released => false
    case Leaf(_, phase, ready, _) => phase.Completed? || (phase.Suspended? && ready != 0)
    case Pair(_, kind, phase, _, first, _, second, _, _) =>
      phase.Completed? || if kind.Join? then Ready(first) && Ready(second) else Ready(first) || Ready(second)
  }

  lemma {:induction false} FinishedIsReady(c: Computation)
    requires Finished(c)
    ensures Ready(c)
  {
  }

  lemma {:induction false} PollCompletesExactlyWhenReady(c: Computation)
    requires Valid(c) && !c.Released? && !Poll(c).status.Trapped?
    ensures Poll(c).status.Done? <==> Ready(c)
  {
    if c.Pair? && !c.phase.Completed? {
      if c.firstDone { FinishedIsReady(c.first); } else { PollCompletesExactlyWhenReady(c.first); }
      var first := if c.firstDone then PollResult(Done, c.first, []) else Poll(c.first);
      if !(c.kind.Race? && first.status.Done?) {
        if c.secondDone { FinishedIsReady(c.second); } else { PollCompletesExactlyWhenReady(c.second); }
      }
    }
  }

  /// The left child wins every tie, and the loser is released in the same poll.
  lemma {:induction false} RaceWinnerIsLeftmostReady(c: Computation)
    requires Valid(c) && c.Pair? && c.kind.Race? && !c.phase.Completed? && Poll(c).status.Done?
    ensures Ready(c.first) || Ready(c.second)
    ensures Ready(c.first) ==>
              Poll(c).node.second.Released? && Poll(c).node.first == Poll(c.first).node
              && Finished(Poll(c).node.first)
    ensures !Ready(c.first) ==>
              Poll(c).node.first.Released? && Poll(c).node.second == Poll(c.second).node
              && Finished(Poll(c).node.second)
  {
    PollCompletesExactlyWhenReady(c.first);
    PollKeepsValid(c.first);
    if !Ready(c.first) {
      PollCompletesExactlyWhenReady(c.second);
      PollKeepsValid(c.second);
    }
  }

  // ---------------------------------------------------------------- what a pending poll returns

  /// The leaves still owned by a computation, from left to right.
  function Leaves(c: Computation): seq<Computation> {
    match c
    case Released => []
    case Leaf(_, _, _, _) => [c]
    case Pair(_, _, _, _, first, _, second, _, _) => Leaves(first) + Leaves(second)
  }

  function PendingRecords(leaves: seq<Computation>): seq<Interest>
    requires forall i :: 0 <= i < |leaves| ==> leaves[i].Leaf?
  {
    if leaves == [] then []
    else (if leaves[0].phase.Completed? then [] else leaves[0].records) + PendingRecords(leaves[1..])
  }

  lemma {:induction false} PendingRecordsConcatenate(left: seq<Computation>, right: seq<Computation>)
    requires forall i :: 0 <= i < |left| ==> left[i].Leaf?
    requires forall i :: 0 <= i < |right| ==> right[i].Leaf?
    ensures PendingRecords(left + right) == PendingRecords(left) + PendingRecords(right)
  {
    if left == [] {
      assert left + right == right;
    } else {
      assert (left + right)[1..] == left[1..] + right;
      PendingRecordsConcatenate(left[1..], right);
    }
  }

  lemma {:induction false} LeavesAreLeaves(c: Computation)
    ensures forall i :: 0 <= i < |Leaves(c)| ==> Leaves(c)[i].Leaf? && Leaves(c)[i].frame in Frames(c)
  {
    if c.Pair? {
      LeavesAreLeaves(c.first);
      LeavesAreLeaves(c.second);
    }
  }

  /// A finished computation owns no leaf that is still waiting.
  lemma {:induction false} FinishedHasNoWaitingLeaf(c: Computation)
    requires Valid(c) && (c.Released? || Finished(c))
    ensures forall i :: 0 <= i < |Leaves(c)| ==> Leaves(c)[i].Leaf? && Leaves(c)[i].phase.Completed?
  {
    if c.Pair? {
      FinishedHasNoWaitingLeaf(c.first);
      FinishedHasNoWaitingLeaf(c.second);
    }
  }

  lemma {:induction false} CompletedLeavesHaveNoRecords(leaves: seq<Computation>)
    requires forall i :: 0 <= i < |leaves| ==> leaves[i].Leaf? && leaves[i].phase.Completed?
    ensures PendingRecords(leaves) == []
  {
    if leaves != [] { CompletedLeavesHaveNoRecords(leaves[1..]); }
  }

  /// The interests of a tree are the records of its unfinished leaves in left-to-right order, and
  /// nothing else: the nesting of joins and races leaves no trace.
  lemma {:induction false} InterestsAreTheRecordsOfWaitingLeaves(c: Computation)
    requires Valid(c)
    ensures forall i :: 0 <= i < |Leaves(c)| ==> Leaves(c)[i].Leaf?
    ensures Interests(c) == PendingRecords(Leaves(c))
  {
    LeavesAreLeaves(c);
    match c
    case Released =>
    case Leaf(_, phase, _, records) =>
      assert Leaves(c)[1..] == [];
    case Pair(_, _, phase, _, first, _, second, _, _) =>
      LeavesAreLeaves(first);
      LeavesAreLeaves(second);
      PendingRecordsConcatenate(Leaves(first), Leaves(second));
      if phase.Completed? {
        FinishedHasNoWaitingLeaf(first);
        FinishedHasNoWaitingLeaf(second);
        CompletedLeavesHaveNoRecords(Leaves(first));
        CompletedLeavesHaveNoRecords(Leaves(second));
      } else {
        InterestsAreTheRecordsOfWaitingLeaves(first);
        InterestsAreTheRecordsOfWaitingLeaves(second);
      }
  }

  /// Every readiness pointer that leaves the tree names an unfinished leaf the tree still owns, so a
  /// later signal through it never touches a released frame.
  lemma {:induction false} ReadinessPointersNameLiveLeaves(c: Computation, i: nat)
    requires Valid(c) && i < |Interests(c)|
    ensures Interests(c)[i].readiness in Frames(c)
    ensures exists k :: 0 <= k < |Leaves(c)| && Leaves(c)[k].Leaf? && !Leaves(c)[k].phase.Completed?
                        && Leaves(c)[k].frame == Interests(c)[i].readiness
  {
    match c
    case Released =>
    case Leaf(_, _, _, _) => assert Leaves(c)[0] == c;
    case Pair(_, _, _, _, first, _, second, _, _) =>
      var n := |Interests(first)|;
      if i < n {
        ReadinessPointersNameLiveLeaves(first, i);
        var k :| 0 <= k < |Leaves(first)| && Leaves(first)[k].Leaf? && !Leaves(first)[k].phase.Completed?
                 && Leaves(first)[k].frame == Interests(c)[i].readiness;
        assert Leaves(c)[k] == Leaves(first)[k];
      } else {
        ReadinessPointersNameLiveLeaves(second, i - n);
        var k :| 0 <= k < |Leaves(second)| && Leaves(second)[k].Leaf? && !Leaves(second)[k].phase.Completed?
                 && Leaves(second)[k].frame == Interests(c)[i].readiness;
        assert Leaves(c)[|Leaves(first)| + k] == Leaves(second)[k];
      }
  }

  // ---------------------------------------------------------------- when a poll traps

  function RecordTotal(c: Computation): nat {
    match c
    case Released => 0
    case Leaf(_, _, _, records) => |records|
    case Pair(_, _, _, _, first, _, second, _, _) => RecordTotal(first) + RecordTotal(second)
  }

  lemma {:induction false} InterestsAreBounded(c: Computation)
    ensures |Interests(c)| <= RecordTotal(c)
  {
    if c.Pair? {
      InterestsAreBounded(c.first);
      InterestsAreBounded(c.second);
    }
  }

  lemma {:induction false} PollNeverAddsRecords(c: Computation)
    ensures RecordTotal(Poll(c).node) <= RecordTotal(c)
  {
    if c.Pair? {
      PollNeverAddsRecords(c.first);
      PollNeverAddsRecords(c.second);
    }
  }

  /// The only trap of a valid tree is the interest-count limit.
  lemma {:induction false} BoundedTreesNeverTrap(c: Computation)
    requires Valid(c) && !c.Released? && RecordTotal(c) <= MAX_INTEREST_COUNT
    ensures !Poll(c).status.Trapped?
  {
    if c.Pair? && !c.phase.Completed? {
      BoundedTreesNeverTrap(c.first);
      BoundedTreesNeverTrap(c.second);
      PollNeverAddsRecords(c.first);
      PollNeverAddsRecords(c.second);
      var a := if c.firstDone then c.first else Poll(c.first).node;
      var b := if c.secondDone then c.second else Poll(c.second).node;
      InterestsAreBounded(a);
      InterestsAreBounded(b);
    }
  }

  // ---------------------------------------------------------------- accounts

  /// How many nodes of the tree are frame `f`: one or none in a valid tree.
  function Live(c: Computation, f: nat): nat {
    match c
    case Released => 0
    case Leaf(frame, _, _, _) => if f == frame then 1 else 0
    case Pair(frame, _, _, _, first, _, second, _, _) =>
      (if f == frame then 1 else 0) + Live(first, f) + Live(second, f)
  }

  lemma {:induction false} LiveMeansOwned(c: Computation, f: nat)
    requires Valid(c)
    ensures Live(c, f) == if f in Frames(c) then 1 else 0
  {
    if c.Pair? {
      LiveMeansOwned(c.first, f);
      LiveMeansOwned(c.second, f);
    }
  }

  /// How many interest buffers frame `f` of the tree holds.
  function Buffered(c: Computation, f: nat): nat {
    match c
    case Released => 0
    case Leaf(_, _, _, _) => 0
    case Pair(frame, _, phase, _, first, _, second, _, _) =>
      (if f == frame && phase.Suspended? then 1 else 0) + Buffered(first, f) + Buffered(second, f)
  }

  lemma {:induction false} FinishedIsUnbuffered(c: Computation, f: nat)
    requires Valid(c) && (c.Released? || Finished(c))
    ensures Buffered(c, f) == 0
  {
    if c.Pair? {
      FinishedIsUnbuffered(c.first, f);
      FinishedIsUnbuffered(c.second, f);
    }
  }

  /// How often one event occurs.
  function Count(events: seq<Event>, e: Event): nat {
    multiset(events)[e]
  }

  lemma CountConcatenates(a: seq<Event>, b: seq<Event>, e: Event)
    ensures Count(a + b, e) == Count(a, e) + Count(b, e)
  {
  }

  /// The shape every entry of a pair has: the entry call, the release of a held buffer, two children,
  /// and an ending.
  lemma CountOfPairEntry(entry: Event, c: Computation, a: seq<Event>, b: seq<Event>, ending: seq<Event>, e: Event)
    ensures Count([entry] + BufferRelease(c) + a + b + ending, e)
         == (if entry == e then 1 else 0)
            + (if c.Pair? && c.phase.Suspended? && e == BufferUnmapped(c.frame) then 1 else 0)
            + Count(a, e) + Count(b, e) + Count(ending, e)
  {
    var r := BufferRelease(c);
    assert multiset([entry] + r + a + b + ending)
        == multiset{entry} + multiset(r) + multiset(a) + multiset(b) + multiset(ending);
  }

  lemma CountOfOne(e: Event, x: Event)
    ensures Count([e], x) == if e == x then 1 else 0
    ensures Count([], x) == 0
  {
  }

  /// Conservation of ownership for frame `f` over `events`, which turn `before` into `after`: the
  /// frame is unmapped as often as it stops being owned, and each unmapping goes with one cancel or
  /// one consume.
  ghost predicate FrameBalanced(before: Computation, events: seq<Event>, after: Computation, f: nat) {
    && Live(before, f) == Live(after, f) + Count(events, FrameUnmapped(f))
    && Count(events, FrameUnmapped(f)) == Count(events, Cancelled(f)) + Count(events, Consumed(f))
  }

  /// Conservation of interest buffers: those mapped balance those unmapped and those still held.
  ghost predicate BufferBalanced(before: Computation, events: seq<Event>, after: Computation, f: nat) {
    Buffered(before, f) + Count(events, BufferMapped(f))
      == Buffered(after, f) + Count(events, BufferUnmapped(f))
  }

  /// The counts behind both conservation laws, for one pair entry and one frame.
  lemma PairEntryCounts(entry: Event, c: Computation, a: seq<Event>, b: seq<Event>, ending: seq<Event>, f: nat)
    ensures forall e | e in {FrameUnmapped(f), Cancelled(f), Consumed(f), BufferMapped(f), BufferUnmapped(f)} ::
              Count([entry] + BufferRelease(c) + a + b + ending, e)
              == (if entry == e then 1 else 0)
                 + (if c.Pair? && c.phase.Suspended? && e == BufferUnmapped(c.frame) then 1 else 0)
                 + Count(a, e) + Count(b, e) + Count(ending, e)
  {
    forall e | e in {FrameUnmapped(f), Cancelled(f), Consumed(f), BufferMapped(f), BufferUnmapped(f)} {
      CountOfPairEntry(entry, c, a, b, ending, e);
    }
  }

  lemma CountsOfOne(e: Event, f: nat)
    ensures forall x | x in {FrameUnmapped(f), Cancelled(f), Consumed(f), BufferMapped(f), BufferUnmapped(f)} ::
              Count([e], x) == (if e == x then 1 else 0) && Count([], x) == 0
  {
    forall x | x in {FrameUnmapped(f), Cancelled(f), Consumed(f), BufferMapped(f), BufferUnmapped(f)} {
      CountOfOne(e, x);
    }
  }

  lemma {:induction false} CancelBalances(c: Computation, f: nat)
    ensures FrameBalanced(c, Cancel(c), Released, f)
    ensures BufferBalanced(c, Cancel(c), Released, f)
    ensures Count(Cancel(c), Consumed(f)) == 0
  {
    hide Count;
    match c
    case Released =>
      CountsOfOne(Resumed(0), f);
    case Leaf(frame, _, _, _) =>
      assert Cancel(c) == [Cancelled(frame)] + BufferRelease(c) + [] + [] + [FrameUnmapped(frame)];
      PairEntryCounts(Cancelled(frame), c, [], [], [FrameUnmapped(frame)], f);
      CountsOfOne(FrameUnmapped(frame), f);
    case Pair(frame, _, _, _, first, _, second, _, _) =>
      CancelBalances(first, f);
      CancelBalances(second, f);
      PairEntryCounts(Cancelled(frame), c, Cancel(first), Cancel(second), [FrameUnmapped(frame)], f);
      CountsOfOne(FrameUnmapped(frame), f);
  }

  lemma {:induction false} ConsumeBalances(c: Computation, f: nat)
    requires Valid(c) && (c.Released? || Finished(c))
    ensures FrameBalanced(c, Consume(c), Released, f)
    ensures BufferBalanced(c, Consume(c), Released, f)
    ensures Count(Consume(c), Cancelled(f)) == 0
  {
    hide Count;
    match c
    case Released =>
      CountsOfOne(Resumed(0), f);
    case Leaf(frame, _, _, _) =>
      assert Consume(c) == [Consumed(frame)] + BufferRelease(c) + [] + [] + [FrameUnmapped(frame)];
      PairEntryCounts(Consumed(frame), c, [], [], [FrameUnmapped(frame)], f);
      CountsOfOne(FrameUnmapped(frame), f);
    case Pair(frame, _, _, _, first, _, second, _, _) =>
      ConsumeBalances(first, f);
      ConsumeBalances(second, f);
      assert Consume(c)
          == [Consumed(frame)] + BufferRelease(c) + Consume(first) + Consume(second) + [FrameUnmapped(frame)];
      PairEntryCounts(Consumed(frame), c, Consume(first), Consume(second), [FrameUnmapped(frame)], f);
      CountsOfOne(FrameUnmapped(frame), f);
  }

  lemma {:induction false} PollBalances(c: Computation, f: nat)
    requires !Poll(c).status.Trapped?
    ensures FrameBalanced(c, Poll(c).events, Poll(c).node, f)
    ensures BufferBalanced(c, Poll(c).events, Poll(c).node, f)
    ensures Count(Poll(c).events, Consumed(f)) == 0
  {
    hide Count;
    if !c.Released? { CountsOfOne(Resumed(c.frame), f); }
    if c.Pair? && !c.phase.Completed? {
      var a := Observe(c.firstDone, c.first);
      if !c.firstDone { PollBalances(c.first, f); }
      if c.kind.Race? && a.status.Done? {
        CancelBalances(c.second, f);
        PairEntryCounts(Resumed(c.frame), c, a.events, Cancel(c.second), [], f);
        assert Poll(c).events == [Resumed(c.frame)] + BufferRelease(c) + a.events + Cancel(c.second) + [];
      } else {
        var b := Observe(c.secondDone, c.second);
        if !c.secondDone { PollBalances(c.second, f); }
        PairPollBalances(c, a, b, f);
      }
    }
  }

  lemma PairPollBalances(c: Computation, a: PollResult, b: PollResult, f: nat)
    requires c.Pair? && !c.phase.Completed?
    requires a == Observe(c.firstDone, c.first) && b == Observe(c.secondDone, c.second)
    requires FrameBalanced(c.first, a.events, a.node, f) && FrameBalanced(c.second, b.events, b.node, f)
    requires BufferBalanced(c.first, a.events, a.node, f) && BufferBalanced(c.second, b.events, b.node, f)
    requires Count(a.events, Consumed(f)) == 0 && Count(b.events, Consumed(f)) == 0
    requires !AfterBoth(c, [Resumed(c.frame)] + BufferRelease(c), a, b).status.Trapped?
    ensures var r := AfterBoth(c, [Resumed(c.frame)] + BufferRelease(c), a, b);
            && FrameBalanced(c, r.events, r.node, f)
            && BufferBalanced(c, r.events, r.node, f)
            && Count(r.events, Consumed(f)) == 0
  {
    hide Count, Poll;
    var entered := [Resumed(c.frame)] + BufferRelease(c);
    var ending := if c.kind.Race? && b.status.Done? then Cancel(a.node)
                  else if a.status.Done? && b.status.Done? then []
                  else [BufferMapped(c.frame)];
    assert AfterBoth(c, entered, a, b).events == entered + a.events + b.events + ending;
    PairEntryCounts(Resumed(c.frame), c, a.events, b.events, ending, f);
    CancelBalances(a.node, f);
    CountsOfOne(BufferMapped(c.frame), f);
  }

  // ---------------------------------------------------------------- resumptions

  /// How many nodes of the tree are frame `f`, outside finished nodes and children recorded as done.
  function Open(c: Computation, f: nat): nat {
    match c
    case Released => 0
    case Leaf(frame, _, _, _) => if f == frame then 1 else 0
    case Pair(frame, _, phase, firstDone, first, secondDone, second, _, _) =>
      (if f == frame then 1 else 0)
      + (if phase.Completed? || firstDone then 0 else Open(first, f))
      + (if phase.Completed? || secondDone then 0 else Open(second, f))
  }

  lemma {:induction false} CancelResumesNothing(c: Computation, f: nat)
    ensures Count(Cancel(c), Resumed(f)) == 0
  {
    hide Count;
    match c
    case Released => CountOfOne(Resumed(0), Resumed(f));
    case Leaf(frame, _, _, _) =>
      CountConcatenates([Cancelled(frame)], [FrameUnmapped(frame)], Resumed(f));
      CountOfOne(Cancelled(frame), Resumed(f));
      CountOfOne(FrameUnmapped(frame), Resumed(f));
      assert Cancel(c) == [Cancelled(frame)] + [FrameUnmapped(frame)];
    case Pair(frame, _, _, _, first, _, second, _, _) =>
      CancelResumesNothing(first, f);
      CancelResumesNothing(second, f);
      CountOfPairEntry(Cancelled(frame), c, Cancel(first), Cancel(second), [FrameUnmapped(frame)], Resumed(f));
      CountOfOne(FrameUnmapped(frame), Resumed(f));
  }

  /// A poll resumes the polled computation once, every other node at most once, and nothing that belongs
  /// to a finished node or to a child recorded as done.
  lemma {:induction false} OnlyOpenNodesAreResumed(c: Computation, f: nat)
    requires Valid(c) && !Poll(c).status.Trapped?
    ensures Count(Poll(c).events, Resumed(f)) <= Open(c, f) <= Live(c, f)
    ensures f == c.frame ==> Count(Poll(c).events, Resumed(f)) == 1
  {
    hide Count;
    CountOfOne(Resumed(c.frame), Resumed(f));
    OpenIsLive(c, f);
    if c.Pair? && !c.phase.Completed? {
      PollOfWaitingPair(c);
      LiveMeansOwned(c.first, f);
      LiveMeansOwned(c.second, f);
      OpenIsLive(c.first, f);
      OpenIsLive(c.second, f);
      var a, b := Observe(c.firstDone, c.first), Observe(c.secondDone, c.second);
      if !c.firstDone { OnlyOpenNodesAreResumed(c.first, f); }
      if c.kind.Race? && a.status.Done? {
        CancelResumesNothing(c.second, f);
        CountOfPairEntry(Resumed(c.frame), c, a.events, Cancel(c.second), [], Resumed(f));
        assert Poll(c).events == [Resumed(c.frame)] + BufferRelease(c) + a.events + Cancel(c.second) + [];
      } else {
        if !c.secondDone { OnlyOpenNodesAreResumed(c.second, f); }
        PairResumesOnce(c, a, b, f);
      }
    }
  }

  lemma PairResumesOnce(c: Computation, a: PollResult, b: PollResult, f: nat)
    requires c.Pair? && !AfterBoth(c, [Resumed(c.frame)] + BufferRelease(c), a, b).status.Trapped?
    ensures Count(AfterBoth(c, [Resumed(c.frame)] + BufferRelease(c), a, b).events, Resumed(f))
            == (if f == c.frame then 1 else 0) + Count(a.events, Resumed(f)) + Count(b.events, Resumed(f))
  {
    hide Count;
    var entered := [Resumed(c.frame)] + BufferRelease(c);
    var ending := if c.kind.Race? && b.status.Done? then Cancel(a.node)
                  else if a.status.Done? && b.status.Done? then []
                  else [BufferMapped(c.frame)];
    CancelResumesNothing(a.node, f);
    CountOfOne(BufferMapped(c.frame), Resumed(f));
    assert AfterBoth(c, entered, a, b).events == entered + a.events + b.events + ending;
    CountOfPairEntry(Resumed(c.frame), c, a.events, b.events, ending, Resumed(f));
  }

  lemma {:induction false} OpenIsLive(c: Computation, f: nat)
    ensures Open(c, f) <= Live(c, f)
  {
    if c.Pair? {
      OpenIsLive(c.first, f);
      OpenIsLive(c.second, f);
    }
  }
}
