/**
 The emitted resume, cancel and consume entries of leaf, join and race frames, on a mutable heap.

 Each entry loads and stores frame words, checks what the emitted code checks, and reports a trap
 where the emitted code breaks. A ghost argument names the tree that the frame represents; the
 contracts say that every entry carries out the matching function of `AsyncTree` and touches nothing
 outside the tree.
 */
module AsyncRuntime {
  import opened AsyncTree
  import opened AsyncTreeProofs
  import opened AsyncHeap

  const NO_INTEREST: Interest := Interest(0, 0, 0, 0)

  /// Some address outside a finite set.
  lemma {:induction false} FreshAddressExists(used: set<nat>) returns (a: nat)
    ensures a != 0 && forall x | x in used :: x < a
  {
    if used == {} {
      a := 1;
    } else {
      var x :| x in used;
      var b := FreshAddressExists(used - {x});
      a := if x < b then b else x + 1;
      assert forall y | y in used :: y == x || y in used - {x};
    }
  }

  lemma FactsOfWaitingPair(c: Computation)
    requires Valid(c) && c.Pair? && !c.phase.Completed?
    ensures Separate(c)
    ensures PollFacts(c)
    ensures !Poll(c).status.Trapped? ==> Valid(Poll(c).node) && Frames(Poll(c).node) <= Frames(c)
  {
    PollOfWaitingPair(c);
    PendingPairsHaveInterests(c);
    if !Poll(c).status.Trapped? { PollKeepsValid(c); }
  }

  /// The facts about a waiting pair's next poll that its entry relies on.
  ghost predicate PollFacts(c: Computation)
    requires c.Pair?
  {
    var entered := [Resumed(c.frame)] + BufferRelease(c);
    var a := Observe(c.firstDone, c.first);
    var b := Observe(c.secondDone, c.second);
    && !c.first.Released? && !c.second.Released?
    && (c.firstDone ==> Finished(c.first)) && (c.secondDone ==> Finished(c.second))
    && (c.kind.Race? ==> !c.firstDone && !c.secondDone)
    && (!a.status.Trapped? ==> !a.node.Released? && Frames(a.node) <= Frames(c.first))
    && (!b.status.Trapped? ==> !b.node.Released? && Frames(b.node) <= Frames(c.second))
    && (!a.status.Trapped? && !b.status.Trapped? && !(a.status.Done? && b.status.Done?) ==>
          Interests(a.node) + Interests(b.node) != [])
    && Poll(c) == if a.status.Trapped? then PollResult(Trapped, c, [])
                  else if c.kind.Race? && a.status.Done? then
                    PollResult(Done, Advance(c, Completed, true, a.node, false, Released),
                               entered + a.events + AsyncTree.Cancel(c.second))
                  else if b.status.Trapped? then PollResult(Trapped, c, [])
                  else AfterBoth(c, entered, a, b)
  }

  lemma FramesOnlyShrink(c: Computation)
    ensures Frames(c) <= Frames(c) && Frames(Released) <= Frames(c)
  {
  }

  lemma Appended<T>(t: seq<T>, a: seq<T>, b: seq<T>, c: seq<T>, d: seq<T>)
    ensures t + a + b + c + d == t + (a + b + c + d)
  {
  }

  lemma AppendedLast<T>(t: seq<T>, a: seq<T>, b: seq<T>)
    ensures t + a + b == t + (a + b)
  {
  }

  class Runtime {
    var frames: FrameMap
    var buffers: BufferMap
    var output: map<nat, nat>
    ghost var trace: seq<Event>

    ghost predicate Owns(c: Computation)
      reads this
    {
      Valid(c) && Holds(frames, buffers, c)
    }

    constructor ()
      ensures frames == map[] && buffers == map[] && trace == []
    {
      frames, buffers, output, trace := map[], map[], map[], [];
    }

    // ---------------------------------------------------------------- foreign calls

    /// Some kernel-chosen address outside every live mapping.
    method FreshAddress() returns (a: nat)
      ensures a != 0 && a !in frames && a !in buffers
    {
      ghost var x := FreshAddressExists(buffers.Keys + frames.Keys);
      assert x != 0 && x !in buffers && x !in frames by {
        assert x !in buffers.Keys + frames.Keys;
      }
      a :| a != 0 && a !in buffers && a !in frames;
    }

    /// A private anonymous mapping: zero-filled and disjoint from every live mapping.
    method MapBuffer(owner: nat, count: nat) returns (base: nat)
      modifies this`buffers, this`trace
      ensures base != 0 && base !in old(buffers)
      ensures buffers == old(buffers)[base := seq(count, _ => NO_INTEREST)]
      ensures trace == old(trace) + [BufferMapped(owner)]
    {
      base := FreshAddress();
      buffers := buffers[base := seq(count, _ => NO_INTEREST)];
      trace := trace + [BufferMapped(owner)];
    }

    method UnmapBuffer(owner: nat, base: nat)
      requires base in buffers
      modifies this`buffers, this`trace
      ensures buffers == old(buffers) - {base}
      ensures trace == old(trace) + [BufferUnmapped(owner)]
    {
      buffers := buffers - {base};
      trace := trace + [BufferUnmapped(owner)];
    }

    method UnmapFrame(a: nat)
      requires a in frames
      modifies this`frames, this`trace
      ensures frames == old(frames) - {a}
      ensures trace == old(trace) + [FrameUnmapped(a)]
    {
      frames := frames - {a};
      trace := trace + [FrameUnmapped(a)];
    }

    // ---------------------------------------------------------------- constructors

    /// A wait computation on one interest, or on two that share one readiness word.
    method NewLeaf(interests: seq<(nat, nat, nat)>) returns (a: nat, ghost c: Computation)
      requires 1 <= |interests| <= 2
      modifies this`frames
      ensures c.Leaf? && c.phase.Initial? && c.ready == 0 && a == c.frame && Owns(c)
      ensures |c.records| == |interests|
      ensures forall i :: 0 <= i < |interests| ==>
                c.records[i] == Interest(interests[i].0, interests[i].1, interests[i].2, a)
      ensures Becomes(old(frames), old(buffers), Released, frames, buffers, c)
    {
      a := FreshAddress();
      var records := seq(|interests|, i requires 0 <= i < |interests| =>
        Interest(interests[i].0, interests[i].1, interests[i].2, a));
      c := Leaf(a, Initial, 0, records);
      frames := frames[a := LeafFrame(LEAF_INITIAL, 0, records)];
    }

    /// A join or race that takes ownership of two computations with separate storage.
    method NewPair(kind: Kind, first: nat, second: nat, firstOutput: nat, secondOutput: nat,
                   ghost x: Computation, ghost y: Computation)
      returns (ok: bool, a: nat, ghost c: Computation)
      requires Owns(x) && Owns(y) && first == Handle(x) && second == Handle(y)
      requires Frames(x) !! Frames(y) && Buffers(frames, x) !! Buffers(frames, y)
      modifies this`frames
      ensures ok <==> !x.Released? && !y.Released?
      ensures ok ==> c == Pair(a, kind, Initial, false, x, false, y, firstOutput, secondOutput)
                     && Owns(c) && a !in old(frames) && buffers == old(buffers)
                     && frames == old(frames)[a := frames[a]]
      ensures !ok ==> frames == old(frames)
    {
      c := Released;
      OwnedFramesAreNotNull(x);
      OwnedFramesAreNotNull(y);
      if first == 0 || second == 0 { return false, 0, c; }
      a := FreshAddress();
      c := Pair(a, kind, Initial, false, x, false, y, firstOutput, secondOutput);
      HeldStorageIsMapped(frames, buffers, x);
      HeldStorageIsMapped(frames, buffers, y);
      ghost var f0 := frames;
      frames := frames[a := PairFrame(kind, PAIR_INITIAL,
                                      PairFields(first, second, 0, 0, firstOutput, secondOutput, 0, 0, Null, 0, Null, 0))];
      HoldsWhereHeapsAgree(f0, buffers, frames, buffers, x);
      HoldsWhereHeapsAgree(f0, buffers, frames, buffers, y);
      return true, a, c;
    }

    // ---------------------------------------------------------------- dispatch through the frame header

    method Resume(a: nat, ghost c: Computation) returns (status: Status, pointer: Pointer, count: nat)
      requires Owns(c) && !c.Released? && a == c.frame
      modifies this`frames, this`buffers, this`trace
      ensures status == Poll(c).status
      ensures !status.Trapped? ==>
                && Owns(Poll(c).node)
                && Becomes(old(frames), old(buffers), c, frames, buffers, Poll(c).node)
                && trace == old(trace) + Poll(c).events
      ensures status.Pending? ==> Returns(pointer, count, Poll(c).node)
      ensures status.Done? ==> pointer.Null? && count == 0
      decreases c, 3
    {
      match frames[a]
      case LeafFrame(_, _, _) => status, pointer, count := LeafResume(a, c);
      case PairFrame(_, _, _) => status, pointer, count := PairResume(a, c);
    }

    /// The returned slice is readable storage of the tree and reads as exactly its interests.
    ghost predicate Returns(pointer: Pointer, count: nat, c: Computation)
      reads this
    {
      && !pointer.Null?
      && Readable(frames, buffers, pointer)
      && PointsInto(frames, pointer, c)
      && RecordsAt(frames, buffers, pointer) == Interests(c)
      && count == |Interests(c)|
    }

    // ---------------------------------------------------------------- leaves

    method LeafResume(a: nat, ghost c: Computation) returns (status: Status, pointer: Pointer, count: nat)
      requires Owns(c) && c.Leaf? && a == c.frame
      modifies this`frames, this`trace
      ensures status == Poll(c).status && !status.Trapped?
      ensures Owns(Poll(c).node)
      ensures Becomes(old(frames), old(buffers), c, frames, buffers, Poll(c).node)
      ensures trace == old(trace) + Poll(c).events
      ensures status.Pending? ==> Returns(pointer, count, Poll(c).node)
      ensures status.Done? ==> pointer.Null? && count == 0
    {
      status, pointer, count := Trapped, Null, 0;
      trace := trace + [Resumed(a)];
      var tag, readiness, records := frames[a].tag, frames[a].readiness, frames[a].records;
      if tag == LEAF_INITIAL {
        frames := frames[a := LeafFrame(LEAF_SUSPENDED, readiness, records)];
        return Pending, InFrame(a), |records|;
      } else if tag == LEAF_SUSPENDED {
        if readiness == 0 {
          return Pending, InFrame(a), |records|;
        }
        frames := frames[a := LeafFrame(LEAF_COMPLETED, readiness, records)];
        return Done, Null, 0;
      } else if tag == LEAF_COMPLETED {
        return Done, Null, 0;
      }
      return;
    }

    // ---------------------------------------------------------------- pairs

    /// A completed pair repeats its completion; any state but the initial one is corrupt.
    method PairResume(a: nat, ghost c: Computation) returns (status: Status, pointer: Pointer, count: nat)
      requires Owns(c) && c.Pair? && a == c.frame
      modifies this`frames, this`buffers, this`trace
      ensures status == Poll(c).status
      ensures !status.Trapped? ==> Polled(old(frames), old(buffers), old(trace), c, Poll(c))
      ensures status.Pending? ==> Returns(pointer, count, Poll(c).node)
      ensures status.Done? ==> pointer.Null? && count == 0
      decreases c, 2
    {
      status, pointer, count := Trapped, Null, 0;
      PairIsHeld(frames, buffers, c);
      hide Holds, Becomes, Valid, Buffers, Poll;
      if frames[a].state == PAIR_COMPLETED {
        PollOfCompleted(c);
        BecomesReflexive(frames, buffers, c);
        trace := trace + [Resumed(a)];
        return Done, Null, 0;
      } else if frames[a].state != PAIR_INITIAL {
        return;
      }
      if frames[a].kind.Join? {
        status, pointer, count := JoinPoll(a, c);
      } else {
        status, pointer, count := RacePoll(a, c);
      }
    }

    method JoinPoll(a: nat, ghost c: Computation) returns (status: Status, pointer: Pointer, count: nat)
      requires Owns(c) && c.Pair? && c.kind.Join? && !c.phase.Completed? && a == c.frame
      modifies this`frames, this`buffers, this`trace
      ensures status == Poll(c).status
      ensures !status.Trapped? ==> Polled(old(frames), old(buffers), old(trace), c, Poll(c))
      ensures status.Pending? ==> Returns(pointer, count, Poll(c).node)
      ensures status.Done? ==> pointer.Null? && count == 0
      decreases c, 1
    {
      status, pointer, count := Trapped, Null, 0;
      hide Holds, Becomes, Valid, Buffers, Interests, Poll, AsyncTree.Cancel, Readable, PointsInto, RecordsAt;
      FactsOfWaitingPair(c);
      var ok, m := EnterPending(a, c);
      if !ok { return; }
      ghost var f1, b1, m1, m2 := frames, buffers, m, m;
      ok, m1 := PollChild(a, false, m);
      if !ok { return; }
      BecomesTransitive(old(frames), old(buffers), c, f1, b1, m, frames, buffers, m1);
      f1, b1 := frames, buffers;
      ok, m2 := PollChild(a, true, m1);
      if !ok { return; }
      BecomesTransitive(old(frames), old(buffers), c, f1, b1, m1, frames, buffers, m2);
      status, pointer, count := JoinSettle(a, m2, old(frames), old(buffers), old(trace), c);
    }

    /// The end of a join poll, after both children were observed.
    method JoinSettle(a: nat, ghost m: Computation, ghost f0: FrameMap, ghost b0: BufferMap, ghost t0: seq<Event>,
                      ghost c: Computation)
      returns (status: Status, pointer: Pointer, count: nat)
      requires Valid(c) && c.Pair? && c.kind.Join? && !c.phase.Completed? && a == c.frame
      requires Observed(m, f0, b0, t0, c)
      modifies this`frames, this`buffers, this`trace
      ensures status == Poll(c).status
      ensures !status.Trapped? ==> Polled(f0, b0, t0, c, Poll(c))
      ensures status.Pending? ==> Returns(pointer, count, Poll(c).node)
      ensures status.Done? ==> pointer.Null? && count == 0
    {
      hide Holds, Becomes, Valid, Buffers, Interests, Poll, AsyncTree.Cancel, Readable, PointsInto, RecordsAt;
      status, pointer, count := Trapped, Null, 0;
      FactsOfWaitingPair(c);
      ghost var x, y := Observe(c.firstDone, c.first), Observe(c.secondDone, c.second);
      Appended(t0, [Resumed(a)], BufferRelease(c), x.events, y.events);
      if frames[a].fields.firstDone == 1 && frames[a].fields.secondDone == 1 {
        Complete(a, m, f0, b0, c);
        return Done, Null, 0;
      }
      status, pointer, count := CombinedPending(a, m, f0, b0, c);
      AppendedLast(t0, [Resumed(a)] + BufferRelease(c) + x.events + y.events, [BufferMapped(a)]);
    }

    method RacePoll(a: nat, ghost c: Computation) returns (status: Status, pointer: Pointer, count: nat)
      requires Owns(c) && c.Pair? && c.kind.Race? && !c.phase.Completed? && a == c.frame
      modifies this`frames, this`buffers, this`trace
      ensures status == Poll(c).status
      ensures !status.Trapped? ==> Polled(old(frames), old(buffers), old(trace), c, Poll(c))
      ensures status.Pending? ==> Returns(pointer, count, Poll(c).node)
      ensures status.Done? ==> pointer.Null? && count == 0
      decreases c, 1
    {
      status, pointer, count := Trapped, Null, 0;
      hide Holds, Becomes, Valid, Buffers, Interests, Poll, AsyncTree.Cancel, Readable, PointsInto, RecordsAt;
      FactsOfWaitingPair(c);
      var ok, m := EnterPending(a, c);
      if !ok { return; }
      ghost var f1, b1, m1, m2 := frames, buffers, m, m;
      ok, m1 := PollChild(a, false, m);
      if !ok { return; }
      BecomesTransitive(old(frames), old(buffers), c, f1, b1, m, frames, buffers, m1);
      f1, b1 := frames, buffers;
      ghost var x := Observation(m, false);
      if frames[a].fields.firstDone == 1 {
        ok, m2 := CancelChild(a, true, m1);
        if !ok { return; }
        BecomesTransitive(old(frames), old(buffers), c, f1, b1, m1, frames, buffers, m2);
        Appended(old(trace), [Resumed(a)], BufferRelease(c), x.events, AsyncTree.Cancel(c.second));
        Complete(a, m2, old(frames), old(buffers), c);
        return Done, Null, 0;
      }
      status, pointer, count := RacePollSecond(a, m1, old(frames), old(buffers), old(trace), c);
    }

    /// The second half of a race poll, after a first child that stayed pending.
    method RacePollSecond(a: nat, ghost m1: Computation, ghost f0: FrameMap, ghost b0: BufferMap, ghost t0: seq<Event>,
                          ghost c: Computation)
      returns (status: Status, pointer: Pointer, count: nat)
      requires Valid(c) && c.Pair? && c.kind.Race? && !c.phase.Completed? && a == c.frame
      requires Observe(c.firstDone, c.first).status.Pending?
      requires m1 == Advance(c, Initial, false, Observe(c.firstDone, c.first).node, c.secondDone, c.second)
      requires Midway(m1) && Becomes(f0, b0, c, frames, buffers, m1)
      requires Recorded(frames, buffers, frames[a].fields, m1.first, false) && SlotCount(frames[a].fields, true) == 0
      requires trace == t0 + [Resumed(a)] + BufferRelease(c) + Observe(c.firstDone, c.first).events
      modifies this`frames, this`buffers, this`trace
      ensures status == Poll(c).status
      ensures !status.Trapped? ==> Polled(f0, b0, t0, c, Poll(c))
      ensures status.Pending? ==> Returns(pointer, count, Poll(c).node)
      ensures status.Done? ==> pointer.Null? && count == 0
      decreases c, 0
    {
      status, pointer, count := Trapped, Null, 0;
      hide Holds, Becomes, Valid, Buffers, Interests, Poll, AsyncTree.Cancel, Readable, PointsInto, RecordsAt;
      FactsOfWaitingPair(c);
      ghost var x, y := Observe(c.firstDone, c.first), Observation(m1, true);
      ghost var f1, b1 := frames, buffers;
      var ok, m2 := PollChild(a, true, m1);
      if !ok { return; }
      BecomesTransitive(f0, b0, c, f1, b1, m1, frames, buffers, m2);
      status, pointer, count := RaceSettle(a, m2, f0, b0, t0, c);
    }

    /// The end of a race poll, after both children were observed.
    method RaceSettle(a: nat, ghost m: Computation, ghost f0: FrameMap, ghost b0: BufferMap, ghost t0: seq<Event>,
                      ghost c: Computation)
      returns (status: Status, pointer: Pointer, count: nat)
      requires Valid(c) && c.Pair? && c.kind.Race? && !c.phase.Completed? && a == c.frame
      requires Observe(c.firstDone, c.first).status.Pending?
      requires Observed(m, f0, b0, t0, c)
      modifies this`frames, this`buffers, this`trace
      ensures status == Poll(c).status
      ensures !status.Trapped? ==> Polled(f0, b0, t0, c, Poll(c))
      ensures status.Pending? ==> Returns(pointer, count, Poll(c).node)
      ensures status.Done? ==> pointer.Null? && count == 0
      decreases c, 0, 0
    {
      hide Holds, Becomes, Valid, Buffers, Interests, Poll, AsyncTree.Cancel, Readable, PointsInto, RecordsAt;
      status, pointer, count := Trapped, Null, 0;
      FactsOfWaitingPair(c);
      ghost var x, y := Observe(c.firstDone, c.first), Observe(c.secondDone, c.second);
      Appended(t0, [Resumed(a)], BufferRelease(c), x.events, y.events);
      if frames[a].fields.secondDone == 1 {
        ghost var f1, b1 := frames, buffers;
        var ok, m3 := CancelChild(a, false, m);
        if !ok { return; }
        BecomesTransitive(f0, b0, c, f1, b1, m, frames, buffers, m3);
        AppendedLast(t0, [Resumed(a)] + BufferRelease(c) + x.events + y.events, AsyncTree.Cancel(x.node));
        Complete(a, m3, f0, b0, c);
        return Done, Null, 0;
      }
      status, pointer, count := CombinedPending(a, m, f0, b0, c);
      AppendedLast(t0, [Resumed(a)] + BufferRelease(c) + x.events + y.events, [BufferMapped(a)]);
    }

    /// Both children were observed without a trap, and the pair's words remember what they returned.
    ghost predicate Observed(m: Computation, f0: FrameMap, b0: BufferMap, t0: seq<Event>, c: Computation)
      requires c.Pair?
      reads this
    {
      var x, y := Observe(c.firstDone, c.first), Observe(c.secondDone, c.second);
      && !x.status.Trapped? && !y.status.Trapped?
      && m == Advance(c, Initial, x.status.Done?, x.node, y.status.Done?, y.node)
      && Midway(m) && Becomes(f0, b0, c, frames, buffers, m)
      && Recorded(frames, buffers, frames[m.frame].fields, m.first, false)
      && Recorded(frames, buffers, frames[m.frame].fields, m.second, true)
      && trace == t0 + [Resumed(c.frame)] + BufferRelease(c) + x.events + y.events
    }

    /// What a poll that did not trap leaves behind.
    ghost predicate Polled(f0: FrameMap, b0: BufferMap, t0: seq<Event>, c: Computation, r: PollResult)
      reads this
    {
      Owns(r.node) && Becomes(f0, b0, c, frames, buffers, r.node) && trace == t0 + r.events
    }

    // ---------------------------------------------------------------- the steps of a pair entry

    /// The pair is inside an entry: its words describe `m`, both children are represented, and it
    /// holds no interest buffer.
    ghost predicate Midway(m: Computation)
      reads this
    {
      && m.Pair? && !m.phase.Suspended? && Separate(m)
      && HoldsChildren(frames, buffers, m)
      && PairWords(frames[m.frame], m)
      && BufferWords(buffers, frames[m.frame].fields, false)
    }

    /// Releases the interest buffer of the previous poll and clears the recorded child results.
    method EnterPending(a: nat, ghost c: Computation) returns (ok: bool, ghost m: Computation)
      requires Owns(c) && c.Pair? && !c.phase.Completed? && a == c.frame
      modifies this`frames, this`buffers, this`trace
      ensures ok
      ensures m == Advance(c, Initial, c.firstDone, c.first, c.secondDone, c.second)
      ensures Midway(m) && Becomes(old(frames), old(buffers), c, frames, buffers, m)
      ensures trace == old(trace) + [Resumed(a)] + BufferRelease(c)
      ensures SlotCount(frames[a].fields, false) == 0 && SlotCount(frames[a].fields, true) == 0
    {
      m := Advance(c, Initial, c.firstDone, c.first, c.secondDone, c.second);
      trace := trace + [Resumed(a)];
      ok := ReleaseInterestBuffer(a, c);
      if !ok { return; }
      ghost var w := frames[a].(fields := Cleared(frames[a].fields));
      OwnWordsBecome(frames, buffers, m, w);
      frames := frames[a := frames[a].(fields := Cleared(frames[a].fields))];
    }

    method ReleaseInterestBuffer(a: nat, ghost c: Computation) returns (ok: bool)
      requires Owns(c) && c.Pair? && a == c.frame
      modifies this`frames, this`buffers, this`trace
      ensures ok
      ensures HoldsChildren(frames, buffers, c) && PairWords(frames[a], c)
      ensures BufferWords(buffers, frames[a].fields, false)
      ensures Becomes(old(frames), old(buffers), c, frames, buffers, c)
      ensures trace == old(trace) + BufferRelease(c)
    {
      HeldStorageIsMapped(frames, buffers, c);
      var p := frames[a].fields;
      if p.buffer == 0 {
        return p.bufferSize == 0;
      }
      if p.bufferSize == 0 { return false; }
      UnmapBuffer(a, p.buffer);
      frames := frames[a := frames[a].(fields := p.(buffer := 0, bufferSize := 0))];
      HoldsWhereHeapsAgree(old(frames), old(buffers), frames, buffers, c.first);
      HoldsWhereHeapsAgree(old(frames), old(buffers), frames, buffers, c.second);
      return true;
    }

    /// Polls one child unless it is done, and records its completion or its pending interests.
    method PollChild(a: nat, right: bool, ghost m: Computation) returns (ok: bool, ghost e: Computation)
      requires Midway(m) && a == m.frame && !ChildOf(m, right).Released?
      requires DoneOf(m, right) ==> Finished(ChildOf(m, right))
      requires SlotCount(frames[a].fields, right) == 0
      modifies this`frames, this`buffers, this`trace
      ensures ok <==> !Observation(m, right).status.Trapped?
      ensures ok ==>
                && e == WithChild(m, right, Observation(m, right).status.Done?, Observation(m, right).node)
                && Midway(e) && Becomes(old(frames), old(buffers), m, frames, buffers, e)
                && trace == old(trace) + Observation(m, right).events
                && Recorded(frames, buffers, frames[a].fields, ChildOf(e, right), right)
                && SlotCount(frames[a].fields, !right) == old(SlotCount(frames[a].fields, !right))
                && (old(Recorded(frames, buffers, frames[a].fields, ChildOf(m, !right), !right))
                    ==> Recorded(frames, buffers, frames[a].fields, ChildOf(m, !right), !right))
      decreases ChildOf(m, right), 5
    {
      hide Holds, Becomes, Valid, Poll, Buffers, Readable, PointsInto, RecordsAt;
      e := m;
      OwnedFramesAreNotNull(ChildOf(m, right));
      var done := if right then frames[a].fields.secondDone else frames[a].fields.firstDone;
      if done == 1 {
        BecomesReflexive(frames, buffers, m);
        return true, m;
      }
      if done != 0 { return false, m; }
      var handle := if right then frames[a].fields.second else frames[a].fields.first;
      if handle == 0 { return false, m; }
      ok, e := ResumeChild(a, right, handle, m);
    }

    method ResumeChild(a: nat, right: bool, handle: nat, ghost m: Computation) returns (ok: bool, ghost e: Computation)
      requires Midway(m) && a == m.frame && !ChildOf(m, right).Released? && handle == ChildOf(m, right).frame
      requires !DoneOf(m, right) && SlotCount(frames[a].fields, right) == 0
      modifies this`frames, this`buffers, this`trace
      ensures ok <==> !Poll(ChildOf(m, right)).status.Trapped?
      ensures ok ==>
                && e == WithChild(m, right, Poll(ChildOf(m, right)).status.Done?, Poll(ChildOf(m, right)).node)
                && Midway(e) && Becomes(old(frames), old(buffers), m, frames, buffers, e)
                && trace == old(trace) + Poll(ChildOf(m, right)).events
                && Recorded(frames, buffers, frames[a].fields, ChildOf(e, right), right)
                && SlotCount(frames[a].fields, !right) == old(SlotCount(frames[a].fields, !right))
                && (old(Recorded(frames, buffers, frames[a].fields, ChildOf(m, !right), !right))
                    ==> Recorded(frames, buffers, frames[a].fields, ChildOf(m, !right), !right))
      decreases ChildOf(m, right), 4
    {
      hide Holds, Becomes, Valid, Poll, Buffers, Readable, PointsInto, RecordsAt;
      ghost var f0, b0, child, other := frames, buffers, ChildOf(m, right), ChildOf(m, !right);
      ghost var o := Poll(child);
      e := m;
      var status, pointer, count := Resume(handle, child);
      if status.Trapped? { return false, m; }
      PollKeepsValid(child);
      e := WithChild(m, right, status.Done?, o.node);
      ghost var f1 := frames;
      ChildEntryHolds(f0, b0, f1, buffers, m, right, status.Done?, o.node);
      ChildEntryBecomes(f0, b0, f1, buffers, m, right, status.Done?, o.node);
      if status.Done? {
        SetDone(a, right, e);
      } else {
        if pointer.Null? || count == 0 || count > MAX_INTEREST_COUNT { return false, e; }
        SetPending(a, right, pointer, count, e);
      }
      BecomesTransitive(f0, b0, m, f1, buffers, e, frames, buffers, e);
      RecordedIsFramed(f0, b0, f0[a].fields, frames, buffers, frames[a].fields, other, !right);
      return true, e;
    }

    method SetDone(a: nat, right: bool, ghost e: Computation)
      requires e.Pair? && a == e.frame && !e.phase.Suspended? && Separate(e) && HoldsChildren(frames, buffers, e)
      requires DoneOf(e, right) && Interests(ChildOf(e, right)) == []
      requires PairWords(frames[a], WithChild(e, right, false, ChildOf(e, right)))
      requires BufferWords(buffers, frames[a].fields, false) && SlotCount(frames[a].fields, right) == 0
      modifies this`frames
      ensures Midway(e) && Becomes(old(frames), old(buffers), e, frames, buffers, e)
      ensures Recorded(frames, buffers, frames[a].fields, ChildOf(e, right), right)
      ensures SlotPointer(frames[a].fields, !right) == old(SlotPointer(frames[a].fields, !right))
      ensures SlotCount(frames[a].fields, !right) == old(SlotCount(frames[a].fields, !right))
      ensures frames == old(frames)[a := frames[a]]
    {
      var p := frames[a].fields;
      var w := frames[a].(fields := if right then p.(secondDone := 1) else p.(firstDone := 1));
      OwnWordsBecome(frames, buffers, e, w);
      frames := frames[a := w];
    }

    method SetPending(a: nat, right: bool, pointer: Pointer, count: nat, ghost e: Computation)
      requires e.Pair? && a == e.frame && !e.phase.Suspended? && Separate(e) && HoldsChildren(frames, buffers, e)
      requires PairWords(frames[a], e) && BufferWords(buffers, frames[a].fields, false)
      requires Returns(pointer, count, ChildOf(e, right))
      modifies this`frames
      ensures Midway(e) && Becomes(old(frames), old(buffers), e, frames, buffers, e)
      ensures Recorded(frames, buffers, frames[a].fields, ChildOf(e, right), right)
      ensures SlotPointer(frames[a].fields, !right) == old(SlotPointer(frames[a].fields, !right))
      ensures SlotCount(frames[a].fields, !right) == old(SlotCount(frames[a].fields, !right))
      ensures frames == old(frames)[a := frames[a]]
    {
      var p := frames[a].fields;
      var w := frames[a].(fields := if right then p.(secondPointer := pointer, secondCount := count)
                                    else p.(firstPointer := pointer, firstCount := count));
      OwnWordsBecome(frames, buffers, e, w);
      ReadingIsFramed(frames, buffers, frames[a := w], buffers, pointer, ChildOf(e, right));
      frames := frames[a := w];
    }

    /// Marks the pair completed.
    method Complete(a: nat, ghost m: Computation, ghost f0: FrameMap, ghost b0: BufferMap, ghost c: Computation)
      requires Midway(m) && a == m.frame
      requires Becomes(f0, b0, c, frames, buffers, m) && Frames(m) <= Frames(c)
      modifies this`frames
      ensures var d := Advance(m, Completed, m.firstDone, m.first, m.secondDone, m.second);
              Holds(frames, buffers, d) && Becomes(f0, b0, c, frames, buffers, d)
    {
      ghost var f1 := frames;
      ghost var w := frames[a].(state := PAIR_COMPLETED);
      OwnWordsBecome(frames, buffers, m, w);
      frames := frames[a := frames[a].(state := PAIR_COMPLETED)];
      BecomesTransitive(f0, b0, c, f1, buffers, m, frames, buffers, m);
    }

    // ---------------------------------------------------------------- combined interests

    /// Maps one buffer for both children's interests and copies them from left to right.
    method CombinedPending(a: nat, ghost m: Computation, ghost f0: FrameMap, ghost b0: BufferMap, ghost c: Computation)
      returns (status: Status, pointer: Pointer, count: nat)
      requires a in frames && Becomes(f0, b0, c, frames, buffers, m) && Frames(m) <= Frames(c)
      requires Midway(m) && m.phase.Initial? && a == m.frame
      requires Recorded(frames, buffers, frames[a].fields, m.first, false)
      requires Recorded(frames, buffers, frames[a].fields, m.second, true)
      requires Interests(m.first) + Interests(m.second) != []
      modifies this`frames, this`buffers, this`trace
      ensures status ==
              if |Interests(m.first)| + |Interests(m.second)| > MAX_INTEREST_COUNT then Trapped else Pending
      ensures status.Pending? ==>
                var d := Advance(m, Suspended, m.firstDone, m.first, m.secondDone, m.second);
                && Holds(frames, buffers, d)
                && Becomes(f0, b0, c, frames, buffers, d)
                && trace == old(trace) + [BufferMapped(a)]
                && Returns(pointer, count, d)
    {
      status, pointer, count := Trapped, Null, 0;
      hide Becomes, Valid, Buffers, Holds;
      ghost var left, right := Interests(m.first), Interests(m.second);
      var p := frames[a].fields;
      count := p.firstCount + p.secondCount;
      if count >= 0x1_0000_0000_0000_0000 { return; }
      if count == 0 { return; }
      if count > MAX_INTEREST_COUNT { return; }
      var base := MapAndCopy(a, p, left, right);
      StoreBuffer(a, base, count, m, f0, b0, c, old(buffers));
      return Pending, InBuffer(base), count;
    }

    /// Stores a filled buffer and its byte size in the pair.
    method StoreBuffer(a: nat, base: nat, count: nat, ghost m: Computation, ghost f0: FrameMap, ghost b0: BufferMap,
                       ghost c: Computation, ghost b1: BufferMap)
      requires m.Pair? && a == m.frame && m.phase.Initial? && Separate(m) && HoldsChildren(frames, b1, m)
      requires PairWords(frames[a], m) && frames[a].fields.buffer == 0
      requires Becomes(f0, b0, c, frames, b1, m) && Frames(m) <= Frames(c)
      requires base != 0 && base !in b1 && buffers == b1[base := Interests(m.first) + Interests(m.second)]
      requires 0 < count == |Interests(m.first)| + |Interests(m.second)| <= MAX_INTEREST_COUNT
      modifies this`frames
      ensures var d := Advance(m, Suspended, m.firstDone, m.first, m.secondDone, m.second);
              && Holds(frames, buffers, d) && Becomes(f0, b0, c, frames, buffers, d)
              && Returns(InBuffer(base), count, d)
    {
      hide Becomes, Valid, Buffers, Holds;
      ghost var f1 := frames;
      var q := frames[a].fields.(bufferSize := count * INTEREST_RECORD_SIZE % 0x1_0000_0000_0000_0000, buffer := base);
      frames := frames[a := frames[a].(fields := q)];
      ghost var d := Advance(m, Suspended, m.firstDone, m.first, m.secondDone, m.second);
      BufferIsAttached(f1, b1, frames[a], m, base, Interests(m.first) + Interests(m.second));
      BecomesTransitive(f0, b0, c, f1, b1, m, frames, buffers, d);
    }

    method MapAndCopy(a: nat, p: PairFields, ghost left: seq<Interest>, ghost right: seq<Interest>) returns (base: nat)
      requires p.firstCount == |left| && p.secondCount == |right|
      requires left != [] ==>
                 Readable(frames, buffers, p.firstPointer) && RecordsAt(frames, buffers, p.firstPointer) == left
      requires right != [] ==>
                 Readable(frames, buffers, p.secondPointer) && RecordsAt(frames, buffers, p.secondPointer) == right
      modifies this`buffers, this`trace
      ensures base != 0 && base !in old(buffers) && buffers == old(buffers)[base := left + right]
      ensures trace == old(trace) + [BufferMapped(a)]
    {
      base := MapBuffer(a, p.firstCount + p.secondCount);
      CopyRecords(p.firstPointer, p.firstCount, base, 0, left);
      CopyRecords(p.secondPointer, p.secondCount, base, p.firstCount, right);
      assert buffers[base] == left + right;
    }

    method CopyRecords(source: Pointer, n: nat, base: nat, at: nat, ghost records: seq<Interest>)
      requires n == |records| && base in buffers && at + n <= |buffers[base]|
      requires records != [] ==>
                 && source != InBuffer(base)
                 && Readable(frames, buffers, source) && RecordsAt(frames, buffers, source) == records
      modifies this`buffers
      ensures buffers == old(buffers)[base := old(buffers)[base][..at] + records + old(buffers)[base][at + n..]]
    {
      ghost var before := buffers;
      assert before[base] == before[base][..at] + [] + before[base][at..];
      var i := 0;
      while i < n
        invariant 0 <= i <= n
        invariant before[base] == before[base][..at] + before[base][at..]
        invariant buffers == before[base := before[base][..at] + records[..i] + before[base][at + i..]]
      {
        var record := match source { case InFrame(f) => frames[f].records[i] case InBuffer(b) => buffers[b][i] };
        buffers := buffers[base := buffers[base][at + i := record]];
        assert buffers[base] == before[base][..at] + records[..i + 1] + before[base][at + i + 1..];
        i := i + 1;
      }
      assert records[..n] == records;
    }

    // ---------------------------------------------------------------- cancel and consume

    method Cancel(a: nat, ghost c: Computation) returns (ok: bool)
      requires Owns(c) && !c.Released? && a == c.frame
      modifies this`frames, this`buffers, this`trace
      ensures ok
      ensures Becomes(old(frames), old(buffers), c, frames, buffers, Released)
      ensures trace == old(trace) + AsyncTree.Cancel(c)
      decreases c, 3
    {
      match frames[a]
      case LeafFrame(tag, _, _) =>
        trace := trace + [Cancelled(a)];
        if tag != LEAF_INITIAL && tag != LEAF_SUSPENDED && tag != LEAF_COMPLETED { return false; }
        UnmapFrame(a);
        return true;
      case PairFrame(kind, _, _) =>
        if kind.Join? {
          ok := JoinCancel(a, c);
        } else {
          ok := RaceCancel(a, c);
        }
    }

    method JoinCancel(a: nat, ghost c: Computation) returns (ok: bool)
      requires Owns(c) && c.Pair? && c.kind.Join? && a == c.frame
      modifies this`frames, this`buffers, this`trace
      ensures ok
      ensures Becomes(old(frames), old(buffers), c, frames, buffers, Released)
      ensures trace == old(trace) + AsyncTree.Cancel(c)
      decreases c, 2
    {
      PairIsHeld(frames, buffers, c);
      if frames[a].state != PAIR_INITIAL && frames[a].state != PAIR_COMPLETED { return false; }
      ok := CancelAll(a, c);
    }

    method RaceCancel(a: nat, ghost c: Computation) returns (ok: bool)
      requires Owns(c) && c.Pair? && c.kind.Race? && a == c.frame
      modifies this`frames, this`buffers, this`trace
      ensures ok
      ensures Becomes(old(frames), old(buffers), c, frames, buffers, Released)
      ensures trace == old(trace) + AsyncTree.Cancel(c)
      decreases c, 2
    {
      PairIsHeld(frames, buffers, c);
      if frames[a].state == PAIR_INITIAL {
        ok := CancelAll(a, c);
      } else if frames[a].state == PAIR_COMPLETED {
        ok := CancelWinner(a, c);
      } else {
        return false;
      }
    }

    /// Releases the interest buffer and both children, which are still owned.
    method CancelAll(a: nat, ghost c: Computation) returns (ok: bool)
      requires Owns(c) && c.Pair? && a == c.frame && !c.first.Released? && !c.second.Released?
      modifies this`frames, this`buffers, this`trace
      ensures ok
      ensures Becomes(old(frames), old(buffers), c, frames, buffers, Released)
      ensures trace == old(trace) + AsyncTree.Cancel(c)
      decreases c, 1
    {
      hide Holds, Becomes, Valid, Buffers, Frames;
      PairIsHeld(frames, buffers, c);
      trace := trace + [Cancelled(a)];
      ok := ReleaseInterestBuffer(a, c);
      if !ok { return false; }
      ghost var f1, b1 := frames, buffers;
      ok := CancelBoth(a, c);
      FramesOnlyShrink(c);
      BecomesTransitive(old(frames), old(buffers), c, f1, b1, c, frames, buffers, Released);
      ghost var x, y := AsyncTree.Cancel(c.first), AsyncTree.Cancel(c.second);
      Appended(old(trace), [Cancelled(a)], BufferRelease(c), x, y);
      AppendedLast(old(trace), [Cancelled(a)] + BufferRelease(c) + x + y, [FrameUnmapped(a)]);
    }

    /// Releases the retained winner of a completed race.
    method CancelWinner(a: nat, ghost c: Computation) returns (ok: bool)
      requires Owns(c) && c.Pair? && c.kind.Race? && c.phase.Completed? && a == c.frame
      modifies this`frames, this`buffers, this`trace
      ensures ok
      ensures Becomes(old(frames), old(buffers), c, frames, buffers, Released)
      ensures trace == old(trace) + AsyncTree.Cancel(c)
      decreases c, 1
    {
      hide Holds, Becomes, Buffers, Frames;
      PairIsHeld(frames, buffers, c);
      ghost var m, f0, b0 := c, frames, buffers;
      trace := trace + [Cancelled(a)];
      var right := frames[a].fields.firstDone != 1;
      if right && frames[a].fields.secondDone != 1 { return false; }
      ok, m := CancelChild(a, right, c);
      if !ok { return false; }
      OnlyChildrenWereReleased(c, m, m);
      FinishRelease(a, f0, b0, c, m);
      ghost var x, y := AsyncTree.Cancel(c.first), AsyncTree.Cancel(c.second);
      Appended(old(trace), [Cancelled(a)], BufferRelease(c), x, y);
      AppendedLast(old(trace), [Cancelled(a)] + BufferRelease(c) + x + y, [FrameUnmapped(a)]);
      assert old(trace) + [Cancelled(a)] + AsyncTree.Cancel(ChildOf(c, right))
          == old(trace) + [Cancelled(a)] + BufferRelease(c) + x + y;
    }

    /// Cancels two children that are still owned, then unmaps the pair.
    method CancelBoth(a: nat, ghost c: Computation) returns (ok: bool)
      requires c.Pair? && Separate(c) && a == c.frame && !c.first.Released? && !c.second.Released?
      requires HoldsChildren(frames, buffers, c) && PairWords(frames[a], c)
      requires BufferWords(buffers, frames[a].fields, false)
      modifies this`frames, this`buffers, this`trace
      ensures ok
      ensures Becomes(old(frames), old(buffers), c, frames, buffers, Released)
      ensures trace == old(trace) + AsyncTree.Cancel(c.first) + AsyncTree.Cancel(c.second) + [FrameUnmapped(a)]
      decreases c, 0
    {
      hide Holds, Valid;
      ghost var m := if c.phase.Suspended? then Advance(c, Initial, c.firstDone, c.first, c.secondDone, c.second) else c;
      ghost var m1, m2;
      ok, m1 := CancelChild(a, false, m);
      if !ok { return false; }
      ghost var f1, b1 := frames, buffers;
      ok, m2 := CancelChild(a, true, m1);
      if !ok { return false; }
      BecomesTransitive(old(frames), old(buffers), m, f1, b1, m1, frames, buffers, m2);
      FinishRelease(a, old(frames), old(buffers), m, m2);
    }

    /// Unmaps a pair whose children are gone.
    method FinishRelease(a: nat, ghost f0: FrameMap, ghost b0: BufferMap, ghost c: Computation, ghost m: Computation)
      requires Midway(m) && a == m.frame && m.first.Released? && m.second.Released?
      requires Becomes(f0, b0, c, frames, buffers, m) && Frames(m) <= Frames(c)
      modifies this`frames, this`trace
      ensures Becomes(f0, b0, c, frames, buffers, Released)
      ensures trace == old(trace) + [FrameUnmapped(a)]
    {
      FrameReleaseBecomes(frames, buffers, m);
      ghost var f1 := frames;
      UnmapFrame(a);
      BecomesTransitive(f0, b0, c, f1, buffers, m, frames, buffers, Released);
    }

    /// Takes one child's handle out of the pair before the child's entry runs.
    method TakeHandle(a: nat, right: bool, ghost m: Computation) returns (handle: nat)
      requires Midway(m) && a == m.frame && !ChildOf(m, right).Released?
      modifies this`frames
      ensures handle == ChildOf(m, right).frame != 0
      ensures a in frames && frames[a].PairFrame? && HoldsChildren(frames, buffers, m)
      ensures PairWords(frames[a], WithChild(m, right, DoneOf(m, right), Released))
      ensures frames[a].fields.buffer == 0 && frames[a].fields.bufferSize == 0
      ensures Becomes(old(frames), old(buffers), m, frames, buffers, m)
    {
      OwnedFramesAreNotNull(ChildOf(m, right));
      var p := frames[a].fields;
      handle := if right then p.second else p.first;
      var w := frames[a].(fields := if right then p.(second := 0) else p.(first := 0));
      OwnWordsBecome(frames, buffers, m, w);
      frames := frames[a := w];
    }

    method CancelChild(a: nat, right: bool, ghost m: Computation) returns (ok: bool, ghost e: Computation)
      requires Midway(m) && a == m.frame && !ChildOf(m, right).Released?
      modifies this`frames, this`buffers, this`trace
      ensures ok
      ensures e == WithChild(m, right, DoneOf(m, right), Released)
      ensures Midway(e) && Becomes(old(frames), old(buffers), m, frames, buffers, e)
      ensures trace == old(trace) + AsyncTree.Cancel(ChildOf(m, right))
      decreases ChildOf(m, right), 4
    {
      e := WithChild(m, right, DoneOf(m, right), Released);
      hide Holds, Becomes, Valid, Buffers;
      ghost var f0, b0, child := frames, buffers, ChildOf(m, right);
      var handle := TakeHandle(a, right, m);
      ghost var f1 := frames;
      ok := Cancel(handle, child);
      if !ok { return; }
      ReleasedIsHeld(frames, buffers);
      ChildEntryHolds(f1, b0, frames, buffers, m, right, DoneOf(m, right), Released);
      ChildEntryBecomes(f1, b0, frames, buffers, m, right, DoneOf(m, right), Released);
      BecomesTransitive(f0, b0, m, f1, b0, m, frames, buffers, e);
    }

    method ConsumeChild(a: nat, right: bool, target: nat, ghost m: Computation) returns (ok: bool, ghost e: Computation)
      requires Midway(m) && a == m.frame && Finished(ChildOf(m, right))
      modifies this`frames, this`buffers, this`trace, this`output
      ensures ok
      ensures e == WithChild(m, right, DoneOf(m, right), Released)
      ensures Midway(e) && Becomes(old(frames), old(buffers), m, frames, buffers, e)
      ensures trace == old(trace) + AsyncTree.Consume(ChildOf(m, right))
      ensures output == OutputOf(ChildOf(m, right), target, old(output))
      decreases ChildOf(m, right), 4
    {
      e := WithChild(m, right, DoneOf(m, right), Released);
      hide Holds, Becomes, Valid, Buffers;
      ghost var f0, b0, child := frames, buffers, ChildOf(m, right);
      var handle := TakeHandle(a, right, m);
      ghost var f1 := frames;
      ok := Consume(handle, target, child);
      if !ok { return; }
      ReleasedIsHeld(frames, buffers);
      ChildEntryHolds(f1, b0, frames, buffers, m, right, DoneOf(m, right), Released);
      ChildEntryBecomes(f1, b0, frames, buffers, m, right, DoneOf(m, right), Released);
      BecomesTransitive(f0, b0, m, f1, b0, m, frames, buffers, e);
    }

    method Consume(a: nat, target: nat, ghost c: Computation) returns (ok: bool)
      requires Owns(c) && !c.Released? && a == c.frame
      modifies this`frames, this`buffers, this`trace, this`output
      ensures ok <==> Finished(c)
      ensures ok ==> Becomes(old(frames), old(buffers), c, frames, buffers, Released)
      ensures ok ==> trace == old(trace) + AsyncTree.Consume(c)
      ensures ok ==> output == OutputOf(c, target, old(output))
      decreases c, 3
    {
      trace := trace + [Consumed(a)];
      match frames[a]
      case LeafFrame(tag, _, _) =>
        if tag != LEAF_COMPLETED { return false; }
        UnmapFrame(a);
        return true;
      case PairFrame(kind, state, p) =>
        if state != PAIR_COMPLETED { return false; }
        if kind.Join? {
          ok := ConsumeBoth(a, target, c);
        } else {
          ok := ConsumeWinner(a, target, c);
        }
    }

    method ConsumeBoth(a: nat, target: nat, ghost c: Computation) returns (ok: bool)
      requires Owns(c) && c.Pair? && c.kind.Join? && Finished(c) && a == c.frame
      modifies this`frames, this`buffers, this`trace, this`output
      ensures ok
      ensures Becomes(old(frames), old(buffers), c, frames, buffers, Released)
      ensures old(trace) + AsyncTree.Consume(c)[1..] == trace
      ensures output == OutputOf(c, target, old(output))
      decreases c, 2
    {
      hide Holds, Becomes, Buffers, Frames;
      PairIsHeld(frames, buffers, c);
      ghost var m, m1, f0, b0 := c, c, frames, buffers;
      var p := frames[a].fields;
      ok, m1 := ConsumeChild(a, false, target + p.firstOutput, c);
      if !ok { return false; }
      ghost var f1, b1 := frames, buffers;
      ok, m := ConsumeChild(a, true, target + p.secondOutput, m1);
      if !ok { return false; }
      OnlyChildrenWereReleased(c, m1, m);
      BecomesTransitive(f0, b0, c, f1, b1, m1, frames, buffers, m);
      FinishRelease(a, f0, b0, c, m);
    }

    /// Writes the tag of the winning branch and consumes its output.
    method ConsumeWinner(a: nat, target: nat, ghost c: Computation) returns (ok: bool)
      requires Owns(c) && c.Pair? && c.kind.Race? && Finished(c) && a == c.frame
      modifies this`frames, this`buffers, this`trace, this`output
      ensures ok
      ensures Becomes(old(frames), old(buffers), c, frames, buffers, Released)
      ensures old(trace) + AsyncTree.Consume(c)[1..] == trace
      ensures output == OutputOf(c, target, old(output))
      decreases c, 2
    {
      hide Holds, Becomes, Buffers, Frames;
      PairIsHeld(frames, buffers, c);
      ghost var m, f0, b0 := c, frames, buffers;
      var p := frames[a].fields;
      var right := p.firstDone != 1;
      if right && p.secondDone != 1 { return false; }
      output := output[target + p.firstOutput := if right then 1 else 0];
      ok, m := ConsumeChild(a, right, target + p.secondOutput, c);
      if !ok { return false; }
      OnlyChildrenWereReleased(c, m, m);
      FinishRelease(a, f0, b0, c, m);
    }
  }

  function Cleared(p: PairFields): PairFields {
    p.(firstPointer := Null, firstCount := 0, secondPointer := Null, secondCount := 0)
  }

  ghost function Observation(m: Computation, right: bool): PollResult
    requires m.Pair?
  {
    Observe(DoneOf(m, right), ChildOf(m, right))
  }
}
