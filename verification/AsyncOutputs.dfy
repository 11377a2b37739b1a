/**
 What consuming a completed tree writes, told from the polls that completed it.

 A race writes one byte: zero when its first child was ready at the poll that completed it, and one
 otherwise. The byte lies at the sum of the placements on the way from the root.
 */
module AsyncOutputs {
  import opened Results
  import opened AsyncTree
  import opened AsyncTreeProofs
  import opened AsyncHeap
  import Runs = AsyncRuns

  /// The way from the root to a node: false to a first child, true to a second.
  type Path = seq<bool>

  function At(c: Computation, path: Path): Computation
    decreases |path|
  {
    if path == [] then c
    else if !c.Pair? then Released
    else At(if path[0] then c.second else c.first, path[1..])
  }

  predicate IsRace(c: Computation) {
    c.Pair? && c.kind.Race?
  }

  /// Where a node's output starts, from where the root's starts. Both outputs of a join have a place; the
  /// winner of a race has the second one.
  function Offset(c: Computation, path: Path): nat
    decreases |path|
  {
    if path == [] || !c.Pair? then 0
    else if path[0] then c.secondOutput + Offset(c.second, path[1..])
    else (if c.kind.Join? then c.firstOutput else c.secondOutput) + Offset(c.first, path[1..])
  }

  /// A race has its tag at its first place.
  function TagPlace(c: Computation, path: Path): nat
    requires IsRace(At(c, path))
  {
    Offset(c, path) + At(c, path).firstOutput
  }

  // ---------------------------------------------------------------- consuming

  /// Completed down to its leaves, with the losers of races released.
  predicate Complete(c: Computation) {
    match c
    case Released => true
    case Leaf(_, phase, _, _) => phase.Completed?
    case Pair(_, kind, phase, firstDone, first, _, second, _, _) =>
      && phase.Completed? && Complete(first) && Complete(second)
      && (kind.Race? ==> if firstDone then second.Released? else first.Released?)
  }

  lemma {:induction false} FinishedIsComplete(c: Computation)
    requires Valid(c) && (Finished(c) || c.Released?)
    ensures Complete(c)
  {
    if c.Pair? {
      FinishedIsComplete(c.first);
      FinishedIsComplete(c.second);
    }
  }

  /// Another race has its tag at this address.
  ghost predicate TagElsewhere(c: Computation, target: nat, path: Path, address: nat) {
    IsRace(At(c, path)) ==> target + TagPlace(c, path) != address
  }

  ghost predicate NoTagAt(c: Computation, target: nat, address: nat) {
    forall path: Path :: TagElsewhere(c, target, path, address)
  }

  lemma PathsBelow(c: Computation, right: bool, path: Path)
    requires c.Pair?
    ensures At(c, [right] + path) == At(if right then c.second else c.first, path)
    ensures Offset(c, [right] + path) ==
            (if right || c.kind.Race? then c.secondOutput else c.firstOutput) + Offset(if right then c.second else c.first, path)
  {
    assert ([right] + path)[1..] == path;
  }

  lemma NoTagBelow(c: Computation, target: nat, address: nat, right: bool)
    requires c.Pair? && NoTagAt(c, target, address)
    ensures NoTagAt(if right then c.second else c.first, target + if right || c.kind.Race? then c.secondOutput else c.firstOutput, address)
  {
    var d, at := if right then c.second else c.first, target + if right || c.kind.Race? then c.secondOutput else c.firstOutput;
    forall path: Path ensures TagElsewhere(d, at, path, address) {
      PathsBelow(c, right, path);
      assert TagElsewhere(c, target, [right] + path, address);
    }
  }

  /// Memory outside the tags keeps its bytes.
  lemma {:induction false} OtherBytesStay(c: Computation, target: nat, memory: map<nat, nat>, address: nat)
    requires Complete(c) && NoTagAt(c, target, address)
    ensures address in OutputOf(c, target, memory) <==> address in memory
    ensures address in memory ==> OutputOf(c, target, memory)[address] == memory[address]
    decreases c
  {
    if c.Pair? {
      NoTagBelow(c, target, address, false);
      NoTagBelow(c, target, address, true);
      if c.kind.Join? {
        OtherBytesStay(c.first, target + c.firstOutput, memory, address);
        OtherBytesStay(c.second, target + c.secondOutput, OutputOf(c.first, target + c.firstOutput, memory), address);
      } else {
        assert TagElsewhere(c, target, [], address);
        var tagged := memory[target + c.firstOutput := if c.firstDone then 0 else 1];
        OtherBytesStay(if c.firstDone then c.first else c.second, target + c.secondOutput, tagged, address);
      }
    }
  }

  /// The tags of all other races lie at other places.
  ghost predicate OwnPlace(c: Computation, path: Path)
    requires IsRace(At(c, path))
  {
    forall other: Path | other != path :: PlacedApart(c, path, other)
  }

  ghost predicate PlacedApart(c: Computation, path: Path, other: Path)
    requires IsRace(At(c, path))
  {
    IsRace(At(c, other)) ==> TagPlace(c, other) != TagPlace(c, path)
  }

  lemma OwnPlaceBelow(c: Computation, path: Path)
    requires c.Pair? && path != [] && IsRace(At(c, path)) && OwnPlace(c, path)
    ensures OwnPlace(if path[0] then c.second else c.first, path[1..])
  {
    var d := if path[0] then c.second else c.first;
    assert [path[0]] + path[1..] == path;
    PathsBelow(c, path[0], path[1..]);
    forall other: Path | other != path[1..] ensures PlacedApart(d, path[1..], other) {
      PathsBelow(c, path[0], other);
      assert ([path[0]] + other)[1..] == other;
      assert PlacedApart(c, path, [path[0]] + other);
    }
  }

  /// A child off the way has no tag at the place.
  lemma NoTagBeside(c: Computation, target: nat, path: Path)
    requires c.Pair? && path != [] && IsRace(At(c, path)) && OwnPlace(c, path)
    ensures var right := !path[0];
            NoTagAt(if right then c.second else c.first, target + if right || c.kind.Race? then c.secondOutput else c.firstOutput,
                    target + TagPlace(c, path))
  {
    var right := !path[0];
    var d, at := if right then c.second else c.first, target + if right || c.kind.Race? then c.secondOutput else c.firstOutput;
    var place := target + TagPlace(c, path);
    forall other: Path ensures TagElsewhere(d, at, other, place) {
      PathsBelow(c, right, other);
      assert PlacedApart(c, path, [right] + other);
    }
  }

  /// Every race that took part leaves its tag at its place: zero when it names its first child.
  lemma {:induction false} TagIsWritten(c: Computation, target: nat, memory: map<nat, nat>, path: Path)
    requires Complete(c) && IsRace(At(c, path)) && OwnPlace(c, path)
    ensures var output := OutputOf(c, target, memory);
            var place := target + TagPlace(c, path);
            place in output && output[place] == if At(c, path).firstDone then 0 else 1
    decreases c
  {
    var place := target + TagPlace(c, path);
    if path == [] {
      var tagged := memory[place := if c.firstDone then 0 else 1];
      var winner, at := if c.firstDone then c.first else c.second, target + c.secondOutput;
      forall other: Path ensures TagElsewhere(winner, at, other, place) {
        PathsBelow(c, !c.firstDone, other);
        assert PlacedApart(c, [], [!c.firstDone] + other);
      }
      OtherBytesStay(winner, at, tagged, place);
    } else {
      assert [path[0]] + path[1..] == path;
      PathsBelow(c, path[0], path[1..]);
      OwnPlaceBelow(c, path);
      NoTagBeside(c, target, path);
      if c.kind.Join? {
        var first := OutputOf(c.first, target + c.firstOutput, memory);
        if path[0] {
          TagIsWritten(c.second, target + c.secondOutput, first, path[1..]);
        } else {
          TagIsWritten(c.first, target + c.firstOutput, memory, path[1..]);
          OtherBytesStay(c.second, target + c.secondOutput, first, place);
        }
      } else {
        var tagged := memory[target + c.firstOutput := if c.firstDone then 0 else 1];
        TagIsWritten(if path[0] then c.second else c.first, target + c.secondOutput, tagged, path[1..]);
      }
    }
  }

  // ---------------------------------------------------------------- which child won

  /// A completed race keeps its winner, and every node its placements.
  ghost predicate SameRace(x: Computation, y: Computation) {
    && x.Pair? == y.Pair? && x.Released? == y.Released?
    && (x.Pair? ==> x.kind == y.kind && x.firstOutput == y.firstOutput && x.secondOutput == y.secondOutput)
    && (IsRace(x) && Finished(x) ==> Finished(y) && x.firstDone == y.firstDone)
  }

  /// `d` is what became of `c`: subtrees may have been released, and nothing else changed its shape.
  ghost predicate Later(c: Computation, d: Computation, path: Path) {
    At(d, path).Released? || (SameRace(At(c, path), At(d, path)) && Offset(d, path) == Offset(c, path))
  }

  /// What a poll makes of a child.
  predicate Becomes(x: Computation, y: Computation) {
    y == x || y.Released? || (!Poll(x).status.Trapped? && y == Poll(x).node)
  }

  lemma PollOfPair(c: Computation)
    requires c.Pair? && !Poll(c).status.Trapped?
    ensures var d := Poll(c).node;
            && d.Pair? && d.kind == c.kind && d.firstOutput == c.firstOutput && d.secondOutput == c.secondOutput
            && Becomes(c.first, d.first) && Becomes(c.second, d.second) && (Finished(c) ==> d == c)
  {
  }

  lemma {:induction false} PollIsLater(c: Computation, path: Path)
    requires !Poll(c).status.Trapped?
    ensures Later(c, Poll(c).node, path)
    decreases |path|
  {
    if c.Pair? {
      PollOfPair(c);
      if path != [] {
        var x, y := if path[0] then c.second else c.first, if path[0] then Poll(c).node.second else Poll(c).node.first;
        NothingBelowReleased(path[1..]);
        hide Poll;
        if y != x && !y.Released? {
          PollIsLater(x, path[1..]);
        }
      }
    }
  }

  lemma {:induction false} NothingBelowReleased(path: Path)
    ensures At(Released, path) == Released
  {
  }

  lemma {:induction false} SignalIsLater(c: Computation, leaves: set<nat>, path: Path)
    ensures Later(c, Runs.Signal(c, leaves), path)
    decreases |path|
  {
    if c.Pair? && path != [] {
      SignalIsLater(if path[0] then c.second else c.first, leaves, path[1..]);
    }
  }

  /// The poll that completes a race settles it: its first child wins exactly when it was ready.
  lemma {:induction false} PollSettles(c: Computation, path: Path)
    requires Valid(c) && !Poll(c).status.Trapped?
    requires IsRace(At(c, path)) && !Finished(At(c, path)) && IsRace(At(Poll(c).node, path)) && Finished(At(Poll(c).node, path))
    ensures At(Poll(c).node, path).firstDone <==> Ready(At(c, path).first)
    decreases |path|
  {
    if path == [] {
      PollCompletesExactlyWhenReady(c);
      RaceWinnerIsLeftmostReady(c);
      PollKeepsValid(c);
    } else {
      NothingBelowReleased(path[1..]);
      PollSettles(if path[0] then c.second else c.first, path[1..]);
    }
  }

  lemma {:induction false} RunIsLater(c: Computation, steps: seq<Runs.Step>, path: Path)
    requires !Runs.RunOf(c, steps).trapped
    ensures Later(c, Runs.RunOf(c, steps).node, path)
    decreases |steps|
  {
    hide Poll;
    if steps != [] {
      var d := if steps[0].PollRoot? then Poll(c).node else Runs.Signal(c, steps[0].leaves);
      if steps[0].PollRoot? {
        PollIsLater(c, path);
      } else {
        SignalIsLater(c, steps[0].leaves, path);
      }
      RunIsLater(d, steps[1..], path);
    }
  }

  lemma {:induction false} RunInTurn(c: Computation, before: seq<Runs.Step>, after: seq<Runs.Step>)
    requires !Runs.RunOf(c, before + after).trapped
    ensures !Runs.RunOf(c, before).trapped && !Runs.RunOf(Runs.RunOf(c, before).node, after).trapped
    ensures Runs.RunOf(c, before + after).node == Runs.RunOf(Runs.RunOf(c, before).node, after).node
    decreases |before|
  {
    hide Poll;
    if before == [] {
      assert before + after == after;
    } else {
      assert (before + after)[0] == before[0] && (before + after)[1..] == before[1..] + after;
      RunInTurn(if before[0].PollRoot? then Poll(c).node else Runs.Signal(c, before[0].leaves), before[1..], after);
    }
  }

  /// One poll of a run completes the race at `path`, and in the end the race takes part in the output.
  ghost predicate SettledBy(c: Computation, before: seq<Runs.Step>, after: seq<Runs.Step>, path: Path) {
    && !Runs.RunOf(c, before + ([Runs.PollRoot] + after)).trapped
    && var d := Runs.RunOf(c, before).node;
       var end := Runs.RunOf(c, before + ([Runs.PollRoot] + after)).node;
       && Finished(end) && !Poll(d).status.Trapped?
       && IsRace(At(d, path)) && !Finished(At(d, path)) && Finished(At(Poll(d).node, path)) && IsRace(At(end, path))
  }

  /// MAIN RESULT. Over any run, consuming the completed tree leaves at the place of each race that took
  /// part a zero when its first child was ready at the poll that completed it, and a one otherwise.
  lemma ConsumedRaceTells(c: Computation, before: seq<Runs.Step>, after: seq<Runs.Step>, target: nat, memory: map<nat, nat>, path: Path)
    requires Valid(c) && !c.Released? && SettledBy(c, before, after, path)
    requires OwnPlace(Runs.RunOf(c, before + ([Runs.PollRoot] + after)).node, path)
    ensures IsRace(At(c, path))
    ensures var output := OutputOf(Runs.RunOf(c, before + ([Runs.PollRoot] + after)).node, target, memory);
            var place := target + TagPlace(c, path);
            place in output && output[place] == if Ready(At(Runs.RunOf(c, before).node, path).first) then 0 else 1
  {
    hide Poll, Valid, OutputOf, OwnPlace, Ready;
    var d := Runs.RunOf(c, before).node;
    RunInTurn(c, before, [Runs.PollRoot] + after);
    assert ([Runs.PollRoot] + after)[1..] == after;
    var e, end := Poll(d).node, Runs.RunOf(Poll(d).node, after).node;
    Runs.RunKeepsAccounts(c, before, 0);
    Runs.RunKeepsAccounts(c, before + ([Runs.PollRoot] + after), 0);
    RunIsLater(c, before, path);
    PollIsLater(d, path);
    RunIsLater(e, after, path);
    PollSettles(d, path);
    FinishedIsComplete(end);
    TagIsWritten(end, target, memory, path);
  }

  /// Nothing else is written.
  lemma ConsumeWritesOnlyTags(c: Computation, steps: seq<Runs.Step>, target: nat, memory: map<nat, nat>, address: nat)
    requires Valid(c) && !c.Released? && !Runs.RunOf(c, steps).trapped && Finished(Runs.RunOf(c, steps).node)
    requires NoTagAt(Runs.RunOf(c, steps).node, target, address)
    ensures var output := OutputOf(Runs.RunOf(c, steps).node, target, memory);
            (address in output <==> address in memory) && (address in memory ==> output[address] == memory[address])
  {
    Runs.RunKeepsAccounts(c, steps, 0);
    FinishedIsComplete(Runs.RunOf(c, steps).node);
    OtherBytesStay(Runs.RunOf(c, steps).node, target, memory, address);
  }
}
