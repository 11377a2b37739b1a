/**
 The readiness scan over a runtime-sized set of borrowed computations.

 A group never takes ownership of a child: it polls the children in order, completes with the first
 one that is ready, and otherwise returns the interests of all of them in one buffer that it reuses
 from poll to poll.
 */
module AsyncGroup {
  import opened AsyncTree
  import opened AsyncTreeProofs
  import opened AsyncHeap
  import opened AsyncRuntime

  const MAX_DYNAMIC_COUNT: nat := 0x7FFF_FFFF
  const METADATA_RECORD_SIZE: nat := 16

  datatype Slice = Slice(pointer: Pointer, count: nat)

  // ---------------------------------------------------------------- the scan as a function

  datatype Scan =
    | ReadyAt(index: nat, children: seq<Computation>)
    | AllPending(children: seq<Computation>)
    | Corrupt

  function TotalInterests(children: seq<Computation>, n: nat): nat
    requires n <= |children|
  {
    if n == 0 then 0 else TotalInterests(children, n - 1) + |Interests(children[n - 1])|
  }

  function Gathered(children: seq<Computation>, n: nat): seq<Interest>
    requires n <= |children|
  {
    if n == 0 then [] else Gathered(children, n - 1) + Interests(children[n - 1])
  }

  /// Polls from index `i` on. The children before `i` were found pending.
  function ScanFrom(children: seq<Computation>, i: nat): Scan
    requires i <= |children|
    decreases |children| - i
  {
    if i == |children| then AllPending(children)
    else
      var poll := Poll(children[i]);
      if poll.status.Trapped? then Corrupt
      else
        var polled := children[i := poll.node];
        if poll.status.Done? then ReadyAt(i, polled)
        else if TotalInterests(polled, i + 1) > MAX_DYNAMIC_COUNT then Corrupt
        else ScanFrom(polled, i + 1)
  }

  ghost predicate Borrowed(children: seq<Computation>) {
    forall j :: 0 <= j < |children| ==> Valid(children[j]) && !children[j].Released?
  }

  /// The scan releases no child and leaves the children before its start as they were.
  lemma {:induction false} ScanReleasesNoChild(children: seq<Computation>, i: nat)
    requires i <= |children| && Borrowed(children)
    ensures var s := ScanFrom(children, i);
            !s.Corrupt? ==>
              && |s.children| == |children| && Borrowed(s.children)
              && (forall j :: 0 <= j < |children| ==> s.children[j].frame == children[j].frame)
              && s.children[..i] == children[..i]
    decreases |children| - i
  {
    hide Valid, Poll;
    if i < |children| && !Poll(children[i]).status.Trapped? {
      var polled := children[i := Poll(children[i]).node];
      PollKeepsValid(children[i]);
      if Poll(children[i]).status.Pending? && TotalInterests(polled, i + 1) <= MAX_DYNAMIC_COUNT {
        ScanReleasesNoChild(polled, i + 1);
        var s := ScanFrom(polled, i + 1);
        if !s.Corrupt? {
          assert s.children[..i] == s.children[..i + 1][..i];
          assert children[..i] == polled[..i + 1][..i];
        }
      }
    }
  }

  /// MAIN RESULT. A completed scan stops at the least ready index, and a pending one found no child
  /// ready.
  lemma {:induction false} ScanFindsTheLeastReadyChild(children: seq<Computation>, i: nat)
    requires i <= |children| && Borrowed(children)
    ensures var s := ScanFrom(children, i);
            && (s.ReadyAt? ==>
                  && i <= s.index < |children| == |s.children|
                  && Ready(children[s.index]) && Finished(s.children[s.index])
                  && (forall j :: i <= j < s.index ==> !Ready(children[j])))
            && (s.AllPending? ==> forall j :: i <= j < |children| ==> !Ready(children[j]))
    decreases |children| - i
  {
    hide Valid, Poll, Ready, TotalInterests;
    if i < |children| && !Poll(children[i]).status.Trapped? {
      var polled := children[i := Poll(children[i]).node];
      PollKeepsValid(children[i]);
      PollCompletesExactlyWhenReady(children[i]);
      if Poll(children[i]).status.Pending? {
        ScanFindsTheLeastReadyChild(polled, i + 1);
        assert forall j :: i < j < |children| ==> polled[j] == children[j];
      }
    }
  }

  /// The scan gets past a child: its poll is pending, and the interests so far are not too many.
  ghost predicate Passes(children: seq<Computation>, after: seq<Computation>, j: nat) {
    && j < |children| == |after| && after[j] == Poll(children[j]).node
    && Poll(children[j]).status.Pending? && TotalInterests(after, j + 1) <= MAX_DYNAMIC_COUNT
  }

  /// A scan polls each child once, in order, up to the first that ends it, and leaves the later ones
  /// alone. It gives up at a child whose poll traps, or with which the interests are too many.
  lemma {:induction false} ScanPollsInOrder(children: seq<Computation>, i: nat) returns (end: nat, after: seq<Computation>)
    requires i <= |children|
    ensures i <= end <= |children| == |after| && after[..i] == children[..i]
    ensures forall j | i <= j < end :: Passes(children, after, j)
    ensures forall j | end < j < |children| :: after[j] == children[j]
    ensures end < |children| ==> after[end] == Poll(children[end]).node
    ensures match ScanFrom(children, i)
            case AllPending(polled) => end == |children| && polled == after
            case ReadyAt(k, polled) => end == k < |children| && polled == after && Poll(children[k]).status.Done?
            case Corrupt =>
              && end < |children|
              && (Poll(children[end]).status.Trapped?
                  || (Poll(children[end]).status.Pending? && TotalInterests(after, end + 1) > MAX_DYNAMIC_COUNT))
    decreases |children| - i
  {
    hide Poll, TotalInterests;
    ScanStep(children, i);
    end, after := i, children;
    if i < |children| {
      var poll := Poll(children[i]);
      after := children[i := poll.node];
      if poll.status.Pending? && TotalInterests(after, i + 1) <= MAX_DYNAMIC_COUNT {
        var polled := after;
        end, after := ScanPollsInOrder(polled, i + 1);
        assert after[..i] == after[..i + 1][..i] && after[i] == after[..i + 1][i];
        SameTotal(after, polled, i + 1);
        forall j | i < j < end ensures Passes(children, after, j) {
          assert Passes(polled, after, j);
        }
      }
    }
  }

  lemma SameTotal(x: seq<Computation>, y: seq<Computation>, n: nat)
    requires n <= |x| && n <= |y| && x[..n] == y[..n]
    ensures TotalInterests(x, n) == TotalInterests(y, n)
  {
    GatheredIgnoresTheRest(x, y, n);
  }

  /// The interests of earlier children come before those of later ones.
  lemma {:induction false} GatheredInChildOrder(x: seq<Computation>, y: seq<Computation>)
    ensures Gathered(x + y, |x| + |y|) == Gathered(x, |x|) + Gathered(y, |y|)
    decreases |y|
  {
    hide *;
    OneMoreGathered(x, 0);
    OneMoreGathered(y, 0);
    if y == [] {
      assert x + y == x;
    } else {
      var n := |y| - 1;
      GatheredInChildOrder(x, y[..n]);
      assert (x + y)[..|x| + n] == x + y[..n] == (x + y[..n])[..|x| + n];
      GatheredIgnoresTheRest(x + y, x + y[..n], |x| + n);
      assert y[..n] == y[..n][..n];
      GatheredIgnoresTheRest(y, y[..n], n);
      OneMoreGathered(x + y, |x| + n);
      OneMoreGathered(y, n);
      assert (x + y)[|x| + n] == y[n];
    }
  }

  lemma OneMoreGathered(children: seq<Computation>, n: nat)
    ensures n < |children| ==> Gathered(children, n + 1) == Gathered(children, n) + Interests(children[n])
    ensures Gathered(children, 0) == []
  {
  }

  lemma {:induction false} GatheredLength(children: seq<Computation>, n: nat)
    requires n <= |children|
    ensures |Gathered(children, n)| == TotalInterests(children, n)
  {
    if n > 0 { GatheredLength(children, n - 1); }
  }

  lemma {:induction false} GatheredIgnoresTheRest(x: seq<Computation>, y: seq<Computation>, n: nat)
    requires n <= |x| && n <= |y| && x[..n] == y[..n]
    ensures Gathered(x, n) == Gathered(y, n) && TotalInterests(x, n) == TotalInterests(y, n)
  {
    if n > 0 {
      assert x[..n - 1] == x[..n][..n - 1] == y[..n - 1];
      assert x[n - 1] == x[..n][n - 1] == y[n - 1];
      GatheredIgnoresTheRest(x, y, n - 1);
    }
  }

  /// One step of the scan.
  lemma ScanStep(children: seq<Computation>, i: nat)
    requires i <= |children|
    ensures i == |children| ==> ScanFrom(children, i) == AllPending(children)
    ensures i < |children| ==>
              var poll := Poll(children[i]);
              var polled := children[i := poll.node];
              ScanFrom(children, i) ==
              if poll.status.Trapped? then Corrupt
              else if poll.status.Done? then ReadyAt(i, polled)
              else if TotalInterests(polled, i + 1) > MAX_DYNAMIC_COUNT then Corrupt
              else ScanFrom(polled, i + 1)
  {
  }

  // ---------------------------------------------------------------- a forest of borrowed children

  ghost predicate Forest(frames: FrameMap, buffers: BufferMap, children: seq<Computation>) {
    && (forall i :: 0 <= i < |children| ==>
          Valid(children[i]) && !children[i].Released? && Holds(frames, buffers, children[i]))
    && (forall i, j :: 0 <= i < j < |children| ==>
          Frames(children[i]) !! Frames(children[j])
          && Buffers(frames, children[i]) !! Buffers(frames, children[j]))
  }

  /// `base` is a mapped buffer that belongs to none of the children.
  ghost predicate Foreign(frames: FrameMap, buffers: BufferMap, children: seq<Computation>, base: nat) {
    base in buffers && forall i :: 0 <= i < |children| ==> base !in Buffers(frames, children[i])
  }

  ghost predicate SliceOf(frames: FrameMap, buffers: BufferMap, s: Slice, c: Computation) {
    && s.count == |Interests(c)| > 0
    && !s.pointer.Null?
    && Readable(frames, buffers, s.pointer)
    && PointsInto(frames, s.pointer, c)
    && RecordsAt(frames, buffers, s.pointer) == Interests(c)
  }

  /// Polling one child leaves the storage of every other child, and every foreign buffer, as it was.
  lemma ChildPollKeepsForest(f0: FrameMap, b0: BufferMap, f1: FrameMap, b1: BufferMap,
                             children: seq<Computation>, i: nat, d: Computation)
    requires i < |children| && Forest(f0, b0, children)
    requires Becomes(f0, b0, children[i], f1, b1, d) && Holds(f1, b1, d)
    requires Valid(d) && !d.Released? && Frames(d) <= Frames(children[i])
    ensures Forest(f1, b1, children[i := d])
    ensures forall j | 0 <= j < |children| && j != i :: Agree(f0, b0, f1, b1, children[j])
                                                       && Buffers(f1, children[j]) == Buffers(f0, children[j])
  {
    hide Valid, Holds;
    forall j | 0 <= j < |children| && j != i
      ensures Agree(f0, b0, f1, b1, children[j]) && Holds(f1, b1, children[j])
      ensures Buffers(f1, children[j]) == Buffers(f0, children[j])
      ensures Buffers(f0, children[j]) <= b0.Keys - Buffers(f0, children[i])
    {
      if j < i { assert Frames(children[j]) !! Frames(children[i]); }
      HeldStorageIsMapped(f0, b0, children[j]);
      HoldsWhereHeapsAgree(f0, b0, f1, b1, children[j]);
    }
    var after := children[i := d];
    forall j, k | 0 <= j < k < |after|
      ensures Frames(after[j]) !! Frames(after[k]) && Buffers(f1, after[j]) !! Buffers(f1, after[k])
    {
      assert Frames(children[j]) !! Frames(children[k]);
    }
  }

  lemma ForeignBuffersAreKept(f0: FrameMap, b0: BufferMap, f1: FrameMap, b1: BufferMap,
                              children: seq<Computation>, i: nat, d: Computation, base: nat)
    requires i < |children| && Foreign(f0, b0, children, base)
    requires Becomes(f0, b0, children[i], f1, b1, d)
    requires forall j | 0 <= j < |children| && j != i :: Buffers(f1, children[j]) == Buffers(f0, children[j])
    ensures Foreign(f1, b1, children[i := d], base) && b1[base] == b0[base]
  {
  }

  /// Changing only a buffer that is foreign to the children leaves every child's storage alone.
  lemma ForestIgnoresForeignBuffer(frames: FrameMap, b0: BufferMap, b1: BufferMap, children: seq<Computation>, base: nat)
    requires Forest(frames, b0, children)
    requires forall i | 0 <= i < |children| :: base !in Buffers(frames, children[i])
    requires forall x | x in b0 && x != base :: x in b1 && b1[x] == b0[x]
    ensures Forest(frames, b1, children)
    ensures forall i | 0 <= i < |children| :: Agree(frames, b0, frames, b1, children[i])
  {
    hide Valid, Holds;
    forall i | 0 <= i < |children|
      ensures Agree(frames, b0, frames, b1, children[i]) && Holds(frames, b1, children[i])
    {
      HoldsWhereHeapsAgree(frames, b0, frames, b1, children[i]);
    }
  }

  /// A fresh address belongs to no child.
  lemma FreshAddressIsForeign(frames: FrameMap, buffers: BufferMap, children: seq<Computation>, base: nat)
    requires Forest(frames, buffers, children) && base !in buffers
    ensures forall i | 0 <= i < |children| :: base !in Buffers(frames, children[i])
  {
    forall i | 0 <= i < |children| ensures base !in Buffers(frames, children[i]) {
      HeldStorageIsMapped(frames, buffers, children[i]);
    }
  }

  /// The first `n` metadata slices read as the interests of the first `n` children.
  ghost predicate Sliced(frames: FrameMap, buffers: BufferMap, slices: seq<Slice>, children: seq<Computation>, n: nat) {
    && n <= |slices| && n <= |children|
    && forall j :: 0 <= j < n ==> SliceOf(frames, buffers, slices[j], children[j])
  }

  lemma SlicesAreFramed(f0: FrameMap, b0: BufferMap, f1: FrameMap, b1: BufferMap, slices: seq<Slice>,
                        x: seq<Computation>, y: seq<Computation>, n: nat)
    requires n <= |x| == |y| && x[..n] == y[..n] && Forest(f0, b0, x)
    requires Sliced(f0, b0, slices, x, n)
    requires forall j | 0 <= j < n :: Agree(f0, b0, f1, b1, x[j])
    ensures Sliced(f1, b1, slices, y, n)
  {
    hide Valid, Holds, Agree, Readable, PointsInto, RecordsAt, Interests;
    forall j | 0 <= j < n ensures SliceOf(f1, b1, slices[j], y[j]) {
      assert x[..n][j] == y[..n][j];
      assert SliceOf(f0, b0, slices[j], x[j]);
      ReadingIsFramed(f0, b0, f1, b1, slices[j].pointer, x[j]);
    }
  }

  lemma {:induction false} SlicedChildrenHaveInterests(frames: FrameMap, buffers: BufferMap, slices: seq<Slice>,
                                                       children: seq<Computation>, n: nat)
    requires Sliced(frames, buffers, slices, children, n)
    ensures TotalInterests(children, n) >= n
  {
    if n > 0 {
      assert SliceOf(frames, buffers, slices[n - 1], children[n - 1]);
      SlicedChildrenHaveInterests(frames, buffers, slices, children, n - 1);
    }
  }

  lemma {:induction false} TotalIsMonotone(children: seq<Computation>, n: nat, m: nat)
    requires n <= m <= |children|
    ensures TotalInterests(children, n) <= TotalInterests(children, m)
    decreases m
  {
    if n < m { TotalIsMonotone(children, n, m - 1); }
  }

  // ---------------------------------------------------------------- the frame and its entries

  datatype GroupEvent = MetadataMapped | MetadataUnmapped | InterestsMapped | InterestsUnmapped | GroupUnmapped

  const GROUP_INITIAL: nat := 0
  const GROUP_COMPLETED: nat := 1
  const WORD_LIMIT: nat := 0x1_0000_0000_0000_0000

  class Group {
    const runtime: Runtime
    const frame: nat
    /// The borrowed child handles, in source order.
    const children: seq<nat>
    const availableOutput: nat
    const indexOutput: nat
    var state: nat
    var available: nat
    var index: nat
    var metadataPointer: nat
    var metadataSize: nat
    var interestPointer: nat
    var interestSize: nat
    var interestCount: nat
    var scanIndex: nat
    /// Live mappings that hold one pending slice for each child.
    var metadata: map<nat, seq<Slice>>
    ghost var log: seq<GroupEvent>

    /// Each buffer pointer is zero exactly when its size is, names live storage that no child owns,
    /// and every mapping but the live ones was unmapped.
    ghost predicate Storage(cs: seq<Computation>)
      reads this`metadataPointer, this`metadataSize, this`metadata, this`interestPointer, this`interestSize, this`log,
            runtime`frames, runtime`buffers
    {
      && Borrows(cs)
      && MetadataWords()
      && InterestWords(cs)
      && Accounts()
    }

    ghost predicate Borrows(cs: seq<Computation>)
      reads runtime`frames, runtime`buffers
    {
      && |cs| == |children|
      && (forall i :: 0 <= i < |cs| ==> Handle(cs[i]) == children[i])
      && Forest(runtime.frames, runtime.buffers, cs)
    }

    ghost predicate MetadataWords()
      reads this`metadataPointer, this`metadataSize, this`metadata
    {
      if metadataPointer == 0 then metadataSize == 0 && metadata == map[]
      else
        && metadata.Keys == {metadataPointer} && |metadata[metadataPointer]| == |children| > 0
        && metadataSize == METADATA_RECORD_SIZE * |children|
    }

    ghost predicate InterestWords(cs: seq<Computation>)
      reads this`interestPointer, this`interestSize, runtime`frames, runtime`buffers
    {
      if interestPointer == 0 then interestSize == 0
      else
        && Foreign(runtime.frames, runtime.buffers, cs, interestPointer)
        && interestSize == INTEREST_RECORD_SIZE * |runtime.buffers[interestPointer]| > 0
    }

    ghost predicate Accounts()
      reads this`log, this`metadataPointer, this`interestPointer
    {
      var m := multiset(log);
      && m[MetadataMapped] == m[MetadataUnmapped] + (if metadataPointer == 0 then 0 else 1)
      && m[InterestsMapped] == m[InterestsUnmapped] + (if interestPointer == 0 then 0 else 1)
      && m[GroupUnmapped] == 0
    }

    /// Before the borrow ends the metadata buffer is never released, so at most one is ever mapped.
    ghost predicate Live(cs: seq<Computation>)
      reads this`metadataPointer, this`metadataSize, this`metadata, this`interestPointer, this`interestSize, this`log,
            runtime`frames, runtime`buffers
    {
      Storage(cs) && MetadataUnmapped !in log
    }

    /// The borrow has ended: every mapping was unmapped exactly once, and the children still are
    /// what they were.
    ghost predicate Ended(cs: seq<Computation>)
      reads this, runtime
    {
      var m := multiset(log);
      && Borrows(cs) && metadata == map[]
      && m[MetadataMapped] == m[MetadataUnmapped] <= 1
      && m[InterestsMapped] == m[InterestsUnmapped]
      && m[GroupUnmapped] == 1
    }

    ghost function OwnInterests(): set<nat>
      reads this
    {
      if interestPointer == 0 then {} else {interestPointer}
    }

    constructor (runtime: Runtime, frame: nat, children: seq<nat>, availableOutput: nat, indexOutput: nat,
                 ghost cs: seq<Computation>)
      requires |cs| == |children| && (forall i :: 0 <= i < |cs| ==> Handle(cs[i]) == children[i])
      requires Forest(runtime.frames, runtime.buffers, cs)
      ensures this.runtime == runtime && this.frame == frame && this.children == children
      ensures this.availableOutput == availableOutput && this.indexOutput == indexOutput
      ensures Live(cs) && state == GROUP_INITIAL
    {
      this.runtime, this.frame, this.children := runtime, frame, children;
      this.availableOutput, this.indexOutput := availableOutput, indexOutput;
      state, available, index, metadataPointer, metadataSize := GROUP_INITIAL, 0, 0, 0, 0;
      interestPointer, interestSize, interestCount, scanIndex := 0, 0, 0, 0;
      metadata, log := map[], [];
    }

    /// Polls every child in order. A completed group repeats its completion; a group without
    /// children completes with nothing available.
    method Resume(ghost cs: seq<Computation>)
      returns (status: Status, pointer: Pointer, count: nat, ghost ds: seq<Computation>)
      requires Live(cs) && (state == GROUP_INITIAL || state == GROUP_COMPLETED)
      modifies this, runtime
      ensures old(state) == GROUP_COMPLETED ==>
                status.Done? && ds == cs && available == old(available) && index == old(index)
      ensures old(state) == GROUP_INITIAL && children == [] ==>
                status.Done? && ds == cs && available == 0 && index == 0
      ensures old(state) == GROUP_INITIAL && |children| > MAX_DYNAMIC_COUNT ==> status.Trapped?
      ensures old(state) == GROUP_INITIAL && 0 < |children| <= MAX_DYNAMIC_COUNT ==>
                match ScanFrom(cs, 0)
                case Corrupt => status.Trapped?
                case ReadyAt(i, polled) => status.Done? && ds == polled && available == 1 && index == i
                case AllPending(polled) => status.Pending? && ds == polled && Collected(ds, pointer, count)
      ensures !status.Trapped? ==>
                Live(ds) && state == if status.Done? then GROUP_COMPLETED else GROUP_INITIAL
      ensures status.Done? ==> pointer.Null? && count == 0
      ensures runtime.output == old(runtime.output)
    {
      hide MetadataWords, InterestWords, Accounts, Sliced, Forest, ScanFrom, Gathered, TotalInterests, Interests;
      status, pointer, count, ds := Trapped, Null, 0, cs;
      if state == GROUP_COMPLETED { return Done, Null, 0, cs; }
      if |children| == 0 {
        Complete(0, 0, cs);
        return Done, Null, 0, cs;
      }
      if |children| > MAX_DYNAMIC_COUNT { return; }
      var ok := EnsureMetadataBuffer(cs);
      if !ok { return; }
      var ready;
      ok, ready, ds := ScanChildren(cs);
      if !ok { return; }
      if ready {
        Complete(1, scanIndex, ds);
        return Done, Null, 0, ds;
      }
      ok := EnsureInterestBuffer(ds);
      if !ok { return; }
      CopyInterests(ds);
      return Pending, InBuffer(interestPointer), interestCount, ds;
    }

    /// The returned slice is a prefix of the group's own buffer, and reads as the interests of the
    /// children from left to right.
    ghost predicate Collected(ds: seq<Computation>, pointer: Pointer, count: nat)
      reads this, runtime
    {
      && pointer == InBuffer(interestPointer) && interestPointer in runtime.buffers
      && 0 < count == TotalInterests(ds, |ds|) <= |runtime.buffers[interestPointer]|
      && runtime.buffers[interestPointer][..count] == Gathered(ds, |ds|)
    }

    method Complete(available: nat, index: nat, ghost ds: seq<Computation>)
      requires Storage(ds)
      modifies this`available, this`index, this`state
      ensures this.available == available && this.index == index && state == GROUP_COMPLETED
      ensures Storage(ds)
    {
      this.available, this.index, state := available, index, GROUP_COMPLETED;
    }

    method EnsureMetadataBuffer(ghost cs: seq<Computation>) returns (ok: bool)
      requires Live(cs) && 0 < |children| <= MAX_DYNAMIC_COUNT
      modifies this`metadataPointer, this`metadataSize, this`metadata, this`log
      ensures ok && Live(cs) && metadataPointer != 0
    {
      var size := |children| * METADATA_RECORD_SIZE % WORD_LIMIT;
      if metadataPointer != 0 { return metadataSize == size; }
      if metadataSize != 0 { return false; }
      metadataSize := size;
      var base := runtime.FreshAddress();
      metadataPointer := base;
      metadata := map[base := seq(|children|, _ => Slice(Null, 0))];
      log := log + [MetadataMapped];
      return true;
    }

    /// The children before the scan index are pending, and their slices and total are recorded.
    ghost predicate Scanned(ds: seq<Computation>)
      reads this, runtime
    {
      && Live(ds) && metadataPointer != 0 && scanIndex <= |ds|
      && interestCount == TotalInterests(ds, scanIndex) <= MAX_DYNAMIC_COUNT
      && Sliced(runtime.frames, runtime.buffers, metadata[metadataPointer], ds, scanIndex)
    }

    /// The scan stops at the first child that is ready, or records a slice for every child.
    method ScanChildren(ghost cs: seq<Computation>) returns (ok: bool, ready: bool, ghost ds: seq<Computation>)
      requires Live(cs) && metadataPointer != 0
      modifies this`scanIndex, this`interestCount, this`metadata, runtime
      ensures match ScanFrom(cs, 0)
              case Corrupt => !ok
              case ReadyAt(i, polled) => ok && ready && ds == polled && scanIndex == i
              case AllPending(polled) => ok && !ready && ds == polled && Scanned(ds) && scanIndex == |ds|
      ensures ok ==> Live(ds)
      ensures runtime.output == old(runtime.output)
    {
      hide *;
      ds := cs;
      ok, ready := true, false;
      scanIndex, interestCount := 0, 0;
      NothingScanned(ds);
      while scanIndex < |children|
        invariant ok && !ready && Scanned(ds) && |ds| == |children| && scanIndex <= |ds|
        invariant ScanFrom(cs, 0) == ScanFrom(ds, scanIndex)
        invariant runtime.output == old(runtime.output)
        decreases |children| - scanIndex
      {
        ScanStep(ds, scanIndex);
        ok, ready, ds := PollChild(ds);
        if !ok || ready { return; }
      }
      ScanStep(ds, scanIndex);
      ScannedIsLive(ds);
    }

    lemma NothingScanned(ds: seq<Computation>)
      requires Live(ds) && metadataPointer != 0 && scanIndex == 0 && interestCount == 0
      ensures Scanned(ds) && |ds| == |children|
    {
    }

    lemma ScannedIsLive(ds: seq<Computation>)
      requires Scanned(ds)
      ensures Live(ds)
    {
    }

    /// Polls the child at the scan index; moves on when it is pending.
    method PollChild(ghost ds: seq<Computation>) returns (ok: bool, ready: bool, ghost es: seq<Computation>)
      requires Scanned(ds) && scanIndex < |children| == |ds|
      modifies this`scanIndex, this`interestCount, this`metadata, runtime
      ensures var i := old(scanIndex);
              var poll := Poll(ds[i]);
              && (ok <==> !poll.status.Trapped?
                          && (poll.status.Done? || TotalInterests(ds[i := poll.node], i + 1) <= MAX_DYNAMIC_COUNT))
              && (ok ==> es == ds[i := poll.node] && (ready <==> poll.status.Done?))
              && (ok && ready ==> Live(es) && scanIndex == i)
              && (ok && !ready ==> Scanned(es) && scanIndex == i + 1)
      ensures runtime.output == old(runtime.output)
    {
      hide Valid, Holds, Poll, Becomes, Interests, Agree, Readable, PointsInto, RecordsAt, Buffers;
      es, ready := ds, false;
      var handle := children[scanIndex];
      ghost var child, f0, b0 := ds[scanIndex], runtime.frames, runtime.buffers;
      OwnedFramesAreNotNull(child);
      if handle == 0 { return false, false, ds; }
      var status, pointer, count := runtime.Resume(handle, child);
      if status.Trapped? { return false, false, ds; }
      es := ds[scanIndex := Poll(child).node];
      PollKeepsValid(child);
      AfterChildPoll(f0, b0, ds, Poll(child).node);
      if status.Done? { return true, true, es; }
      ok := RecordPending(pointer, count, es);
    }

    /// What stays true when the child at the scan index was polled.
    lemma AfterChildPoll(f0: FrameMap, b0: BufferMap, ds: seq<Computation>, d: Computation)
      requires |ds| == |children| && scanIndex < |ds| && d == Poll(ds[scanIndex]).node
      requires !Poll(ds[scanIndex]).status.Trapped?
      requires (forall i :: 0 <= i < |ds| ==> Handle(ds[i]) == children[i]) && Forest(f0, b0, ds)
      requires MetadataWords() && metadataPointer != 0 && Accounts()
      requires interestPointer == 0 ==> interestSize == 0
      requires interestPointer != 0 ==> Foreign(f0, b0, ds, interestPointer)
                                        && interestSize == INTEREST_RECORD_SIZE * |b0[interestPointer]| > 0
      requires runtime.Owns(d) && Becomes(f0, b0, ds[scanIndex], runtime.frames, runtime.buffers, d)
      requires Sliced(f0, b0, metadata[metadataPointer], ds, scanIndex)
      requires interestCount == TotalInterests(ds, scanIndex) <= MAX_DYNAMIC_COUNT && MetadataUnmapped !in log
      ensures Scanned(ds[scanIndex := d])
    {
      hide Valid, Holds, Poll, Becomes, Interests, Readable, PointsInto, RecordsAt;
      var f1, b1, es := runtime.frames, runtime.buffers, ds[scanIndex := d];
      PollKeepsValid(ds[scanIndex]);
      ChildPollKeepsForest(f0, b0, f1, b1, ds, scanIndex, d);
      if interestPointer != 0 {
        ForeignBuffersAreKept(f0, b0, f1, b1, ds, scanIndex, d, interestPointer);
      }
      SlicesAreFramed(f0, b0, f1, b1, metadata[metadataPointer], ds, es, scanIndex);
      GatheredIgnoresTheRest(ds, es, scanIndex);
    }

    method RecordPending(pointer: Pointer, count: nat, ghost es: seq<Computation>) returns (ok: bool)
      requires Scanned(es) && scanIndex < |es|
      requires SliceOf(runtime.frames, runtime.buffers, Slice(pointer, count), es[scanIndex])
      modifies this`scanIndex, this`interestCount, this`metadata
      ensures ok <==> TotalInterests(es, old(scanIndex) + 1) <= MAX_DYNAMIC_COUNT
      ensures ok ==> Scanned(es) && scanIndex == old(scanIndex) + 1
    {
      hide Forest, SliceOf;
      AsSlice(es, pointer, count);
      if pointer.Null? || count == 0 || count > MAX_DYNAMIC_COUNT { return false; }
      var slices := metadata[metadataPointer];
      metadata := metadata[metadataPointer := slices[scanIndex := Slice(pointer, count)]];
      var total := interestCount + count;
      if total >= WORD_LIMIT || total > MAX_DYNAMIC_COUNT { return false; }
      interestCount := total;
      scanIndex := scanIndex + 1;
      return true;
    }

    lemma AsSlice(es: seq<Computation>, pointer: Pointer, count: nat)
      requires scanIndex < |es|
      requires SliceOf(runtime.frames, runtime.buffers, Slice(pointer, count), es[scanIndex])
      ensures count == |Interests(es[scanIndex])| > 0 && !pointer.Null?
    {
    }

    /// Reuses a large enough interest buffer, and otherwise replaces it by one of the exact size.
    method EnsureInterestBuffer(ghost ds: seq<Computation>) returns (ok: bool)
      requires Scanned(ds) && scanIndex == |ds| > 0
      modifies this`interestPointer, this`interestSize, this`log, runtime`buffers, runtime`trace
      ensures ok && Scanned(ds) && interestPointer != 0
      ensures interestPointer in runtime.buffers && 0 < interestCount <= |runtime.buffers[interestPointer]|
    {
      hide Forest, Sliced;
      SlicedChildrenHaveInterests(runtime.frames, runtime.buffers, metadata[metadataPointer], ds, |ds|);
      if interestCount == 0 { return false; }
      var size := interestCount * INTEREST_RECORD_SIZE % WORD_LIMIT;
      if interestPointer != 0 && interestSize != 0 && size <= interestSize { return true; }
      if interestPointer != 0 {
        ok := ReleaseInterests(ds);
        if !ok { return; }
      }
      if interestPointer != 0 || interestSize != 0 { return false; }
      MapInterests(size, ds);
      return true;
    }

    method MapInterests(size: nat, ghost ds: seq<Computation>)
      requires Scanned(ds) && scanIndex == |ds| && interestPointer == 0
      requires size == interestCount * INTEREST_RECORD_SIZE > 0
      modifies this`interestPointer, this`interestSize, this`log, runtime`buffers, runtime`trace
      ensures Scanned(ds) && interestPointer != 0 && interestPointer in runtime.buffers
      ensures |runtime.buffers[interestPointer]| == interestCount
    {
      hide Forest, Sliced, Foreign;
      ghost var b0 := runtime.buffers;
      var base := runtime.MapBuffer(frame, size / INTEREST_RECORD_SIZE);
      InterestsAttached(ds, b0, base);
      interestSize := size;
      interestPointer := base;
      log := log + [InterestsMapped];
    }

    lemma InterestsAttached(ds: seq<Computation>, b0: BufferMap, base: nat)
      requires metadataPointer in metadata
      requires Forest(runtime.frames, b0, ds) && base !in b0
      requires base in runtime.buffers && runtime.buffers == b0[base := runtime.buffers[base]]
      requires Sliced(runtime.frames, b0, metadata[metadataPointer], ds, |ds|)
      ensures Forest(runtime.frames, runtime.buffers, ds) && Foreign(runtime.frames, runtime.buffers, ds, base)
      ensures Sliced(runtime.frames, runtime.buffers, metadata[metadataPointer], ds, |ds|)
    {
      hide Forest, Sliced;
      FreshAddressIsForeign(runtime.frames, b0, ds, base);
      ForestIgnoresForeignBuffer(runtime.frames, b0, runtime.buffers, ds, base);
      SlicesAreFramed(runtime.frames, b0, runtime.frames, runtime.buffers, metadata[metadataPointer], ds, ds, |ds|);
    }

    /// Unmaps the interest buffer and clears its words.
    method ReleaseInterests(ghost ds: seq<Computation>) returns (ok: bool)
      requires Storage(ds)
      modifies this`interestPointer, this`interestSize, this`log, runtime`buffers, runtime`trace
      ensures ok && Storage(ds) && interestPointer == 0
      ensures log == old(log) + if old(interestPointer) == 0 then [] else [InterestsUnmapped]
      ensures runtime.buffers == old(runtime.buffers - OwnInterests())
      ensures metadataPointer != 0
              && old(Sliced(runtime.frames, runtime.buffers, metadata[metadataPointer], ds, |ds|))
              ==> Sliced(runtime.frames, runtime.buffers, metadata[metadataPointer], ds, |ds|)
    {
      hide Forest, Sliced;
      if interestPointer == 0 { return interestSize == 0; }
      if interestSize == 0 { return false; }
      ghost var b0 := runtime.buffers;
      runtime.UnmapBuffer(frame, interestPointer);
      ForestIgnoresForeignBuffer(runtime.frames, b0, runtime.buffers, ds, interestPointer);
      if metadataPointer != 0 && Sliced(runtime.frames, b0, metadata[metadataPointer], ds, |ds|) {
        SlicesAreFramed(runtime.frames, b0, runtime.frames, runtime.buffers, metadata[metadataPointer], ds, ds, |ds|);
      }
      interestPointer, interestSize := 0, 0;
      log := log + [InterestsUnmapped];
      return true;
    }

    /// Copies every child's slice behind the slices of the children before it.
    method CopyInterests(ghost ds: seq<Computation>)
      requires Scanned(ds) && scanIndex == |ds| && interestPointer != 0
      requires interestPointer in runtime.buffers && interestCount <= |runtime.buffers[interestPointer]|
      modifies runtime`buffers
      ensures Scanned(ds)
      ensures runtime.buffers.Keys == old(runtime.buffers.Keys) && interestPointer in runtime.buffers
      ensures interestCount <= |runtime.buffers[interestPointer]|
      ensures runtime.buffers[interestPointer][..interestCount] == Gathered(ds, |ds|)
    {
      hide Scanned, Foreign, Interests, TotalInterests, Gathered;
      NothingGathered(ds);
      ghost var length := |runtime.buffers[interestPointer]|;
      var k, at := 0, 0;
      while k < |children|
        invariant k <= |children| == |ds| && at == TotalInterests(ds, k) <= interestCount <= length
        invariant interestPointer in runtime.buffers && |runtime.buffers[interestPointer]| == length
        invariant runtime.buffers.Keys == old(runtime.buffers.Keys)
        invariant Scanned(ds) && runtime.buffers[interestPointer][..at] == Gathered(ds, k)
      {
        at := CopySlice(k, at, ds);
        k := k + 1;
      }
    }

    lemma NothingGathered(ds: seq<Computation>)
      requires Scanned(ds)
      ensures TotalInterests(ds, 0) == 0 && Gathered(ds, 0) == [] && |ds| == |children|
      ensures scanIndex == |ds| ==> interestCount == TotalInterests(ds, |ds|)
    {
    }

    /// Copies one child's slice to the buffer's record `at`.
    method CopySlice(k: nat, at: nat, ghost ds: seq<Computation>) returns (next: nat)
      requires Scanned(ds) && k < scanIndex == |ds| == |children| && interestPointer != 0
      requires interestPointer in runtime.buffers && interestCount <= |runtime.buffers[interestPointer]|
      requires at == TotalInterests(ds, k) <= |runtime.buffers[interestPointer]|
      requires runtime.buffers[interestPointer][..at] == Gathered(ds, k)
      modifies runtime`buffers
      ensures runtime.buffers.Keys == old(runtime.buffers.Keys) && interestPointer in runtime.buffers
      ensures |runtime.buffers[interestPointer]| == old(|runtime.buffers[interestPointer]|)
      ensures Scanned(ds) && next == TotalInterests(ds, k + 1) <= interestCount
      ensures runtime.buffers[interestPointer][..next] == Gathered(ds, k + 1)
    {
      hide Forest, Interests, Sliced, SliceOf;
      ghost var b0, slices := runtime.buffers, metadata[metadataPointer];
      var slice := metadata[metadataPointer][k];
      SourceIsReadable(ds, slices, k);
      TotalIsMonotone(ds, k + 1, |ds|);
      runtime.CopyRecords(slice.pointer, slice.count, interestPointer, at, Interests(ds[k]));
      ForeignWrite(ds, slices, b0);
      AppendedPrefix(b0[interestPointer], at, Interests(ds[k]));
      return at + slice.count;
    }

    lemma AppendedPrefix(s: seq<Interest>, at: nat, x: seq<Interest>)
      requires at + |x| <= |s|
      ensures (s[..at] + x + s[at + |x|..])[..at + |x|] == s[..at] + x
      ensures |s[..at] + x + s[at + |x|..]| == |s|
    {
    }

    lemma SourceIsReadable(ds: seq<Computation>, slices: seq<Slice>, k: nat)
      requires k < |ds| && interestPointer in runtime.buffers
      requires Foreign(runtime.frames, runtime.buffers, ds, interestPointer)
      requires Sliced(runtime.frames, runtime.buffers, slices, ds, |ds|)
      ensures slices[k].count == |Interests(ds[k])|
      ensures slices[k].pointer != InBuffer(interestPointer)
      ensures Readable(runtime.frames, runtime.buffers, slices[k].pointer)
      ensures RecordsAt(runtime.frames, runtime.buffers, slices[k].pointer) == Interests(ds[k])
    {
      assert SliceOf(runtime.frames, runtime.buffers, slices[k], ds[k]);
    }

    lemma ForeignWrite(ds: seq<Computation>, slices: seq<Slice>, b0: BufferMap)
      requires Forest(runtime.frames, b0, ds) && Foreign(runtime.frames, b0, ds, interestPointer)
      requires interestPointer in runtime.buffers
      requires runtime.buffers == b0[interestPointer := runtime.buffers[interestPointer]]
      requires Sliced(runtime.frames, b0, slices, ds, |ds|)
      ensures Forest(runtime.frames, runtime.buffers, ds)
      ensures Foreign(runtime.frames, runtime.buffers, ds, interestPointer)
      ensures Sliced(runtime.frames, runtime.buffers, slices, ds, |ds|)
    {
      hide Forest, Sliced;
      ForestIgnoresForeignBuffer(runtime.frames, b0, runtime.buffers, ds, interestPointer);
      SlicesAreFramed(runtime.frames, b0, runtime.frames, runtime.buffers, slices, ds, ds, |ds|);
    }

    /// Ends the borrow: every mapping the group made is unmapped, and no child is touched.
    method Cancel(ghost cs: seq<Computation>) returns (ok: bool)
      requires Live(cs)
      modifies this, runtime`buffers, runtime`trace
      ensures ok <==> old(state) == GROUP_INITIAL || old(state) == GROUP_COMPLETED
      ensures ok ==> Ended(cs) && runtime.buffers == old(runtime.buffers - OwnInterests())
    {
      if state != GROUP_INITIAL && state != GROUP_COMPLETED { return false; }
      ok := ReleaseAll(cs);
    }

    /// Writes whether a child was available and its index at the recorded places, then ends the borrow.
    method Consume(target: nat, ghost cs: seq<Computation>) returns (ok: bool)
      requires Live(cs)
      modifies this, runtime`buffers, runtime`trace, runtime`output
      ensures ok <==> old(state) == GROUP_COMPLETED
      ensures ok ==> Ended(cs) && runtime.buffers == old(runtime.buffers - OwnInterests())
      ensures runtime.output ==
              if ok then old(runtime.output)[target + availableOutput := old(available)][target + indexOutput := old(index)]
              else old(runtime.output)
    {
      if state != GROUP_COMPLETED { return false; }
      runtime.output := runtime.output[target + availableOutput := available];
      runtime.output := runtime.output[target + indexOutput := index];
      ok := ReleaseAll(cs);
    }

    method ReleaseAll(ghost cs: seq<Computation>) returns (ok: bool)
      requires Live(cs)
      modifies this, runtime`buffers, runtime`trace
      ensures ok && Ended(cs) && runtime.buffers == old(runtime.buffers - OwnInterests())
    {
      hide Forest, Sliced, Foreign;
      ok := ReleaseMetadata(cs);
      if !ok { return; }
      ok := ReleaseInterests(cs);
      log := log + [GroupUnmapped];
    }

    method ReleaseMetadata(ghost cs: seq<Computation>) returns (ok: bool)
      requires Live(cs)
      modifies this`metadata, this`metadataPointer, this`metadataSize, this`log
      ensures ok && Storage(cs) && metadataPointer == 0 && multiset(log)[MetadataUnmapped] <= 1
    {
      hide Forest, Foreign;
      if metadataPointer == 0 { return metadataSize == 0; }
      if metadataSize == 0 { return false; }
      metadata := metadata - {metadataPointer};
      metadataPointer, metadataSize := 0, 0;
      log := log + [MetadataUnmapped];
      return true;
    }
  }
}
