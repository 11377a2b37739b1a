/**
 The mutable heap that holds computation frames, and when it represents a tree of `AsyncTree`.
 */
module AsyncHeap {
  import opened AsyncTree

  /// A pointer to interest records: null, the records inside a leaf frame, or a mapped buffer.
  datatype Pointer = Null | InFrame(frame: nat) | InBuffer(base: nat)

  /// The words of a frame that the entries read and write. Handles, flags and buffer addresses are
  /// zero when absent.
  datatype Frame =
    | LeafFrame(tag: nat, readiness: nat, records: seq<Interest>)
    | PairFrame(kind: Kind, state: nat, fields: PairFields)

  datatype PairFields = PairFields(
    first: nat, second: nat, firstDone: nat, secondDone: nat, firstOutput: nat, secondOutput: nat,
    buffer: nat, bufferSize: nat,
    firstPointer: Pointer, firstCount: nat, secondPointer: Pointer, secondCount: nat)

  type FrameMap = map<nat, Frame>
  type BufferMap = map<nat, seq<Interest>>

  const LEAF_INITIAL: nat := 0
  const LEAF_SUSPENDED: nat := 1
  const LEAF_COMPLETED: nat := 2
  const PAIR_INITIAL: nat := 0
  const PAIR_COMPLETED: nat := 1
  const INTEREST_RECORD_SIZE: nat := 32

  function LeafTag(phase: Phase): nat {
    match phase
    case Initial => LEAF_INITIAL
    case Suspended => LEAF_SUSPENDED
    case Completed => LEAF_COMPLETED
  }

  function PairTag(phase: Phase): nat {
    if phase.Completed? then PAIR_COMPLETED else PAIR_INITIAL
  }

  function Flag(b: bool): nat {
    if b then 1 else 0
  }

  /// The interest buffers a tree holds.
  function Buffers(frames: FrameMap, c: Computation): set<nat> {
    match c
    case Released => {}
    case Leaf(_, _, _, _) => {}
    case Pair(f, _, _, _, first, _, second, _, _) => OwnBuffer(frames, f) + Buffers(frames, first) + Buffers(frames, second)
  }

  function OwnBuffer(frames: FrameMap, f: nat): set<nat> {
    if f in frames && frames[f].PairFrame? && frames[f].fields.buffer != 0 then {frames[f].fields.buffer} else {}
  }

  /// The heap represents the tree: every node is a mapped frame with the node's words, and the
  /// buffers of different nodes are different.
  ghost predicate Holds(frames: FrameMap, buffers: BufferMap, c: Computation) {
    match c
    case Released => true
    case Leaf(f, phase, ready, records) =>
      f in frames && frames[f] == LeafFrame(LeafTag(phase), ready, records)
    case Pair(f, _, _, _, first, _, second, _, _) =>
      && f in frames
      && PairWords(frames[f], c)
      && BufferWords(buffers, frames[f].fields, c.phase.Suspended?)
      && OwnBuffer(frames, f) !! Buffers(frames, first)
      && OwnBuffer(frames, f) !! Buffers(frames, second)
      && Buffers(frames, first) !! Buffers(frames, second)
      && Holds(frames, buffers, first)
      && Holds(frames, buffers, second)
  }

  /// A pair in the middle of an entry: both children are represented, whatever the pair's own words
  /// say at the moment.
  ghost predicate HoldsChildren(frames: FrameMap, buffers: BufferMap, c: Computation)
    requires c.Pair?
  {
    && c.frame in frames && frames[c.frame].PairFrame?
    && OwnBuffer(frames, c.frame) <= buffers.Keys
    && OwnBuffer(frames, c.frame) !! Buffers(frames, c.first)
    && OwnBuffer(frames, c.frame) !! Buffers(frames, c.second)
    && Buffers(frames, c.first) !! Buffers(frames, c.second)
    && Holds(frames, buffers, c.first)
    && Holds(frames, buffers, c.second)
  }

  function ChildOf(c: Computation, right: bool): Computation
    requires c.Pair?
  {
    if right then c.second else c.first
  }

  function WithChild(c: Computation, right: bool, done: bool, d: Computation): Computation
    requires c.Pair?
  {
    if right then Advance(c, c.phase, c.firstDone, c.first, done, d)
    else Advance(c, c.phase, done, d, c.secondDone, c.second)
  }

  predicate PairWords(frame: Frame, c: Computation)
    requires c.Pair?
  {
    && frame.PairFrame?
    && frame.kind == c.kind
    && frame.state == PairTag(c.phase)
    && frame.fields.first == Handle(c.first)
    && frame.fields.second == Handle(c.second)
    && frame.fields.firstDone == Flag(c.firstDone)
    && frame.fields.secondDone == Flag(c.secondDone)
    && frame.fields.firstOutput == c.firstOutput
    && frame.fields.secondOutput == c.secondOutput
  }

  predicate BufferWords(buffers: BufferMap, p: PairFields, held: bool) {
    if held then
      p.buffer != 0 && p.buffer in buffers && buffers[p.buffer] != []
      && p.bufferSize == INTEREST_RECORD_SIZE * |buffers[p.buffer]|
    else p.buffer == 0 && p.bufferSize == 0
  }

  /// Distinct frames all the way down, without the agreement between flags and children that only
  /// holds between entries.
  predicate Separate(c: Computation) {
    match c
    case Released => true
    case Leaf(_, _, _, _) => Valid(c)
    case Pair(f, _, _, _, first, _, second, _, _) =>
      && f != 0
      && f !in Frames(first) && f !in Frames(second) && Frames(first) !! Frames(second)
      && Valid(first) && Valid(second)
  }

  lemma OwnedFramesAreNotNull(c: Computation)
    requires Valid(c)
    ensures !c.Released? ==> c.frame != 0 && c.frame in Frames(c)
  {
  }

  /// `RecordsAt` is what a caller reads through a returned pointer.
  ghost predicate Readable(frames: FrameMap, buffers: BufferMap, p: Pointer) {
    match p
    case Null => false
    case InFrame(f) => f in frames && frames[f].LeafFrame?
    case InBuffer(b) => b in buffers
  }

  function RecordsAt(frames: FrameMap, buffers: BufferMap, p: Pointer): seq<Interest>
    requires Readable(frames, buffers, p)
  {
    match p
    case InFrame(f) => frames[f].records
    case InBuffer(b) => buffers[b]
  }

  /// The pointer leads into storage that the tree owns.
  ghost predicate PointsInto(frames: FrameMap, p: Pointer, c: Computation) {
    match p
    case Null => false
    case InFrame(f) => f in Frames(c)
    case InBuffer(b) => b in Buffers(frames, c)
  }

  // ---------------------------------------------------------------- framing

  ghost predicate Agree(f0: FrameMap, b0: BufferMap, f1: FrameMap, b1: BufferMap, c: Computation) {
    && (forall x | x in Frames(c) && x in f0 :: x in f1 && f1[x] == f0[x])
    && (forall x | x in Buffers(f0, c) && x in b0 :: x in b1 && b1[x] == b0[x])
  }

  lemma {:induction false} HoldsWhereHeapsAgree(f0: FrameMap, b0: BufferMap, f1: FrameMap, b1: BufferMap, c: Computation)
    requires Holds(f0, b0, c) && Agree(f0, b0, f1, b1, c)
    ensures Holds(f1, b1, c) && Buffers(f1, c) == Buffers(f0, c)
  {
    if c.Pair? {
      HoldsWhereHeapsAgree(f0, b0, f1, b1, c.first);
      HoldsWhereHeapsAgree(f0, b0, f1, b1, c.second);
    }
  }

  lemma {:induction false} HeldStorageIsMapped(frames: FrameMap, buffers: BufferMap, c: Computation)
    requires Holds(frames, buffers, c)
    ensures Frames(c) <= frames.Keys && Buffers(frames, c) <= buffers.Keys
  {
    if c.Pair? {
      HeldStorageIsMapped(frames, buffers, c.first);
      HeldStorageIsMapped(frames, buffers, c.second);
    }
  }

  /// An entry turned the storage of `c` into the storage of `d` and left everything else alone:
  /// nothing leaks, nothing else is freed, and new buffers are fresh.
  ghost predicate Becomes(f0: FrameMap, b0: BufferMap, c: Computation, f1: FrameMap, b1: BufferMap, d: Computation) {
    && f1.Keys == f0.Keys - Frames(c) + Frames(d)
    && b1.Keys == b0.Keys - Buffers(f0, c) + Buffers(f1, d)
    && Buffers(f1, d) !! b0.Keys - Buffers(f0, c)
    && (forall x | x in f0 && x !in Frames(c) :: x in f1 && f1[x] == f0[x])
    && (forall x | x in b0 && x !in Buffers(f0, c) :: x in b1 && b1[x] == b0[x])
  }

  /// What the words of a represented pair are.
  lemma PairIsHeld(frames: FrameMap, buffers: BufferMap, c: Computation)
    requires Valid(c) && c.Pair? && Holds(frames, buffers, c)
    ensures c.frame in frames && PairWords(frames[c.frame], c)
    ensures BufferWords(buffers, frames[c.frame].fields, c.phase.Suspended?)
    ensures HoldsChildren(frames, buffers, c) && Separate(c)
  {
  }

  lemma ReleasedIsHeld(frames: FrameMap, buffers: BufferMap)
    ensures Holds(frames, buffers, Released)
  {
  }

  lemma BecomesReflexive(frames: FrameMap, buffers: BufferMap, c: Computation)
    requires Holds(frames, buffers, c) || (c.Pair? && HoldsChildren(frames, buffers, c))
    ensures Becomes(frames, buffers, c, frames, buffers, c)
  {
    if c.Pair? && HoldsChildren(frames, buffers, c) {
      HeldStorageIsMapped(frames, buffers, c.first);
      HeldStorageIsMapped(frames, buffers, c.second);
    } else {
      HeldStorageIsMapped(frames, buffers, c);
    }
  }

  lemma BecomesTransitive(f0: FrameMap, b0: BufferMap, c: Computation, f1: FrameMap, b1: BufferMap, d: Computation,
                          f2: FrameMap, b2: BufferMap, e: Computation)
    requires Becomes(f0, b0, c, f1, b1, d) && Becomes(f1, b1, d, f2, b2, e)
    requires Frames(d) <= Frames(c)
    ensures Becomes(f0, b0, c, f2, b2, e)
  {
  }

  /// Rewriting the pair's own words, with the buffer word kept, disturbs nothing.
  lemma OwnWordsBecome(f0: FrameMap, b0: BufferMap, c: Computation, w: Frame)
    requires c.Pair? && Separate(c) && HoldsChildren(f0, b0, c)
    requires w.PairFrame? && w.fields.buffer == f0[c.frame].fields.buffer
    ensures HoldsChildren(f0[c.frame := w], b0, c)
    ensures Becomes(f0, b0, c, f0[c.frame := w], b0, c)
    ensures Buffers(f0[c.frame := w], c.first) == Buffers(f0, c.first)
    ensures Buffers(f0[c.frame := w], c.second) == Buffers(f0, c.second)
  {
    HeldStorageIsMapped(f0, b0, c.first);
    HeldStorageIsMapped(f0, b0, c.second);
    HoldsWhereHeapsAgree(f0, b0, f0[c.frame := w], b0, c.first);
    HoldsWhereHeapsAgree(f0, b0, f0[c.frame := w], b0, c.second);
  }

  /// What an entry of one child does to the pair that owns it.
  lemma ChildEntryHolds(f0: FrameMap, b0: BufferMap, f1: FrameMap, b1: BufferMap,
                        c: Computation, right: bool, done: bool, d: Computation)
    requires c.Pair? && Separate(c) && HoldsChildren(f0, b0, c)
    requires Becomes(f0, b0, ChildOf(c, right), f1, b1, d) && Holds(f1, b1, d)
    requires Frames(d) <= Frames(ChildOf(c, right))
    ensures HoldsChildren(f1, b1, WithChild(c, right, done, d))
    ensures f1[c.frame] == f0[c.frame]
    ensures Buffers(f1, ChildOf(c, !right)) == Buffers(f0, ChildOf(c, !right))
    ensures forall x | x in Frames(ChildOf(c, !right)) :: x in f1 && x in f0 && f1[x] == f0[x]
    ensures forall x | x in Buffers(f0, ChildOf(c, !right)) :: x in b1 && x in b0 && b1[x] == b0[x]
  {
    HeldStorageIsMapped(f0, b0, c.first);
    HeldStorageIsMapped(f0, b0, c.second);
    HoldsWhereHeapsAgree(f0, b0, f1, b1, ChildOf(c, !right));
    assert OwnBuffer(f1, c.frame) == OwnBuffer(f0, c.frame);
    hide Holds, Separate;
  }

  /// Replacing one part of a footprint in place.
  lemma PartReplaced(before: set<nat>, after: set<nat>, own: set<nat>, other: set<nat>, part: set<nat>, new_: set<nat>)
    requires own <= before && other <= before && own !! part && other !! part
    requires after == before - part + new_ && new_ !! before - part
    ensures after == before - (own + part + other) + (own + new_ + other)
    ensures own + new_ + other !! before - (own + part + other)
  {
  }

  lemma FramesReplaced(f0: FrameMap, f1: FrameMap, c: Computation, right: bool, done: bool, d: Computation)
    requires c.Pair? && Separate(c) && Frames(c) <= f0.Keys && Frames(d) <= Frames(ChildOf(c, right))
    requires f1.Keys == f0.Keys - Frames(ChildOf(c, right)) + Frames(d)
    ensures f1.Keys == f0.Keys - Frames(c) + Frames(WithChild(c, right, done, d))
  {
    var others := Frames(ChildOf(c, !right));
    assert Frames(c) == {c.frame} + Frames(ChildOf(c, right)) + others;
    assert Frames(WithChild(c, right, done, d)) == {c.frame} + Frames(d) + others;
    PartReplaced(f0.Keys, f1.Keys, {c.frame}, others, Frames(ChildOf(c, right)), Frames(d));
  }

  lemma ChildEntryBecomes(f0: FrameMap, b0: BufferMap, f1: FrameMap, b1: BufferMap,
                          c: Computation, right: bool, done: bool, d: Computation)
    requires c.Pair? && Separate(c) && HoldsChildren(f0, b0, c)
    requires Becomes(f0, b0, ChildOf(c, right), f1, b1, d) && Holds(f1, b1, d)
    requires Frames(d) <= Frames(ChildOf(c, right))
    ensures Becomes(f0, b0, c, f1, b1, WithChild(c, right, done, d))
  {
    ChildEntryHolds(f0, b0, f1, b1, c, right, done, d);
    HeldStorageIsMapped(f0, b0, c.first);
    HeldStorageIsMapped(f0, b0, c.second);
    hide Holds;
    var e := WithChild(c, right, done, d);
    var own, other := OwnBuffer(f0, c.frame), Buffers(f0, ChildOf(c, !right));
    assert Buffers(f0, c) == own + Buffers(f0, ChildOf(c, right)) + other;
    assert Buffers(f1, e) == own + Buffers(f1, d) + other;
    PartReplaced(b0.Keys, b1.Keys, own, other, Buffers(f0, ChildOf(c, right)), Buffers(f1, d));
    FramesReplaced(f0, f1, c, right, done, d);
    OthersUntouched(f0, c, ChildOf(c, right), right);
  }

  /// A pair's footprint contains its child's.
  lemma OthersUntouched(f: FrameMap, c: Computation, child: Computation, right: bool)
    requires c.Pair? && child == ChildOf(c, right)
    ensures Frames(child) <= Frames(c) && Buffers(f, child) <= Buffers(f, c)
  {
  }

  /// Records read through a pointer stay the same while the storage of their owner does.
  lemma ReadingIsFramed(f0: FrameMap, b0: BufferMap, f1: FrameMap, b1: BufferMap, p: Pointer, d: Computation)
    requires Holds(f0, b0, d) && Agree(f0, b0, f1, b1, d)
    requires Readable(f0, b0, p) && PointsInto(f0, p, d)
    ensures Readable(f1, b1, p) && PointsInto(f1, p, d)
    ensures RecordsAt(f1, b1, p) == RecordsAt(f0, b0, p)
  {
    HoldsWhereHeapsAgree(f0, b0, f1, b1, d);
  }

  // ---------------------------------------------------------------- recorded child results

  function SlotPointer(p: PairFields, right: bool): Pointer {
    if right then p.secondPointer else p.firstPointer
  }

  function SlotCount(p: PairFields, right: bool): nat {
    if right then p.secondCount else p.firstCount
  }

  function DoneOf(c: Computation, right: bool): bool
    requires c.Pair?
  {
    if right then c.secondDone else c.firstDone
  }

  /// The pair's words remember the interests of one child: none, or a readable slice of its storage.
  ghost predicate Recorded(frames: FrameMap, buffers: BufferMap, p: PairFields, d: Computation, right: bool) {
    && SlotCount(p, right) == |Interests(d)|
    && (Interests(d) != [] ==>
          && Readable(frames, buffers, SlotPointer(p, right))
          && PointsInto(frames, SlotPointer(p, right), d)
          && RecordsAt(frames, buffers, SlotPointer(p, right)) == Interests(d))
  }

  lemma RecordedIsFramed(f0: FrameMap, b0: BufferMap, p: PairFields, f1: FrameMap, b1: BufferMap, q: PairFields,
                         d: Computation, right: bool)
    requires Holds(f0, b0, d) && Agree(f0, b0, f1, b1, d)
    requires SlotPointer(p, right) == SlotPointer(q, right) && SlotCount(p, right) == SlotCount(q, right)
    ensures Recorded(f0, b0, p, d, right) ==> Recorded(f1, b1, q, d, right)
  {
    if Recorded(f0, b0, p, d, right) && Interests(d) != [] {
      ReadingIsFramed(f0, b0, f1, b1, SlotPointer(p, right), d);
    }
  }

  lemma OnlyChildrenWereReleased(c: Computation, m: Computation, e: Computation)
    requires c.Pair? && m.Pair? && e.Pair? && m.frame == c.frame == e.frame
    requires m.first == c.first || m.first.Released?
    requires m.second == c.second || m.second.Released?
    requires e.first.Released? && e.second.Released?
    ensures Frames(m) <= Frames(c) && Frames(e) <= Frames(m)
  {
  }

  /// Unmapping the frame of a pair whose children are gone leaves nothing of it.
  lemma FrameReleaseBecomes(frames: FrameMap, buffers: BufferMap, m: Computation)
    requires m.Pair? && m.first.Released? && m.second.Released?
    requires m.frame in frames && OwnBuffer(frames, m.frame) == {}
    ensures Becomes(frames, buffers, m, frames - {m.frame}, buffers, Released)
  {
  }

  // ---------------------------------------------------------------- outputs

  /// The bytes that consuming a completed tree writes: a winner tag for every race, each at the
  /// placements that its owners recorded.
  function OutputOf(c: Computation, target: nat, memory: map<nat, nat>): map<nat, nat> {
    match c
    case Released => memory
    case Leaf(_, _, _, _) => memory
    case Pair(_, kind, _, firstDone, first, _, second, firstOutput, secondOutput) =>
      if kind.Join? then OutputOf(second, target + secondOutput, OutputOf(first, target + firstOutput, memory))
      else
        var tagged := memory[target + firstOutput := if firstDone then 0 else 1];
        if firstDone then OutputOf(first, target + secondOutput, tagged)
        else OutputOf(second, target + secondOutput, tagged)
  }

  /// A fresh buffer stored in a pair that held none.
  lemma BufferIsAttached(f0: FrameMap, b0: BufferMap, w: Frame, m: Computation, base: nat, records: seq<Interest>)
    requires m.Pair? && Separate(m) && HoldsChildren(f0, b0, m) && m.phase.Initial?
    requires f0[m.frame].fields.buffer == 0 && base != 0 && base !in b0
    requires records == Interests(m.first) + Interests(m.second) && records != []
    requires PairWords(w, m) && w.fields.buffer == base && w.fields.bufferSize == INTEREST_RECORD_SIZE * |records|
    ensures var d := Advance(m, Suspended, m.firstDone, m.first, m.secondDone, m.second);
            && Holds(f0[m.frame := w], b0[base := records], d)
            && Becomes(f0, b0, m, f0[m.frame := w], b0[base := records], d)
            && base in Buffers(f0[m.frame := w], d)
            && Interests(d) == records
  {
    var d := Advance(m, Suspended, m.firstDone, m.first, m.secondDone, m.second);
    var f1, b1 := f0[m.frame := w], b0[base := records];
    AttachedBufferIsHeld(f0, b0, w, m, base, records);
    AttachedBuffers(f0, b0, w, m, base, records);
    hide Holds, HoldsChildren, Buffers, PairWords, Frames;
    FreshKey(b0, Buffers(f0, m), base, records);
  }

  lemma AttachedBufferIsHeld(f0: FrameMap, b0: BufferMap, w: Frame, m: Computation, base: nat, records: seq<Interest>)
    requires m.Pair? && Separate(m) && HoldsChildren(f0, b0, m) && m.phase.Initial? && base != 0 && base !in b0
    requires PairWords(w, m) && w.fields.buffer == base && w.fields.bufferSize == INTEREST_RECORD_SIZE * |records|
    requires records == Interests(m.first) + Interests(m.second) && records != []
    ensures Holds(f0[m.frame := w], b0[base := records], Advance(m, Suspended, m.firstDone, m.first, m.secondDone, m.second))
  {
    ChildrenIgnoreAttachment(f0, b0, w, m, base, records);
    assert OwnBuffer(f0[m.frame := w], m.frame) == {base};
  }

  lemma AttachedBuffers(f0: FrameMap, b0: BufferMap, w: Frame, m: Computation, base: nat, records: seq<Interest>)
    requires m.Pair? && Separate(m) && HoldsChildren(f0, b0, m) && base != 0 && base !in b0
    requires f0[m.frame].fields.buffer == 0 && PairWords(w, m) && w.fields.buffer == base
    ensures var d := Advance(m, Suspended, m.firstDone, m.first, m.secondDone, m.second);
            && Buffers(f0[m.frame := w], d) == {base} + Buffers(f0, m) && Buffers(f0, m) <= b0.Keys
            && Frames(d) == Frames(m) <= f0.Keys && m.frame in Frames(m)
  {
    ChildrenIgnoreAttachment(f0, b0, w, m, base, records);
    HeldStorageIsMapped(f0, b0, m.first);
    HeldStorageIsMapped(f0, b0, m.second);
    hide Holds;
    assert OwnBuffer(f0, m.frame) == {} && OwnBuffer(f0[m.frame := w], m.frame) == {base};
  }

  lemma FreshKey(b0: BufferMap, children: set<nat>, base: nat, records: seq<Interest>)
    requires children <= b0.Keys && base !in b0
    ensures b0[base := records].Keys == b0.Keys - children + ({base} + children)
    ensures {base} + children !! b0.Keys - children
  {
  }

  lemma ChildrenIgnoreAttachment(f0: FrameMap, b0: BufferMap, w: Frame, m: Computation, base: nat, records: seq<Interest>)
    requires m.Pair? && Separate(m) && HoldsChildren(f0, b0, m) && base !in b0
    ensures var f1, b1 := f0[m.frame := w], b0[base := records];
            && Holds(f1, b1, m.first) && Buffers(f1, m.first) == Buffers(f0, m.first)
            && Holds(f1, b1, m.second) && Buffers(f1, m.second) == Buffers(f0, m.second)
            && base !in Buffers(f0, m.first) && base !in Buffers(f0, m.second)
  {
    var f1, b1 := f0[m.frame := w], b0[base := records];
    HeldStorageIsMapped(f0, b0, m.first);
    HeldStorageIsMapped(f0, b0, m.second);
    HoldsWhereHeapsAgree(f0, b0, f1, b1, m.first);
    HoldsWhereHeapsAgree(f0, b0, f1, b1, m.second);
  }
}
