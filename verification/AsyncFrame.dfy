/**
 The resume entry of a deferred function on the bytes of its heap frame.

 Each call starts in an activation that holds nothing, finds the state in the frame's tag word,
 restores what that state saved, and runs until it waits again or completes. The contract of
 `Resume` says that the calls together are one run of `AsyncProgram`'s plain machine.
 */
module AsyncFrame {
  import opened Results
  import opened ByteRanges
  import opened ObjectLayout
  import opened AsyncProgram

  const TAG_OFFSET: nat := 24
  const TAG_END: nat := 32

  // ---------------------------------------------------------------- activation storage

  /// Where a value lives while its function runs: nowhere, in general registers, in a floating
  /// register, or in the activation's own memory.
  datatype Storage = Omitted | Direct(lanes: nat) | Floating | Memory

  function RawSize(storage: Storage, size: nat): nat {
    match storage
    case Omitted => 0
    case Direct(lanes) => WORD_SIZE * lanes
    case Floating => WORD_SIZE
    case Memory => size
  }

  predicate StorageFits(storage: Storage, size: nat) {
    match storage
    case Omitted => size == 0
    case Direct(lanes) => WORD_SIZE * lanes < size + WORD_SIZE && size <= WORD_SIZE * lanes
    case Floating => size == 4 || size == 8
    case Memory => true
  }

  // ---------------------------------------------------------------- the frame

  /// One suspension state: the block that suspends, and the fields that are copied between frame and
  /// activation. Its tag is one more than its index.
  datatype State = State(suspend: nat, fields: seq<Field>)

  datatype CallResult = Pending(interests: (nat, nat)) | Completed | Trapped | OutOfFuel

  datatype Plan = Plan(
    layout: FrameLayout, storage: map<Field, Storage>, initial: seq<Field>, states: seq<State>,
    live: seq<set<Field>>, after: seq<set<Field>>)

  predicate Distinct<T(==)>(s: seq<T>) {
    forall i, j | 0 <= i < j < |s| :: s[i] != s[j]
  }

  /// A stack object of the frame is used in place; the other fields are copied.
  function CopiedFields(fields: seq<Field>): seq<Field> {
    if fields == [] then []
    else CopiedFields(fields[..|fields| - 1]) + (if fields[|fields| - 1].Stack? then [] else [fields[|fields| - 1]])
  }

  /// Every field must have a place; none of the frame's stack objects is copied.
  method SelectFields(fields: seq<Field>, layout: FrameLayout) returns (r: Option<seq<Field>>)
    ensures r.None? <==> exists f | f in fields :: f !in layout.fields
    ensures r.Some? ==> r.value == CopiedFields(fields)
  {
    var selected := [];
    for i := 0 to |fields|
      invariant selected == CopiedFields(fields[..i])
      invariant forall f | f in fields[..i] :: f in layout.fields
    {
      assert fields[..i + 1][..i] == fields[..i];
      assert fields[..i + 1] == fields[..i] + [fields[i]];
      if fields[i] !in layout.fields { return None; }
      if !fields[i].Stack? { selected := selected + [fields[i]]; }
    }
    assert fields[..|fields|] == fields;
    return Some(selected);
  }

  ghost predicate CopiesFrom(fields: seq<Field>, layout: FrameLayout) {
    forall f | f in fields :: f in layout.fields && !f.Stack?
  }

  ghost predicate ValidStates(p: Program, plan: Plan)
    requires WellFormed(p) && Covers(p, plan.live, plan.after)
  {
    && (forall i | 0 <= i < |plan.states| ::
          && plan.states[i].suspend < |p.blocks| && p.blocks[plan.states[i].suspend].terminator.Suspend?
          && CopiesFrom(plan.states[i].fields, plan.layout)
          && Needs(p.blocks[plan.states[i].suspend].terminator, plan.live)
             <= Elements(plan.states[i].fields) + Elements(p.shared))
    && (forall i, j | 0 <= i < j < |plan.states| :: plan.states[i].suspend != plan.states[j].suspend)
    && (forall b | 0 <= b < |p.blocks| && p.blocks[b].terminator.Suspend? :: HasState(plan, b))
    && |plan.states| + 1 < U64_LIMIT
  }

  ghost predicate HasState(plan: Plan, b: nat) {
    exists i | 0 <= i < |plan.states| :: plan.states[i].suspend == b
  }

  ghost predicate ValidReturns(p: Program, layout: FrameLayout)
    requires WellFormed(p)
  {
    forall b | 0 <= b < |p.blocks| && p.blocks[b].terminator.DeferredReturn? ::
      var output := p.blocks[b].terminator.output;
      && output.Some? == layout.output.Some?
      && (output.Some? ==> output.value in p.sizes && layout.output.value.size == p.sizes[output.value])
  }

  /// What the planning stages establish about one function.
  ghost predicate ValidPlan(p: Program, plan: Plan) {
    && WellFormed(p) && ValidFrame(plan.layout)
    && Covers(p, plan.live, plan.after) && Known(p, plan.live, plan.after)
    && Distinct(p.shared)
    && (forall f | f in p.shared :: f in plan.layout.fields)
    && (forall f | f in plan.layout.fields && f.Stack? :: f in p.shared)
    && (forall f | f in plan.layout.fields :: f in p.sizes && plan.layout.fields[f].size == p.sizes[f])
    && plan.storage.Keys == p.sizes.Keys
    && (forall f | f in p.sizes :: StorageFits(plan.storage[f], p.sizes[f]))
    && CopiesFrom(plan.initial, plan.layout)
    && Before(p.entryInstructions, plan.live[p.entry]) <= Elements(plan.initial) + Elements(p.shared)
    && ValidStates(p, plan) && ValidReturns(p, plan.layout)
  }

  function Slot(l: FrameLayout, h: Bytes, f: Field): Bytes
    requires f in l.fields && l.fields[f].End() <= |h|
  {
    h[l.fields[f].offset..l.fields[f].End()]
  }

  /// Nothing but loaned stack objects differs between two states of the frame's bytes.
  ghost predicate Untouched(l: FrameLayout, h0: Bytes, h1: Bytes)
    requires ValidFrame(l)
  {
    && |h0| == |h1| == l.size
    && h0[..FIXED_HEADER_SIZE] == h1[..FIXED_HEADER_SIZE]
    && forall f | f in l.fields && !f.Stack? :: Slot(l, h1, f) == Slot(l, h0, f)
  }

  lemma NothingTouched(p: Program, plan: Plan, h: Bytes)
    requires ValidPlan(p, plan) && |h| == plan.layout.size
    ensures Untouched(plan.layout, h, h)
  {
  }

  lemma StoreKeepsOthers(l: FrameLayout, h: Bytes, f: Field, data: Bytes)
    requires ValidFrame(l) && |h| == l.size && f in l.fields && |data| == l.fields[f].size
    ensures var h1 := Splice(h, l.fields[f].offset, data);
            && Slot(l, h1, f) == data
            && (forall g | g in l.fields && g != f :: Slot(l, h1, g) == Slot(l, h, g))
            && h1[..FIXED_HEADER_SIZE] == h[..FIXED_HEADER_SIZE]
            && (f.Stack? ==> Untouched(l, h, h1))
  {
    var o := l.fields[f].offset;
    var h1 := Splice(h, o, data);
    SpliceHere(h, o, data);
    forall g | g in l.fields && g != f ensures Slot(l, h1, g) == Slot(l, h, g) {
      assert Apart(l.fields[f], l.fields[g]);
      SpliceElsewhere(h, o, data, l.fields[g].offset, l.fields[g].End());
    }
  }

  // ---------------------------------------------------------------- what the frame stands for

  /// What a running activation amounts to: loaned objects in the frame, everything else in registers
  /// and activation memory.
  ghost function ViewOf(p: Program, plan: Plan, h: Bytes, activation: map<Field, Bytes>): (env: Env)
    requires ValidPlan(p, plan) && |h| == plan.layout.size && Activated(p, plan, activation)
    ensures Typed(p, env)
  {
    map f | f in p.sizes :: if f in p.shared then Slot(plan.layout, h, f) else activation[f][..p.sizes[f]]
  }

  ghost predicate Activated(p: Program, plan: Plan, activation: map<Field, Bytes>) {
    && activation.Keys == p.sizes.Keys == plan.storage.Keys
    && forall f | f in activation :: |activation[f]| == RawSize(plan.storage[f], p.sizes[f]) >= p.sizes[f]
  }

  /// Writing a register or activation memory.
  lemma ViewAfterRegister(p: Program, plan: Plan, h: Bytes, activation: map<Field, Bytes>, f: Field, raw: Bytes)
    requires ValidPlan(p, plan) && |h| == plan.layout.size && Activated(p, plan, activation)
    requires f in p.sizes && f !in p.shared && |raw| == RawSize(plan.storage[f], p.sizes[f])
    ensures |raw| >= p.sizes[f] && Activated(p, plan, activation[f := raw])
    ensures ViewOf(p, plan, h, activation[f := raw]) == ViewOf(p, plan, h, activation)[f := raw[..p.sizes[f]]]
  {
    assert StorageFits(plan.storage[f], p.sizes[f]);
    hide ValidPlan;
  }

  /// Writing a loaned stack object in place.
  lemma ViewAfterStore(p: Program, plan: Plan, h: Bytes, activation: map<Field, Bytes>, f: Field, data: Bytes)
    requires ValidPlan(p, plan) && |h| == plan.layout.size && Activated(p, plan, activation)
    requires f in p.sizes && f in p.shared && |data| == p.sizes[f]
    ensures f in plan.layout.fields && plan.layout.fields[f].size == p.sizes[f]
    ensures plan.layout.fields[f].End() <= |h|
    ensures var h1 := Splice(h, plan.layout.fields[f].offset, data);
            && ViewOf(p, plan, h1, activation) == ViewOf(p, plan, h, activation)[f := data]
            && Untouched(plan.layout, h, h1)
  {
    StoreKeepsOthers(plan.layout, h, f, data);
  }

  ghost predicate HeapAgrees(l: FrameLayout, h: Bytes, env: Env, fields: set<Field>)
    requires ValidFrame(l) && |h| == l.size
  {
    forall f | f in fields :: f in l.fields && f in env && Slot(l, h, f) == env[f]
  }

  ghost function TagIn(h: Bytes): nat
    requires |h| >= FIXED_HEADER_SIZE
  {
    FromBytes(h[..FIXED_HEADER_SIZE][TAG_OFFSET..TAG_END])
  }

  /// Between calls, the frame's bytes hold what the plain machine's configuration still needs.
  ghost predicate Represents<W>(p: Program, plan: Plan, h: Bytes, world: W, c: Config<W>)
    requires ValidPlan(p, plan) && |h| == plan.layout.size && Proper(p, c)
  {
    var l, shared := plan.layout, Elements(p.shared);
    match c
    case Fault => false
    case Running(_, _, _) => false
    case Start(env, w) =>
      && w == world && TagIn(h) == 0
      && HeapAgrees(l, h, env, Before(p.entryInstructions, plan.live[p.entry]) + shared)
    case Waiting(b, env, _, w) =>
      && w == world
      && (exists i | 0 <= i < |plan.states| :: plan.states[i].suspend == b && TagIn(h) == 1 + i)
      && HeapAgrees(l, h, env, Needs(p.blocks[b].terminator, plan.live) + shared)
    case Finished(output, env, w) =>
      && w == world && TagIn(h) == 1 + |plan.states|
      && HeapAgrees(l, h, env, shared)
      && (l.output.Some? ==> h[l.output.value.offset..l.output.value.End()] == output)
  }

  /// Being represented depends only on what similar configurations share.
  lemma SimilarIsRepresented<W>(p: Program, plan: Plan, h: Bytes, world: W, c: Config<W>, d: Config<W>)
    requires ValidPlan(p, plan) && |h| == plan.layout.size && Proper(p, c) && Proper(p, d)
    requires Represents(p, plan, h, world, c) && Similar(p, plan.live, c, d)
    ensures Represents(p, plan, h, world, d)
  {
  }

  /// The entry addresses and the allocation context, which no call may change.
  ghost predicate SameHeader(h0: Bytes, h1: Bytes) {
    && |h0| == |h1| >= FIXED_HEADER_SIZE
    && h0[..TAG_OFFSET] == h1[..TAG_OFFSET]
    && h0[TAG_END..FIXED_HEADER_SIZE] == h1[TAG_END..FIXED_HEADER_SIZE]
  }

  lemma SameHeaderWhole(h0: Bytes, h1: Bytes)
    requires |h0| == |h1| >= FIXED_HEADER_SIZE && h0[..FIXED_HEADER_SIZE] == h1[..FIXED_HEADER_SIZE]
    ensures SameHeader(h0, h1)
  {
    assert h0[..TAG_OFFSET] == h0[..FIXED_HEADER_SIZE][..TAG_OFFSET];
    assert h0[TAG_END..FIXED_HEADER_SIZE] == h0[..FIXED_HEADER_SIZE][TAG_END..];
    assert h1[TAG_END..FIXED_HEADER_SIZE] == h1[..FIXED_HEADER_SIZE][TAG_END..];
    assert h1[..TAG_OFFSET] == h1[..FIXED_HEADER_SIZE][..TAG_OFFSET];
  }

  lemma UntouchedHeader(p: Program, plan: Plan, h0: Bytes, h1: Bytes)
    requires ValidPlan(p, plan) && Untouched(plan.layout, h0, h1)
    ensures SameHeader(h0, h1)
  {
    SameHeaderWhole(h0, h1);
  }

  /// Storing a tag changes nothing but the tag word.
  lemma TagStored(l: FrameLayout, h: Bytes, tag: nat)
    requires ValidFrame(l) && |h| == l.size && tag < U64_LIMIT
    ensures var h1 := Splice(h, TAG_OFFSET, ToBytes(tag, WORD_SIZE));
            && TagIn(h1) == tag
            && (forall f | f in l.fields :: Slot(l, h1, f) == Slot(l, h, f))
            && (l.output.Some? ==> OutputIn(l, h1) == OutputIn(l, h))
            && SameHeader(h, h1)
  {
    WordsHaveEightBytes();
    WordRoundTrip(tag, WORD_SIZE);
    var data := ToBytes(tag, WORD_SIZE);
    var h1 := Splice(h, TAG_OFFSET, data);
    SpliceHere(h, TAG_OFFSET, data);
    assert h1[..FIXED_HEADER_SIZE][TAG_OFFSET..TAG_END] == h1[TAG_OFFSET..TAG_END];
    forall f | f in l.fields ensures Slot(l, h1, f) == Slot(l, h, f) {
      SpliceElsewhere(h, TAG_OFFSET, data, l.fields[f].offset, l.fields[f].End());
    }
    if l.output.Some? {
      SpliceElsewhere(h, TAG_OFFSET, data, l.output.value.offset, l.output.value.End());
    }
    SpliceElsewhere(h, TAG_OFFSET, data, TAG_END, FIXED_HEADER_SIZE);
  }

  function OutputIn(l: FrameLayout, h: Bytes): Bytes
    requires l.output.Some? && l.output.value.End() <= |h|
  {
    h[l.output.value.offset..l.output.value.End()]
  }

  /// Storing the output changes no field and no header word.
  lemma OutputStored(l: FrameLayout, h: Bytes, value: Bytes)
    requires ValidFrame(l) && |h| == l.size && l.output.Some? && |value| == l.output.value.size
    ensures var h1 := Splice(h, l.output.value.offset, value);
            && OutputIn(l, h1) == value
            && (forall f | f in l.fields :: Slot(l, h1, f) == Slot(l, h, f))
            && h1[..FIXED_HEADER_SIZE] == h[..FIXED_HEADER_SIZE]
  {
    var o := l.output.value.offset;
    SpliceHere(h, o, value);
    forall f | f in l.fields ensures Slot(l, Splice(h, o, value), f) == Slot(l, h, f) {
      assert Apart(l.fields[f], l.output.value);
      SpliceElsewhere(h, o, value, l.fields[f].offset, l.fields[f].End());
    }
    SpliceElsewhere(h, o, value, 0, FIXED_HEADER_SIZE);
  }

  /// The view reads the frame only at loaned objects.
  lemma ViewIgnoresCopies(p: Program, plan: Plan, h0: Bytes, h1: Bytes, activation: map<Field, Bytes>)
    requires ValidPlan(p, plan) && |h0| == |h1| == plan.layout.size && Activated(p, plan, activation)
    requires forall f | f in plan.layout.fields && f.Stack? :: Slot(plan.layout, h1, f) == Slot(plan.layout, h0, f)
    ensures ViewOf(p, plan, h1, activation) == ViewOf(p, plan, h0, activation)
  {
  }

  /// Saving one field.
  lemma FieldSaved(p: Program, plan: Plan, h: Bytes, activation: map<Field, Bytes>, f: Field)
    requires ValidPlan(p, plan) && |h| == plan.layout.size && Activated(p, plan, activation)
    requires f in plan.layout.fields && !f.Stack?
    ensures var value := ViewOf(p, plan, h, activation)[f];
            var h1 := Splice(h, plan.layout.fields[f].offset, value);
            && ViewOf(p, plan, h1, activation) == ViewOf(p, plan, h, activation)
            && Slot(plan.layout, h1, f) == value
            && (forall g | g in plan.layout.fields && g != f :: Slot(plan.layout, h1, g) == Slot(plan.layout, h, g))
            && h1[..FIXED_HEADER_SIZE] == h[..FIXED_HEADER_SIZE]
  {
    var value := ViewOf(p, plan, h, activation)[f];
    StoreKeepsOthers(plan.layout, h, f, value);
    ViewIgnoresCopies(p, plan, h, Splice(h, plan.layout.fields[f].offset, value), activation);
  }

  lemma ViewOfLoans(p: Program, plan: Plan, h: Bytes, activation: map<Field, Bytes>)
    requires ValidPlan(p, plan) && |h| == plan.layout.size && Activated(p, plan, activation)
    ensures HeapAgrees(plan.layout, h, ViewOf(p, plan, h, activation), Elements(p.shared))
  {
  }

  /// A state that is polled again and stays pending need not be saved again: since it was restored,
  /// only loaned objects changed, and those live in the frame.
  lemma SkippedSaveIsCurrent(p: Program, plan: Plan, h0: Bytes, x: Env, h1: Bytes, y: Env, needs: set<Field>)
    requires ValidPlan(p, plan) && |h0| == |h1| == plan.layout.size
    requires HeapAgrees(plan.layout, h0, x, needs) && Untouched(plan.layout, h0, h1)
    requires HeapAgrees(plan.layout, h1, y, Elements(p.shared))
    requires forall f | f in x && f !in p.shared :: f in y && y[f] == x[f]
    ensures HeapAgrees(plan.layout, h1, y, needs + Elements(p.shared)) && TagIn(h1) == TagIn(h0)
  {
  }
}
