/**
 The emitted resume entry: dispatch on the state tag, restore, poll, save and complete.
 */
module AsyncResume {
  import opened Results
  import opened ByteRanges
  import opened ObjectLayout
  import opened AsyncProgram
  import opened AsyncFrame

  class DeferredFrame<W> {
    const p: Program
    const s: Semantics<W>
    const plan: Plan
    /// The bytes of the heap frame.
    const heap: array<Byte>
    /// Registers and activation memory. Their contents are lost between calls.
    var activation: map<Field, Bytes>
    var world: W

    ghost predicate Valid()
      reads this`activation
    {
      ValidPlan(p, plan) && heap.Length == plan.layout.size && Activated(p, plan, activation)
    }

    constructor (p: Program, s: Semantics<W>, plan: Plan, heap: array<Byte>, activation: map<Field, Bytes>, world: W)
      requires ValidPlan(p, plan) && heap.Length == plan.layout.size && Activated(p, plan, activation)
      ensures Valid() && this.p == p && this.s == s && this.plan == plan && this.heap == heap && this.world == world
    {
      this.p, this.s, this.plan, this.heap := p, s, plan, heap;
      this.activation, this.world := activation, world;
    }

    ghost function View(): Env
      requires Valid()
      reads this`activation, heap
    {
      ViewOf(p, plan, heap[..], activation)
    }

    ghost predicate Stands(c: Config<W>)
      requires Valid() && Proper(p, c)
      reads this, heap
    {
      Represents(p, plan, heap[..], world, c)
    }

    // ---------------------------------------------------------------- bytes of the frame

    method StoreBytes(offset: nat, data: Bytes)
      requires offset + |data| <= heap.Length
      modifies heap
      ensures heap[..] == Splice(old(heap[..]), offset, data)
    {
      var i := 0;
      while i < |data|
        invariant i <= |data|
        invariant heap[..] == Splice(old(heap[..]), offset, data[..i])
      {
        ghost var before := heap[..];
        heap[offset + i] := data[i];
        assert heap[..] == Splice(before, offset + i, data[i..i + 1]);
        SpliceExtends(old(heap[..]), offset, data, i, i + 1);
        i := i + 1;
      }
      assert data[..|data|] == data;
    }

    /// Copies memory with the widest native accesses that fit.
    method StoreChunks(offset: nat, data: Bytes)
      requires offset + |data| <= heap.Length
      modifies heap
      ensures heap[..] == Splice(old(heap[..]), offset, data)
    {
      hide Splice;
      var at := 0;
      assert heap[..] == Splice(heap[..], offset, data[..0]) by { SpliceNothing(heap[..], offset, data); }
      while at < |data|
        invariant at <= |data|
        invariant heap[..] == Splice(old(heap[..]), offset, data[..at])
        decreases |data| - at
      {
        var width := ChunkWidth(|data| - at);
        StoreBytes(offset + at, data[at..at + width]);
        SpliceExtends(old(heap[..]), offset, data, at, at + width);
        at := at + width;
      }
      assert data[..|data|] == data;
    }

    lemma SpliceNothing(h: Bytes, offset: nat, data: Bytes)
      requires offset <= |h|
      ensures h == Splice(h, offset, data[..0])
    {
    }

    method LoadChunks(offset: nat, size: nat) returns (data: Bytes)
      requires offset + size <= heap.Length
      ensures data == heap[offset..offset + size]
    {
      data := [];
      while |data| < size
        invariant |data| <= size && data == heap[offset..offset + |data|]
        decreases size - |data|
      {
        var width := ChunkWidth(size - |data|);
        data := data + heap[offset + |data|..offset + |data| + width];
      }
    }

    // ---------------------------------------------------------------- single resources

    method ReadField(f: Field) returns (value: Bytes)
      requires Valid() && f in p.sizes
      ensures value == View()[f]
    {
      if f in p.shared {
        return heap[plan.layout.fields[f].offset..plan.layout.fields[f].End()];
      }
      return activation[f][..p.sizes[f]];
    }

    method ReadFields(fields: seq<Field>) returns (values: seq<Bytes>)
      requires Valid() && forall f | f in fields :: f in p.sizes
      ensures values == ReadAll(View(), fields)
    {
      hide Valid, ViewOf;
      values := [];
      for i := 0 to |fields|
        invariant |values| == i && forall j | 0 <= j < i :: values[j] == View()[fields[j]]
      {
        var value := ReadField(fields[i]);
        values := values + [value];
      }
    }

    /// A stack object of the frame is written in place.
    method WriteField(f: Field, value: Bytes)
      requires Valid() && f in p.sizes
      modifies this`activation, heap
      ensures Valid() && View() == old(View())[f := Fit(value, p.sizes[f])]
      ensures Untouched(plan.layout, old(heap[..]), heap[..])
    {
      hide ViewOf, ValidPlan, Splice, Untouched;
      var size := p.sizes[f];
      if f in p.shared {
        ViewAfterStore(p, plan, heap[..], activation, f, Fit(value, size));
        StoreChunks(plan.layout.fields[f].offset, Fit(value, size));
      } else {
        var raw := Fit(value, RawSize(plan.storage[f], size));
        ViewAfterRegister(p, plan, heap[..], activation, f, raw);
        assert raw[..size] == Fit(value, size);
        NothingTouched(p, plan, heap[..]);
        activation := activation[f := raw];
      }
    }

    method WriteFields(fields: seq<Field>, results: seq<Bytes>)
      requires Valid() && forall f | f in fields :: f in p.sizes
      modifies this`activation, heap
      ensures Valid() && View() == WriteAll(p, old(View()), fields, results)
      ensures Untouched(plan.layout, old(heap[..]), heap[..])
    {
      hide ViewOf;
      ghost var h0 := heap[..];
      for i := 0 to |fields|
        invariant Valid() && View() == WriteAll(p, old(View()), fields[..i], results)
        invariant Untouched(plan.layout, h0, heap[..])
      {
        assert fields[..i + 1][..i] == fields[..i];
        WriteField(fields[i], Nth(results, i));
      }
      assert fields[..|fields|] == fields;
    }

    /// Copies one field from activation to frame: lane by lane, as register bits, or as memory.
    method SaveField(f: Field)
      requires Valid() && f in plan.layout.fields && !f.Stack?
      modifies heap
      ensures heap[..] == Splice(old(heap[..]), plan.layout.fields[f].offset, old(View())[f])
    {
      var o, size := plan.layout.fields[f].offset, p.sizes[f];
      ghost var value := View()[f];
      var raw := activation[f];
      match plan.storage[f]
      case Omitted =>
        assert heap[..] == Splice(heap[..], o, value);
      case Direct(lanes) =>
        SaveLanes(o, size, lanes, raw, value);
      case Floating =>
        StoreBytes(o, raw[..size]);
      case Memory =>
        StoreChunks(o, raw);
        assert raw[..size] == raw;
    }

    method SaveLanes(o: nat, size: nat, lanes: nat, raw: Bytes, ghost value: Bytes)
      requires o + size <= heap.Length && StorageFits(Direct(lanes), size)
      requires |raw| == WORD_SIZE * lanes && value == raw[..size]
      modifies heap
      ensures heap[..] == Splice(old(heap[..]), o, value)
    {
      hide Splice;
      SpliceNothing(heap[..], o, value);
      for lane := 0 to lanes
        invariant heap[..] == Splice(old(heap[..]), o, value[..Reached(lane, size)])
      {
        var bytes := LaneBytes(size, WORD_SIZE * lane);
        StoreBytes(o + WORD_SIZE * lane, raw[WORD_SIZE * lane..WORD_SIZE * lane + bytes]);
        assert value[Reached(lane, size)..Reached(lane + 1, size)] == raw[WORD_SIZE * lane..WORD_SIZE * lane + bytes];
        SpliceExtends(old(heap[..]), o, value, Reached(lane, size), Reached(lane + 1, size));
      }
      assert value[..|value|] == value;
    }

    function Reached(lane: nat, size: nat): (r: nat)
      ensures r <= size
    {
      if WORD_SIZE * lane < size then WORD_SIZE * lane else size
    }

    /// Copies one field from frame to activation. The bytes of a register above the value are zero.
    method RestoreField(f: Field)
      requires Valid() && f in plan.layout.fields && !f.Stack?
      modifies this`activation
      ensures Valid() && View() == old(View())[f := Slot(plan.layout, heap[..], f)]
    {
      hide ViewOf;
      var raw := LoadField(f);
      ViewAfterRegister(p, plan, heap[..], activation, f, raw);
      hide ValidPlan;
      activation := activation[f := raw];
    }

    method LoadField(f: Field) returns (raw: Bytes)
      requires Valid() && f in plan.layout.fields && !f.Stack?
      ensures f in p.sizes && f !in p.shared && plan.layout.fields[f].End() <= heap.Length
      ensures |raw| == RawSize(plan.storage[f], p.sizes[f]) >= p.sizes[f]
      ensures raw[..p.sizes[f]] == Slot(plan.layout, heap[..], f)
    {
      var o, size := plan.layout.fields[f].offset, p.sizes[f];
      match plan.storage[f] {
        case Omitted =>
          raw := [];
        case Direct(lanes) =>
          raw := LoadLanes(o, size, lanes);
        case Floating =>
          raw := Fit(heap[o..o + size], WORD_SIZE);
        case Memory =>
          raw := LoadChunks(o, size);
      }
      assert raw[..size] == heap[o..o + size];
    }

    method LoadLanes(o: nat, size: nat, lanes: nat) returns (raw: Bytes)
      requires o + size <= heap.Length && StorageFits(Direct(lanes), size)
      ensures |raw| == WORD_SIZE * lanes && raw[..size] == heap[o..o + size]
    {
      raw := [];
      for lane := 0 to lanes
        invariant |raw| == WORD_SIZE * lane
        invariant raw[..Reached(lane, size)] == heap[o..o + Reached(lane, size)]
      {
        var bytes := LaneBytes(size, WORD_SIZE * lane);
        var at := o + WORD_SIZE * lane;
        LaneAppended(heap[..], o, WORD_SIZE * lane, bytes, raw);
        raw := raw + Fit(heap[at..at + bytes], WORD_SIZE);
      }
    }

    lemma LaneAppended(h: Bytes, o: nat, n: nat, bytes: nat, raw: Bytes)
      requires o + n + bytes <= |h| && bytes <= WORD_SIZE && |raw| == n && raw == h[o..o + n]
      ensures (raw + Fit(h[o + n..o + n + bytes], WORD_SIZE))[..n + bytes] == h[o..o + n + bytes]
    {
    }

    method WriteTag(tag: nat)
      requires Valid() && tag < U64_LIMIT
      modifies heap
      ensures heap[..] == Splice(old(heap[..]), TAG_OFFSET, ToBytes(tag, WORD_SIZE))
    {
      StoreBytes(TAG_OFFSET, ToBytes(tag, WORD_SIZE));
    }

    // ---------------------------------------------------------------- fields of a state

    method RestoreFields(fields: seq<Field>)
      requires Valid() && CopiesFrom(fields, plan.layout)
      modifies this`activation
      ensures Valid() && HeapAgrees(plan.layout, heap[..], View(), Elements(fields) + Elements(p.shared))
    {
      hide ViewOf, Slot, StorageFits;
      for i := 0 to |fields|
        invariant Valid()
        invariant forall f | f in fields[..i] :: f in View() && View()[f] == Slot(plan.layout, heap[..], f)
      {
        assert fields[..i + 1] == fields[..i] + [fields[i]];
        RestoreField(fields[i]);
      }
      assert fields[..|fields|] == fields;
      ViewOfLoans(p, plan, heap[..], activation);
    }

    method SaveFields(fields: seq<Field>)
      requires Valid() && CopiesFrom(fields, plan.layout)
      modifies heap
      ensures View() == old(View()) && heap[..FIXED_HEADER_SIZE] == old(heap[..FIXED_HEADER_SIZE])
      ensures HeapAgrees(plan.layout, heap[..], View(), Elements(fields) + Elements(p.shared))
    {
      hide ViewOf, Slot, Splice, StorageFits;
      for i := 0 to |fields|
        invariant View() == old(View()) && heap[..FIXED_HEADER_SIZE] == old(heap[..FIXED_HEADER_SIZE])
        invariant forall f | f in fields[..i] :: f in View() && View()[f] == Slot(plan.layout, heap[..], f)
      {
        assert fields[..i + 1] == fields[..i] + [fields[i]];
        ghost var h := heap[..];
        SaveField(fields[i]);
        FieldSaved(p, plan, h, activation, fields[i]);
      }
      assert fields[..|fields|] == fields;
      ViewOfLoans(p, plan, heap[..], activation);
    }

    // ---------------------------------------------------------------- running

    /// Runs straight-line code.
    method RunInstructions(code: seq<Instruction>) returns (ok: bool)
      requires Valid() && KnownInstructions(p, code)
      modifies this`activation, this`world, heap
      ensures Valid() && Untouched(plan.layout, old(heap[..]), heap[..])
      ensures match Exec(p, s, code, old(View()), old(world))
              case Stuck => !ok
              case Ran(env, w) => ok && View() == env && world == w
    {
      hide ViewOf, ValidFrame, Covers, StorageFits, Untouched, WriteAll;
      ghost var h0 := heap[..];
      NothingTouched(p, plan, h0);
      for i := 0 to |code|
        invariant Valid() && Untouched(plan.layout, h0, heap[..])
        invariant Exec(p, s, code[..i], old(View()), old(world)) == Ran(View(), world)
      {
        ghost var h1 := heap[..];
        assert code[..i + 1][..i] == code[..i];
        assert KnownInstructions(p, code[..i + 1]);
        var arguments := ReadFields(code[i].uses);
        var effect := s.exec(code[i].op, arguments, world);
        if effect.Faults? {
          StuckStaysStuck(p, s, code, old(View()), old(world), i + 1);
          return false;
        }
        WriteFields(code[i].defs, effect.results);
        TouchesCompose(p, plan, h0, h1, heap[..]);
        world := effect.world;
      }
      assert code[..|code|] == code;
      return true;
    }

    /// Polls the child that state `i` awaits, and consumes it when it is completed. A poll that stays
    /// pending saves the state's fields, unless they were just restored.
    method Poll(i: nat, saveOnPending: bool) returns (outcome: Outcome)
      requires Valid() && i < |plan.states|
      requires !saveOnPending ==> SavedAs(i, View())
      modifies this`activation, this`world, heap
      ensures Valid()
      ensures match PollAwaited(p, s, plan.states[i].suspend, old(View()), old(world))
              case Waiting(b, env, interests, w) =>
                b == plan.states[i].suspend && outcome == Blocked(interests) && world == w && SavedAs(i, env)
              case Running(b, env, w) =>
                outcome == Continue(b) && world == w && View() == env
              case Fault => outcome.Broken?
              case _ => false
      ensures SameHeader(old(heap[..]), heap[..])
    {
      hide SameHeader, ViewOf, Untouched, WriteAll, ValidPlan, SavedAs;
      StatesAwait(p, plan, i);
      var b := plan.states[i].suspend;
      var t := p.blocks[b].terminator;
      var handle := ReadField(t.computation);
      var loans := ReadFields(p.shared);
      var polled := s.poll(handle, loans, world);
      match polled {
        case PollCorrupt =>
          BlockFacts(b);
          return Broken;
        case PollPending(shared, interests, w) =>
          StayPending(i, saveOnPending, shared);
          world := w;
          return Blocked(interests);
        case PollDone(shared, w) =>
          ghost var h0 := heap[..];
          WriteFields(p.shared, shared);
          UntouchedHeader(p, plan, h0, heap[..]);
          world := w;
          ghost var h1 := heap[..];
          Consume(b);
          HeadersCompose(h0, h1, heap[..]);
          return Continue(t.resume);
      }
    }

    /// The child wrote its loans and stays pending.
    method StayPending(i: nat, saveOnPending: bool, shared: seq<Bytes>)
      requires Valid() && i < |plan.states|
      requires !saveOnPending ==> SavedAs(i, View())
      modifies this`activation, heap
      ensures Valid() && SavedAs(i, WriteAll(p, old(View()), p.shared, shared))
      ensures SameHeader(old(heap[..]), heap[..])
    {
      hide SameHeader, ViewOf, Untouched, WriteAll, ValidFrame, Slot, HeapAgrees, StorageFits;
      ghost var h0, x, t := heap[..], View(), p.blocks[plan.states[i].suspend].terminator;
      WriteFields(p.shared, shared);
      UntouchedHeader(p, plan, h0, heap[..]);
      if saveOnPending {
        ghost var h1 := heap[..];
        SaveState(i);
        HeadersCompose(h0, h1, heap[..]);
      } else {
        WritesElsewhere(p, x, p.shared, shared);
        ViewOfLoans(p, plan, heap[..], activation);
        SkippedSaveIsCurrent(p, plan, h0, x, heap[..], View(), Needs(t, plan.live) + Elements(p.shared));
      }
    }

    /// The frame holds what state `i` needs of an environment, under the state's tag.
    ghost predicate SavedAs(i: nat, env: Env)
      requires ValidPlan(p, plan) && heap.Length == plan.layout.size && i < |plan.states|
      reads heap
    {
      && TagIn(heap[..]) == 1 + i
      && HeapAgrees(plan.layout, heap[..], env,
                    Needs(p.blocks[plan.states[i].suspend].terminator, plan.live) + Elements(p.shared))
    }

    lemma SavedStateStands(i: nat, c: Config<W>)
      requires Valid() && i < |plan.states| && Proper(p, c)
      requires c.Waiting? && c.block == plan.states[i].suspend && c.world == world && SavedAs(i, c.env)
      ensures Stands(c)
    {
    }

    method SaveState(i: nat)
      requires Valid() && i < |plan.states|
      modifies heap
      ensures View() == old(View()) && SavedAs(i, View())
      ensures SameHeader(old(heap[..]), heap[..])
    {
      hide SameHeader, ViewOf, Covers, ValidFrame, Slot, StorageFits, Splice;
      SaveFields(plan.states[i].fields);
      ghost var h := heap[..];
      WriteTag(1 + i);
      TagStored(plan.layout, h, 1 + i);
      SameHeaderWhole(old(heap[..]), h);
      HeadersCompose(old(heap[..]), h, heap[..]);
      ViewIgnoresCopies(p, plan, h, heap[..], activation);
    }

    /// Moves a completed child's output to the place of the awaited result.
    method Consume(b: nat)
      requires Valid() && b < |p.blocks| && p.blocks[b].terminator.Suspend?
      modifies this`activation, this`world, heap
      ensures Valid()
      ensures var t := p.blocks[b].terminator;
              var taken := s.consume(old(View())[t.computation], ReadAll(old(View()), p.shared), old(world));
              && world == taken.world
              && View() == WriteAll(p, WriteAll(p, old(View()), p.shared, taken.shared), Listed(t.result), [taken.output])
      ensures SameHeader(old(heap[..]), heap[..])
    {
      hide SameHeader, ViewOf, Untouched, WriteAll, ValidPlan;
      ghost var h0 := heap[..];
      SuspendsAreKnown(p, plan, b);
      var t := p.blocks[b].terminator;
      var handle := ReadField(t.computation);
      var loans := ReadFields(p.shared);
      var taken := s.consume(handle, loans, world);
      WriteFields(p.shared, taken.shared);
      ghost var h1 := heap[..];
      WriteFields(Listed(t.result), [taken.output]);
      UntouchedHeader(p, plan, h0, h1);
      UntouchedHeader(p, plan, h1, heap[..]);
      HeadersCompose(h0, h1, heap[..]);
      world := taken.world;
    }

    /// Stores the output and marks the frame completed.
    method Complete(b: nat)
      requires Valid() && b < |p.blocks| && p.blocks[b].terminator.DeferredReturn?
      modifies heap
      ensures Valid()
      ensures Stands(Terminate(p, s, b, old(View()), world))
      ensures SameHeader(old(heap[..]), heap[..])
    {
      hide SameHeader, Covers, Slot, StorageFits, Splice, RawSize;
      ghost var h0, x, l := heap[..], View(), plan.layout;
      var output := p.blocks[b].terminator.output;
      SameHeaderWhole(h0, h0);
      if output.Some? {
        var value := ReadField(output.value);
        OutputStored(l, h0, value);
        StoreBytes(plan.layout.output.value.offset, value);
        SameHeaderWhole(h0, heap[..]);
      }
      ghost var h1 := heap[..];
      WriteTag(1 + |plan.states|);
      TagStored(l, h1, 1 + |plan.states|);
      HeadersCompose(h0, h1, heap[..]);
      ViewOfLoans(p, plan, h0, activation);
    }

    lemma StateExists(b: nat)
      requires Valid() && b < |p.blocks| && p.blocks[b].terminator.Suspend?
      ensures exists i | 0 <= i < |plan.states| :: plan.states[i].suspend == b
    {
      assert HasState(plan, b);
    }

    method FindState(b: nat) returns (i: nat)
      requires Valid() && b < |p.blocks| && p.blocks[b].terminator.Suspend?
      ensures i < |plan.states| && plan.states[i].suspend == b
    {
      hide *;
      StateExists(b);
      i := 0;
      while i < |plan.states| && plan.states[i].suspend != b
        invariant i <= |plan.states| && forall j | 0 <= j < i :: plan.states[j].suspend != b
      {
        i := i + 1;
      }
    }

    /// How a call that ends in a configuration returns to its caller.
    ghost predicate Returned(result: CallResult, c: Config<W>)
      requires Valid() && Proper(p, c)
      reads this, heap
    {
      match c
      case Start(_, _) => false
      case Running(_, _, _) => result.OutOfFuel?
      case Fault => result.Trapped?
      case Waiting(_, _, interests, _) => result == Pending(interests) && Stands(c)
      case Finished(_, _, _) => result.Completed? && Stands(c)
    }

    /// Runs blocks until the function waits, completes or faults.
    method RunBlocks(entry: nat, fuel: nat) returns (result: CallResult)
      requires Valid() && entry < |p.blocks|
      modifies this`activation, this`world, heap
      ensures Valid()
      ensures Returned(result, Go(p, s, Running(entry, old(View()), old(world)), fuel))
      ensures SameHeader(old(heap[..]), heap[..])
    {
      hide Valid, View, Go, Step, SameHeader;
      ghost var c := Running(entry, View(), world);
      ghost var h0 := heap[..];
      var block: nat, left: nat := entry, fuel;
      BlockFacts(block);
      while left > 0
        invariant Valid() && block < |p.blocks| && SameHeader(h0, heap[..])
        invariant WellFormed(p) && Proper(p, c) && Proper(p, Running(block, View(), world))
        invariant Go(p, s, c, fuel) == Go(p, s, Running(block, View(), world), left)
      {
        BlockFacts(block);
        GoOn(p, s, Running(block, View(), world), left);
        ghost var h1 := heap[..];
        var done;
        done, result, block := RunBlock(block, left);
        HeadersCompose(h0, h1, heap[..]);
        if done { return; }
        left := left - 1;
        BlockFacts(block);
      }
      GoEnds(p, s, Running(block, View(), world));
      return OutOfFuel;
    }

    lemma BlockFacts(b: nat)
      requires Valid() && b < |p.blocks|
      ensures WellFormed(p) && Proper(p, Running(b, View(), world))
      ensures SameHeader(heap[..], heap[..])
    {
    }

    /// Runs one block and its terminator.
    method RunBlock(b: nat, ghost fuel: nat) returns (done: bool, result: CallResult, next: nat)
      requires Valid() && b < |p.blocks| && fuel > 0
      modifies this`activation, this`world, heap
      ensures Valid()
      ensures var c := Step(p, s, Running(b, old(View()), old(world)));
              && (done ==> Returned(result, Go(p, s, c, fuel - 1)))
              && (!done ==> next < |p.blocks| && c == Running(next, View(), world))
      ensures SameHeader(old(heap[..]), heap[..])
    {
      hide Go, ViewOf, Exec, Untouched, Covers, ValidFrame, StorageFits, SameHeader, ValidStates, ValidReturns, Terminate,
           Represents;
      ghost var h0, c := heap[..], Step(p, s, Running(b, View(), world));
      if !c.Running? { GoStops(p, s, c, fuel - 1); }
      var ok := RunInstructions(p.blocks[b].instructions);
      UntouchedHeader(p, plan, h0, heap[..]);
      if !ok { return true, Trapped, b; }
      ghost var h1 := heap[..];
      done, result, next := RunTerminator(b);
      HeadersCompose(h0, h1, heap[..]);
    }

    method RunTerminator(b: nat) returns (done: bool, result: CallResult, next: nat)
      requires Valid() && b < |p.blocks|
      modifies this`activation, this`world, heap
      ensures Valid()
      ensures var c := Terminate(p, s, b, old(View()), old(world));
              && (done ==> !c.Running? && Returned(result, c))
              && (!done ==> next < |p.blocks| && c == Running(next, View(), world))
      ensures SameHeader(old(heap[..]), heap[..])
    {
      hide ViewOf, Covers, ValidFrame, StorageFits, SameHeader, ValidStates, ValidReturns, PollAwaited, Represents;
      BlockFacts(b);
      done, result, next := true, Trapped, b;
      match p.blocks[b].terminator
      case Switch(op, uses, targets) =>
        var arguments := ReadFields(uses);
        var k := s.choose(op, arguments);
        if k >= |targets| { return; }
        assert targets[k] in targets;
        return false, Trapped, targets[k];
      case DeferredReturn(_) =>
        Complete(b);
        return true, Completed, b;
      case Suspend(_, _, _) =>
        done, result, next := PollState(b);
    }

    method PollState(b: nat) returns (done: bool, result: CallResult, next: nat)
      requires Valid() && b < |p.blocks| && p.blocks[b].terminator.Suspend?
      modifies this`activation, this`world, heap
      ensures Valid()
      ensures var c := PollAwaited(p, s, b, old(View()), old(world));
              && (done ==> !c.Running? && Returned(result, c))
              && (!done ==> next < |p.blocks| && c == Running(next, View(), world))
      ensures SameHeader(old(heap[..]), heap[..])
    {
      hide ViewOf, ValidPlan, SameHeader, PollAwaited, HeapAgrees;
      BlockFacts(b);
      var i := FindState(b);
      var outcome := Poll(i, true);
      match outcome
      case Broken => return true, Trapped, b;
      case Blocked(interests) =>
        SavedStateStands(i, PollAwaited(p, s, b, old(View()), old(world)));
        return true, Pending(interests), b;
      case Continue(k) => return false, Trapped, k;
    }

    // ---------------------------------------------------------------- the entry

    /// MAIN RESULT. One call of the resume entry, in an activation with arbitrary contents, takes the
    /// frame from one configuration of the plain machine to the next, and returns what that asks for.
    method Resume(registers: map<Field, Bytes>, fuel: nat, ghost c: Config<W>) returns (result: CallResult)
      requires Valid() && Proper(p, c) && Stands(c) && Activated(p, plan, registers)
      modifies this`activation, this`world, heap
      ensures Valid()
      ensures Returned(result, Call(p, s, c, fuel))
      ensures SameHeader(old(heap[..]), heap[..])
    {
      hide ViewOf, Covers, ValidFrame, StorageFits, SameHeader, ValidStates, ValidReturns, Call, Go, Represents;
      TagTells(c);
      activation := registers;
      var tag := FromBytes(heap[TAG_OFFSET..TAG_END]);
      if tag == 0 { result := FirstCall(fuel, c); return; }
      var i := 0;
      while i < |plan.states| && tag != 1 + i
        invariant i <= |plan.states| && !(1 <= tag <= i)
      {
        i := i + 1;
      }
      if i < |plan.states| { result := LaterCall(i, fuel, c); return; }
      if tag != 1 + |plan.states| { return Trapped; }
      CompletedStays(fuel, c);
      return Completed;
    }

    /// The tag word names the configuration.
    lemma TagTells(c: Config<W>)
      requires Valid() && Proper(p, c) && Stands(c)
      ensures heap.Length >= FIXED_HEADER_SIZE && SameHeader(heap[..], heap[..])
      ensures var tag := FromBytes(heap[TAG_OFFSET..TAG_END]);
              && tag == TagIn(heap[..]) <= 1 + |plan.states|
              && (c.Start? <==> tag == 0) && (c.Finished? <==> tag == 1 + |plan.states|)
              && (c.Waiting? ==> plan.states[tag - 1].suspend == c.block)
              && (c.Start? || c.Waiting? || c.Finished?)
    {
      hide Covers, ValidStates, ValidReturns, StorageFits, ViewOf, Needs, Before, Slot, HeapAgrees;
      assert heap[..][..FIXED_HEADER_SIZE][TAG_OFFSET..TAG_END] == heap[TAG_OFFSET..TAG_END];
    }

    lemma CompletedStays(fuel: nat, c: Config<W>)
      requires Valid() && Proper(p, c) && Stands(c) && c.Finished?
      ensures Call(p, s, c, fuel) == c
    {
    }

    /// What is returned depends only on what similar configurations share.
    lemma SimilarReturns(result: CallResult, c: Config<W>, d: Config<W>)
      requires Valid() && Proper(p, c) && Proper(p, d) && Returned(result, c) && Similar(p, plan.live, c, d)
      ensures Returned(result, d)
    {
      if c.Waiting? || c.Finished? {
        SimilarIsRepresented(p, plan, heap[..], world, c, d);
      }
    }

    lemma RestoredAgrees(env: Env, needs: set<Field>, fields: set<Field>)
      requires Valid() && needs <= fields + Elements(p.shared)
      requires HeapAgrees(plan.layout, heap[..], env, needs + Elements(p.shared))
      requires HeapAgrees(plan.layout, heap[..], View(), fields + Elements(p.shared))
      ensures AgreeOn(View(), env, needs + Elements(p.shared))
      ensures HeapAgrees(plan.layout, heap[..], View(), needs + Elements(p.shared))
    {
    }

    lemma StartFacts(c: Config<W>)
      requires Valid() && Proper(p, c) && Stands(c) && c.Start?
      ensures c.world == world && Typed(p, c.env) && Typed(p, View()) && |plan.live| == |p.blocks|
      ensures HeapAgrees(plan.layout, heap[..], c.env,
                         Before(p.entryInstructions, plan.live[p.entry]) + Elements(p.shared))
    {
    }

    /// The first call restores the captured arguments and runs from the entry.
    method FirstCall(fuel: nat, ghost c: Config<W>) returns (result: CallResult)
      requires Valid() && Proper(p, c) && Stands(c) && c.Start?
      modifies this`activation, this`world, heap
      ensures Valid()
      ensures Returned(result, Call(p, s, c, fuel))
      ensures SameHeader(old(heap[..]), heap[..])
    {
      hide ViewOf, Covers, ValidFrame, StorageFits, SameHeader, ValidStates, ValidReturns, Represents, Returned,
           HeapAgrees, Exec, Go, Untouched, AgreeOn, Before;
      StartFacts(c);
      ghost var h0 := heap[..];
      RestoreFields(plan.initial);
      ghost var x, w := View(), world;
      RestoredAgrees(c.env, Before(p.entryInstructions, plan.live[p.entry]), Elements(plan.initial));
      EntriesAgree(p, s, plan, x, c.env, w, fuel);
      var ok := RunInstructions(p.entryInstructions);
      UntouchedHeader(p, plan, h0, heap[..]);
      if !ok {
        GoStops<W>(p, s, Fault, fuel);
        FaultReturns();
        return Trapped;
      }
      ghost var h1 := heap[..];
      ghost var concrete := Running(p.entry, View(), world);
      result := RunBlocks(p.entry, fuel);
      HeadersCompose(h0, h1, heap[..]);
      SimilarReturns(result, Go(p, s, concrete, fuel), Call(p, s, c, fuel));
    }

    lemma FaultReturns()
      requires Valid()
      ensures Returned(Trapped, Fault)
    {
    }

    lemma WaitingFacts(i: nat, c: Config<W>)
      requires Valid() && Proper(p, c) && Stands(c) && c.Waiting? && i < |plan.states|
      requires plan.states[i].suspend == c.block && TagIn(heap[..]) == 1 + i
      ensures |plan.live| == |p.blocks|
      ensures c.world == world && Typed(p, c.env) && Typed(p, View()) && SavedAs(i, c.env)
      ensures CopiesFrom(plan.states[i].fields, plan.layout)
      ensures Needs(p.blocks[c.block].terminator, plan.live) <= Elements(plan.states[i].fields) + Elements(p.shared)
    {
    }

    /// A later call restores what its state saved and polls the awaited child again.
    method LaterCall(i: nat, fuel: nat, ghost c: Config<W>) returns (result: CallResult)
      requires Valid() && Proper(p, c) && Stands(c) && c.Waiting? && i < |plan.states|
      requires plan.states[i].suspend == c.block && TagIn(heap[..]) == 1 + i
      modifies this`activation, this`world, heap
      ensures Valid()
      ensures Returned(result, Call(p, s, c, fuel))
      ensures SameHeader(old(heap[..]), heap[..])
    {
      hide ViewOf, Covers, ValidFrame, StorageFits, SameHeader, ValidStates, ValidReturns, Represents, Returned,
           HeapAgrees, Go, PollAwaited, AgreeOn, Similar;
      WaitingFacts(i, c);
      ghost var h0, b := heap[..], c.block;
      RestoreFields(plan.states[i].fields);
      ghost var x, w := View(), world;
      RestoredAgrees(c.env, Needs(p.blocks[b].terminator, plan.live), Elements(plan.states[i].fields));
      PollsAgree(p, s, plan.live, b, x, c.env, w);
      ghost var concrete := PollAwaited(p, s, b, x, w);
      RunsAgree(p, s, plan.live, plan.after, concrete, Step(p, s, c), fuel);
      var outcome := Poll(i, false);
      match outcome {
        case Broken =>
          GoStops(p, s, concrete, fuel);
          FaultReturns();
          result := Trapped;
        case Blocked(interests) =>
          GoStops(p, s, concrete, fuel);
          SavedStateStands(i, concrete);
          WaitingReturns(concrete);
          result := Pending(interests);
        case Continue(k) =>
          ghost var h1 := heap[..];
          result := RunBlocks(k, fuel);
          HeadersCompose(h0, h1, heap[..]);
      }
      SimilarReturns(result, Go(p, s, concrete, fuel), Call(p, s, c, fuel));
    }

    /// MAIN RESULT. However often the awaited children stay pending, and whatever each call finds in
    /// its registers, the calls together are one run of the plain machine. When they complete or trap,
    /// they leave what one uninterrupted call with blocking awaits leaves.
    method RunCalls(activations: seq<map<Field, Bytes>>, budgets: seq<nat>, ghost c: Config<W>)
      returns (result: CallResult)
      requires Valid() && Proper(p, c) && Stands(c) && !c.Finished?
      requires |activations| == |budgets| > 0
      requires forall i | 0 <= i < |activations| :: Activated(p, plan, activations[i])
      modifies this`activation, this`world, heap
      ensures Valid()
      ensures Returned(result, PlainRun(p, s, c, budgets))
      ensures c.Start? && (result.Completed? || result.Trapped?) ==>
                forall fuel: nat, patience: nat | fuel >= Sum(budgets) && patience >= |budgets| :: ReturnsAtOnce(result, c, fuel, patience)
      ensures SameHeader(old(heap[..]), heap[..])
    {
      hide *;
      ghost var h0, d := heap[..], Tick(s, c);
      PassTime(c);
      result := Resume(activations[0], budgets[0], d);
      d := Call(p, s, d, budgets[0]);
      var i := 1;
      RunStarts(p, s, c, budgets);
      while i < |budgets| && result.Pending?
        invariant 1 <= i <= |budgets| && Valid() && WellFormed(p) && Proper(p, c) && Proper(p, d)
        invariant Returned(result, d) && SameHeader(h0, heap[..])
        invariant PlainRun(p, s, c, budgets) == Continued(p, s, d, budgets[i..])
      {
        ghost var h1 := heap[..];
        ReturnedPending(result, d);
        RunContinues(p, s, d, budgets[i..]);
        PassTime(d);
        result := Resume(activations[i], budgets[i], Tick(s, d));
        HeadersCompose(h0, h1, heap[..]);
        d := Call(p, s, Tick(s, d), budgets[i]);
        assert budgets[i..][1..] == budgets[i + 1..];
        i := i + 1;
      }
      RunEnds(result, d, budgets[i..]);
      if c.Start? && (result.Completed? || result.Trapped?) {
        forall fuel: nat, patience: nat | fuel >= Sum(budgets) && patience >= |budgets| ensures ReturnsAtOnce(result, c, fuel, patience) {
          CallsBlock(result, c, budgets, fuel, patience);
        }
      }
    }

    /// The result is that of one uninterrupted call.
    ghost predicate ReturnsAtOnce(result: CallResult, c: Config<W>, fuel: nat, patience: nat)
      requires Valid()
      reads this, heap
    {
      Proper(p, c) && c.Start? && Proper(p, Tick(s, c)) && Returned(result, BlockingCall(p, s, Tick(s, c), fuel, patience))
    }

    lemma CallsBlock(result: CallResult, c: Config<W>, budgets: seq<nat>, fuel: nat, patience: nat)
      requires Valid() && Proper(p, c) && budgets != [] && Returned(result, PlainRun(p, s, c, budgets))
      requires c.Start? && (result.Completed? || result.Trapped?) && fuel >= Sum(budgets) && patience >= |budgets|
      ensures ReturnsAtOnce(result, c, fuel, patience)
    {
      hide Stands, PlainRun, BlockingCall;
      CallsAreOneBlockingCall(p, s, c, budgets, fuel, patience);
    }

    method PassTime(ghost c: Config<W>)
      requires Valid() && Proper(p, c) && Stands(c) && !c.Finished?
      modifies this`world
      ensures Valid() && WellFormed(p) && Proper(p, Tick(s, c)) && Stands(Tick(s, c))
    {
      world := s.tick(world);
    }

    lemma ReturnedPending(result: CallResult, c: Config<W>)
      requires Valid() && Proper(p, c) && Returned(result, c) && result.Pending?
      ensures Stands(c) && c.Waiting?
    {
    }

    lemma RunEnds(result: CallResult, c: Config<W>, budgets: seq<nat>)
      requires Valid() && Proper(p, c) && Returned(result, c) && (!result.Pending? || budgets == [])
      ensures Continued(p, s, c, budgets) == c
    {
    }

    lemma WaitingReturns(c: Config<W>)
      requires Valid() && Proper(p, c) && c.Waiting? && Stands(c)
      ensures Returned(Pending(c.interests), c)
    {
    }
  }

  /// The entry code and everything behind it run alike in the restored activation.
  lemma EntriesAgree<W>(p: Program, s: Semantics<W>, plan: Plan, x: Env, y: Env, world: W, fuel: nat)
    requires ValidPlan(p, plan) && Typed(p, x) && Typed(p, y)
    requires AgreeOn(x, y, Before(p.entryInstructions, plan.live[p.entry]) + Elements(p.shared))
    ensures var r := Exec(p, s, p.entryInstructions, x, world);
            var d := Call(p, s, Start(y, world), fuel);
            && (r.Stuck? ==> d == Fault)
            && (r.Ran? ==> Similar(p, plan.live, Go(p, s, Running(p.entry, r.env, r.world), fuel), d))
  {
    hide ValidFrame, StorageFits, ValidStates, ValidReturns;
    var live, shared := plan.live[p.entry], Elements(p.shared);
    BeforeGrows(p.entryInstructions, live, shared);
    ExecAgrees(p, s, p.entryInstructions, x, y, world, live + shared);
    var r := Exec(p, s, p.entryInstructions, x, world);
    if r.Ran? {
      RunsAgree(p, s, plan.live, plan.after, Running(p.entry, r.env, r.world), Step(p, s, Start(y, world)), fuel);
    }
  }

  lemma RunStarts<W>(p: Program, s: Semantics<W>, c: Config<W>, budgets: seq<nat>)
    requires WellFormed(p) && Proper(p, c) && budgets != []
    ensures Proper(p, Tick(s, c))
    ensures PlainRun(p, s, c, budgets) == Continued(p, s, Call(p, s, Tick(s, c), budgets[0]), budgets[1..])
  {
  }

  lemma RunContinues<W>(p: Program, s: Semantics<W>, c: Config<W>, budgets: seq<nat>)
    requires WellFormed(p) && Proper(p, c) && c.Waiting? && budgets != []
    ensures Proper(p, Tick(s, c))
    ensures Continued(p, s, c, budgets) == Continued(p, s, Call(p, s, Tick(s, c), budgets[0]), budgets[1..])
  {
  }

  datatype Outcome = Blocked(interests: (nat, nat)) | Continue(block: nat) | Broken

  lemma StatesAwait(p: Program, plan: Plan, i: nat)
    requires ValidPlan(p, plan) && i < |plan.states|
    ensures var b := plan.states[i].suspend;
            b < |p.blocks| && p.blocks[b].terminator.Suspend? && p.blocks[b].terminator.computation in p.sizes && WellFormed(p)
    ensures forall f | f in p.shared :: f in p.sizes
  {
  }

  lemma SuspendsAreKnown(p: Program, plan: Plan, b: nat)
    requires ValidPlan(p, plan) && b < |p.blocks| && p.blocks[b].terminator.Suspend?
    ensures p.blocks[b].terminator.computation in p.sizes && WellFormed(p)
    ensures forall f | f in p.shared || f in Listed(p.blocks[b].terminator.result) :: f in p.sizes
  {
  }

  lemma {:induction false} StuckStaysStuck<W>(p: Program, s: Semantics<W>, code: seq<Instruction>, env: Env, world: W, i: nat)
    requires Typed(p, env) && KnownInstructions(p, code) && i <= |code|
    requires KnownInstructions(p, code[..i]) && Exec(p, s, code[..i], env, world).Stuck?
    ensures Exec(p, s, code, env, world).Stuck?
    decreases |code| - i
  {
    if i < |code| {
      assert code[..i + 1][..i] == code[..i];
      StuckStaysStuck(p, s, code, env, world, i + 1);
    } else {
      assert code[..i] == code;
    }
  }

  lemma HeadersCompose(h0: Bytes, h1: Bytes, h2: Bytes)
    requires SameHeader(h0, h1) && SameHeader(h1, h2)
    ensures SameHeader(h0, h2)
  {
  }

  lemma GoOn<W>(p: Program, s: Semantics<W>, c: Config<W>, fuel: nat)
    requires WellFormed(p) && Proper(p, c) && c.Running? && fuel > 0
    ensures Go(p, s, c, fuel) == Go(p, s, Step(p, s, c), fuel - 1)
  {
  }

  lemma GoEnds<W>(p: Program, s: Semantics<W>, c: Config<W>)
    requires WellFormed(p) && Proper(p, c)
    ensures Go(p, s, c, 0) == c
  {
  }

  lemma GoStops<W>(p: Program, s: Semantics<W>, c: Config<W>, fuel: nat)
    requires WellFormed(p) && Proper(p, c) && !c.Running?
    ensures Go(p, s, c, fuel) == c
  {
  }

  lemma TouchesCompose(p: Program, plan: Plan, h0: Bytes, h1: Bytes, h2: Bytes)
    requires ValidPlan(p, plan) && |h0| == plan.layout.size
    requires Untouched(plan.layout, h0, h1) && Untouched(plan.layout, h1, h2)
    ensures Untouched(plan.layout, h0, h2)
  {
  }
}
