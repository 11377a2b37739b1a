/**
 Deferred functions as programs, with awaits that are plain calls.

 There are two machines. Both keep their whole environment: one returns at every pending poll and is
 called again, the other blocks in its awaits. `AsyncFrame` and `AsyncResume` hold the resume entry,
 which keeps only what a suspension state saves; the lemmas here say why that is enough.
 */
module AsyncProgram {
  import opened Results
  import opened ByteRanges
  import opened ObjectLayout

  /// The value of every body resource.
  type Env = map<Field, Bytes>

  datatype Instruction = Instruction(op: nat, uses: seq<Field>, defs: seq<Field>)

  datatype Terminator =
    | Switch(op: nat, uses: seq<Field>, targets: seq<nat>)
    | Suspend(computation: Field, resume: nat, result: Option<Field>)
    | DeferredReturn(output: Option<Field>)

  datatype Block = Block(instructions: seq<Instruction>, terminator: Terminator)

  /// `shared` are the stack objects that survive a suspension. A child may hold a loan of them.
  datatype Program = Program(
    sizes: map<Field, nat>, shared: seq<Field>,
    entryInstructions: seq<Instruction>, entry: nat, blocks: seq<Block>)

  datatype Effect<W> = Faults | Yields(results: seq<Bytes>, world: W)
  datatype Poll<W> =
    | PollPending(shared: seq<Bytes>, interests: (nat, nat), world: W)
    | PollDone(shared: seq<Bytes>, world: W)
    | PollCorrupt
  datatype Consumed<W> = Consumed(output: Bytes, shared: seq<Bytes>, world: W)

  /// What instructions, branches and awaited children do. `W` is everything outside this function.
  datatype Semantics<!W> = Semantics(
    exec: (nat, seq<Bytes>, W) -> Effect<W>,
    choose: (nat, seq<Bytes>) -> nat,
    poll: (Bytes, seq<Bytes>, W) -> Poll<W>,
    consume: (Bytes, seq<Bytes>, W) -> Consumed<W>,
    tick: W -> W)

  datatype Config<W> =
    | Start(env: Env, world: W)
    | Running(block: nat, env: Env, world: W)
    | Waiting(block: nat, env: Env, interests: (nat, nat), world: W)
    | Finished(output: Bytes, env: Env, world: W)
    | Fault

  // ---------------------------------------------------------------- well-formed programs

  ghost predicate Typed(p: Program, env: Env) {
    env.Keys == p.sizes.Keys && forall f | f in env :: |env[f]| == p.sizes[f]
  }

  ghost predicate KnownInstructions(p: Program, s: seq<Instruction>) {
    forall i | 0 <= i < |s| ::
      (forall f | f in s[i].uses :: f in p.sizes) && (forall f | f in s[i].defs :: f in p.sizes)
  }

  ghost predicate KnownTerminator(p: Program, t: Terminator) {
    match t
    case Switch(_, uses, targets) =>
      (forall f | f in uses :: f in p.sizes) && (forall b | b in targets :: b < |p.blocks|)
    case Suspend(computation, resume, result) =>
      && computation in p.sizes && computation !in p.shared && resume < |p.blocks|
      && (result.Some? ==> result.value in p.sizes)
    case DeferredReturn(output) => output.Some? ==> output.value in p.sizes && output.value !in p.shared
  }

  ghost predicate WellFormed(p: Program) {
    && p.entry < |p.blocks|
    && (forall f | f in p.shared :: f in p.sizes && f.Stack?)
    && KnownInstructions(p, p.entryInstructions)
    && (forall b | 0 <= b < |p.blocks| ::
          KnownInstructions(p, p.blocks[b].instructions) && KnownTerminator(p, p.blocks[b].terminator))
  }

  // ---------------------------------------------------------------- the plain machine

  /// A value in storage of `size` bytes.
  function Fit(b: Bytes, size: nat): (r: Bytes)
    ensures |r| == size
  {
    if size <= |b| then b[..size] else b + seq(size - |b|, _ => 0)
  }

  function ReadAll(env: Env, fields: seq<Field>): seq<Bytes>
    requires forall f | f in fields :: f in env
  {
    seq(|fields|, i requires 0 <= i < |fields| => env[fields[i]])
  }

  function Nth(results: seq<Bytes>, i: nat): Bytes {
    if i < |results| then results[i] else []
  }

  /// Stores results from left to right.
  function WriteAll(p: Program, env: Env, fields: seq<Field>, results: seq<Bytes>): (r: Env)
    requires Typed(p, env) && forall f | f in fields :: f in p.sizes
    ensures Typed(p, r)
    decreases |fields|
  {
    if fields == [] then env
    else
      var last := |fields| - 1;
      var before := WriteAll(p, env, fields[..last], results);
      before[fields[last] := Fit(Nth(results, last), p.sizes[fields[last]])]
  }

  datatype Ran<W> = Stuck | Ran(env: Env, world: W)

  function Exec<W>(p: Program, s: Semantics<W>, code: seq<Instruction>, env: Env, world: W): (r: Ran<W>)
    requires Typed(p, env) && KnownInstructions(p, code)
    ensures r.Ran? ==> Typed(p, r.env)
    decreases |code|
  {
    if code == [] then Ran(env, world)
    else
      var last := code[|code| - 1];
      match Exec(p, s, code[..|code| - 1], env, world)
      case Stuck => Stuck
      case Ran(env1, world1) =>
        match s.exec(last.op, ReadAll(env1, last.uses), world1)
        case Faults => Stuck
        case Yields(results, world2) => Ran(WriteAll(p, env1, last.defs, results), world2)
  }

  /// One poll of the awaited child; a completed child is consumed at once.
  function PollAwaited<W>(p: Program, s: Semantics<W>, b: nat, env: Env, world: W): (c: Config<W>)
    requires WellFormed(p) && Typed(p, env) && b < |p.blocks| && p.blocks[b].terminator.Suspend?
    ensures Proper(p, c)
  {
    var t := p.blocks[b].terminator;
    match s.poll(env[t.computation], ReadAll(env, p.shared), world)
    case PollCorrupt => Fault
    case PollPending(shared, interests, world1) => Waiting(b, WriteAll(p, env, p.shared, shared), interests, world1)
    case PollDone(shared, world1) =>
      var env1 := WriteAll(p, env, p.shared, shared);
      var taken := s.consume(env1[t.computation], ReadAll(env1, p.shared), world1);
      var env2 := WriteAll(p, env1, p.shared, taken.shared);
      Running(t.resume, WriteAll(p, env2, Listed(t.result), [taken.output]), taken.world)
  }

  function Listed(f: Option<Field>): seq<Field> {
    if f.Some? then [f.value] else []
  }

  function Terminate<W>(p: Program, s: Semantics<W>, b: nat, env: Env, world: W): (c: Config<W>)
    requires WellFormed(p) && Typed(p, env) && b < |p.blocks|
    ensures Proper(p, c)
  {
    match p.blocks[b].terminator
    case Switch(op, uses, targets) =>
      var k := s.choose(op, ReadAll(env, uses));
      if k < |targets| then
        assert targets[k] in targets;
        Running(targets[k], env, world)
      else Fault
    case DeferredReturn(output) => Finished(if output.Some? then env[output.value] else [], env, world)
    case Suspend(_, _, _) => PollAwaited(p, s, b, env, world)
  }

  ghost predicate Proper<W>(p: Program, c: Config<W>) {
    match c
    case Fault => true
    case Start(env, _) => Typed(p, env)
    case Finished(_, env, _) => Typed(p, env)
    case Running(b, env, _) => Typed(p, env) && b < |p.blocks|
    case Waiting(b, env, _, _) => Typed(p, env) && b < |p.blocks| && p.blocks[b].terminator.Suspend?
  }

  function Step<W>(p: Program, s: Semantics<W>, c: Config<W>): (d: Config<W>)
    requires WellFormed(p) && Proper(p, c)
    ensures Proper(p, d)
  {
    match c
    case Fault => Fault
    case Finished(_, _, _) => c
    case Start(env, world) =>
      (match Exec(p, s, p.entryInstructions, env, world)
       case Stuck => Fault
       case Ran(env1, world1) => Running(p.entry, env1, world1))
    case Running(b, env, world) =>
      (match Exec(p, s, p.blocks[b].instructions, env, world)
       case Stuck => Fault
       case Ran(env1, world1) => Terminate(p, s, b, env1, world1))
    case Waiting(b, env, _, world) => PollAwaited(p, s, b, env, world)
  }

  /// Runs on until the function waits, finishes or faults, for at most `fuel` blocks.
  function Go<W>(p: Program, s: Semantics<W>, c: Config<W>, fuel: nat): (d: Config<W>)
    requires WellFormed(p) && Proper(p, c)
    ensures Proper(p, d)
    ensures !d.Running? || fuel == 0 || c.Running?
    decreases fuel
  {
    if !c.Running? || fuel == 0 then c else Go(p, s, Step(p, s, c), fuel - 1)
  }

  /// What one call of the resume entry amounts to.
  function Call<W>(p: Program, s: Semantics<W>, c: Config<W>, fuel: nat): (d: Config<W>)
    requires WellFormed(p) && Proper(p, c)
    ensures Proper(p, d)
  {
    Go(p, s, Step(p, s, c), fuel)
  }

  /// Time passes between two calls.
  function Tick<W>(s: Semantics<W>, c: Config<W>): Config<W> {
    match c
    case Start(env, world) => Start(env, s.tick(world))
    case Waiting(b, env, interests, world) => Waiting(b, env, interests, s.tick(world))
    case _ => c
  }

  lemma PollChangesOnlyResultAndLoans<W>(p: Program, s: Semantics<W>, b: nat, env: Env, world: W)
    requires WellFormed(p) && Typed(p, env) && b < |p.blocks| && p.blocks[b].terminator.Suspend?
    ensures ChangesOnlyResultAndLoans(p, b, env, PollAwaited(p, s, b, env, world))
  {
    var t := p.blocks[b].terminator;
    match s.poll(env[t.computation], ReadAll(env, p.shared), world) {
      case PollCorrupt =>
      case PollPending(shared, _, _) => WritesElsewhere(p, env, p.shared, shared);
      case PollDone(shared, world1) =>
        WritesElsewhere(p, env, p.shared, shared);
        var env1 := WriteAll(p, env, p.shared, shared);
        var taken := s.consume(env1[t.computation], ReadAll(env1, p.shared), world1);
        WritesElsewhere(p, env1, p.shared, taken.shared);
        WritesElsewhere(p, WriteAll(p, env1, p.shared, taken.shared), Listed(t.result), [taken.output]);
    }
  }

  ghost predicate ChangesOnlyResultAndLoans<W>(p: Program, b: nat, env: Env, c: Config<W>)
    requires Typed(p, env) && b < |p.blocks| && p.blocks[b].terminator.Suspend? && Proper(p, c)
  {
    var t := p.blocks[b].terminator;
    match c
    case Waiting(b1, env1, _, _) => b1 == b && forall f | f in env && f !in p.shared :: env1[f] == env[f]
    case Running(b1, env1, _) =>
      b1 == t.resume && forall f | f in env && f !in p.shared && f !in Listed(t.result) :: env1[f] == env[f]
    case _ => c.Fault?
  }

  lemma {:induction false} WritesElsewhere(p: Program, env: Env, fields: seq<Field>, results: seq<Bytes>)
    requires Typed(p, env) && forall f | f in fields :: f in p.sizes
    ensures forall f | f in env && f !in fields :: WriteAll(p, env, fields, results)[f] == env[f]
    decreases |fields|
  {
    if fields != [] { WritesElsewhere(p, env, fields[..|fields| - 1], results); }
  }

  // ---------------------------------------------------------------- what is stored where

  predicate AllDifferent(fields: seq<Field>) {
    forall i, j | 0 <= i < j < |fields| :: fields[i] != fields[j]
  }

  /// `value` is `b`, cut or padded with zeros at its end.
  predicate HoldsBytes(value: Bytes, b: Bytes) {
    forall k | 0 <= k < |value| :: value[k] == if k < |b| then b[k] else 0
  }

  /// Each field holds the result at its own position.
  predicate StoredInOrder(env: Env, fields: seq<Field>, results: seq<Bytes>) {
    forall i | 0 <= i < |fields| :: fields[i] in env && HoldsBytes(env[fields[i]], if i < |results| then results[i] else [])
  }

  /// The values of the fields, in order.
  predicate ValuesOf(env: Env, fields: seq<Field>, values: seq<Bytes>) {
    |values| == |fields| && forall i | 0 <= i < |fields| :: fields[i] in env && values[i] == env[fields[i]]
  }

  lemma FittedHolds(b: Bytes, size: nat)
    ensures HoldsBytes(Fit(b, size), b)
  {
  }

  lemma {:induction false} WritesInOrder(p: Program, env: Env, fields: seq<Field>, results: seq<Bytes>)
    requires Typed(p, env) && (forall f | f in fields :: f in p.sizes) && AllDifferent(fields)
    ensures StoredInOrder(WriteAll(p, env, fields, results), fields, results)
    decreases |fields|
  {
    if fields != [] {
      var last := |fields| - 1;
      WritesInOrder(p, env, fields[..last], results);
      FittedHolds(Nth(results, last), p.sizes[fields[last]]);
      var before, after := WriteAll(p, env, fields[..last], results), WriteAll(p, env, fields, results);
      hide HoldsBytes, Fit;
      forall i | 0 <= i < |fields| ensures fields[i] in after && HoldsBytes(after[fields[i]], if i < |results| then results[i] else []) {
        if i < last {
          assert fields[..last][i] == fields[i] && after[fields[i]] == before[fields[i]];
        }
      }
    }
  }

  lemma {:induction false} SameValuesChangeNothing(p: Program, env: Env, fields: seq<Field>, results: seq<Bytes>)
    requires Typed(p, env) && |fields| <= |results| && ValuesOf(env, fields, results[..|fields|])
    ensures WriteAll(p, env, fields, results) == env
    decreases |fields|
  {
    if fields != [] {
      var last := |fields| - 1;
      assert results[..|fields|][last] == results[last];
      assert forall i | 0 <= i < last :: results[..|fields|][i] == results[..last][i] && fields[..last][i] == fields[i];
      SameValuesChangeNothing(p, env, fields[..last], results);
      var f := fields[last];
      assert Fit(env[f], p.sizes[f]) == env[f];
      assert env[f := env[f]] == env;
    }
  }

  lemma ReadsInOrder(env: Env, fields: seq<Field>, values: seq<Bytes>)
    requires ValuesOf(env, fields, values)
    ensures (forall f | f in fields :: f in env) && values == ReadAll(env, fields)
  {
  }

  /// An instruction is given its operands in order, its results are stored in order, and nothing else
  /// changes.
  lemma InstructionStoresItsResults<W>(p: Program, s: Semantics<W>, i: Instruction, env: Env, world: W, arguments: seq<Bytes>)
    requires Typed(p, env) && KnownInstructions(p, [i]) && AllDifferent(i.defs) && ValuesOf(env, i.uses, arguments)
    ensures match s.exec(i.op, arguments, world)
            case Faults => Exec(p, s, [i], env, world).Stuck?
            case Yields(results, world1) =>
              var r := Exec(p, s, [i], env, world);
              && r.Ran? && r.world == world1 && StoredInOrder(r.env, i.defs, results)
              && forall f | f in env && f !in i.defs :: r.env[f] == env[f]
  {
    assert [i][0] == i && [i][..0] == [];
    ReadsInOrder(env, i.uses, arguments);
    var effect := s.exec(i.op, arguments, world);
    if effect.Yields? {
      WritesInOrder(p, env, i.defs, effect.results);
      WritesElsewhere(p, env, i.defs, effect.results);
    }
    hide WriteAll, StoredInOrder;
  }

  /// Instructions run from the first to the last.
  lemma {:induction false} CodeRunsInOrder<W>(p: Program, s: Semantics<W>, first: seq<Instruction>, rest: seq<Instruction>, env: Env, world: W)
    requires Typed(p, env) && KnownInstructions(p, first) && KnownInstructions(p, rest)
    ensures KnownInstructions(p, first + rest)
    ensures Exec(p, s, first + rest, env, world)
            == match Exec(p, s, first, env, world)
               case Stuck => Stuck
               case Ran(env1, world1) => Exec(p, s, rest, env1, world1)
    decreases |rest|
  {
    hide Typed, WriteAll;
    PartsAreKnown(p, first, rest);
    if rest == [] {
      assert first + rest == first;
    } else {
      var last := |rest| - 1;
      assert (first + rest)[..|first + rest| - 1] == first + rest[..last] && (first + rest)[|first + rest| - 1] == rest[last];
      CodeRunsInOrder(p, s, first, rest[..last], env, world);
    }
  }

  lemma PartsAreKnown(p: Program, first: seq<Instruction>, rest: seq<Instruction>)
    requires KnownInstructions(p, first) && KnownInstructions(p, rest)
    ensures KnownInstructions(p, first + rest) && (rest != [] ==> KnownInstructions(p, rest[..|rest| - 1]))
  {
  }

  /// A child that is pending and gives its loans back as they were leaves everything as it was.
  lemma UnchangedLoansChangeNothing<W>(p: Program, s: Semantics<W>, b: nat, env: Env, world: W,
                                       loans: seq<Bytes>, interests: (nat, nat), later: W)
    requires WellFormed(p) && Typed(p, env) && b < |p.blocks| && p.blocks[b].terminator.Suspend?
    requires ValuesOf(env, p.shared, loans)
    requires s.poll(env[p.blocks[b].terminator.computation], loans, world) == PollPending(loans, interests, later)
    ensures PollAwaited(p, s, b, env, world) == Waiting(b, env, interests, later)
  {
    ReadsInOrder(env, p.shared, loans);
    assert loans[..|p.shared|] == loans;
    SameValuesChangeNothing(p, env, p.shared, loans);
  }

  /// A pending child's loans come back each to its own object.
  lemma PendingLoansComeBack<W>(p: Program, s: Semantics<W>, b: nat, env: Env, world: W, loans: seq<Bytes>)
    requires WellFormed(p) && Typed(p, env) && b < |p.blocks| && p.blocks[b].terminator.Suspend?
    requires AllDifferent(p.shared) && ValuesOf(env, p.shared, loans)
    requires s.poll(env[p.blocks[b].terminator.computation], loans, world).PollPending?
    ensures var c := PollAwaited(p, s, b, env, world);
            && c.Waiting? && c.block == b
            && StoredInOrder(c.env, p.shared, s.poll(env[p.blocks[b].terminator.computation], loans, world).shared)
            && forall f | f in env && f !in p.shared :: c.env[f] == env[f]
  {
    ReadsInOrder(env, p.shared, loans);
    var shared := s.poll(env[p.blocks[b].terminator.computation], loans, world).shared;
    WritesInOrder(p, env, p.shared, shared);
    WritesElsewhere(p, env, p.shared, shared);
    hide WriteAll, StoredInOrder;
  }

  /// The loans as the poll of a completed child left them.
  predicate LeftBehind(p: Program, shared: seq<Bytes>, loans: seq<Bytes>)
    requires forall f | f in p.shared :: f in p.sizes
  {
    && |loans| == |p.shared|
    && forall i | 0 <= i < |loans| :: |loans[i]| == p.sizes[p.shared[i]] && HoldsBytes(loans[i], if i < |shared| then shared[i] else [])
  }

  /// A completed child is consumed with its loans as it left them. Its output arrives in the awaited
  /// result, the loans come back each to its own object, and nothing else changes.
  lemma AwaitedOutputArrives<W>(p: Program, s: Semantics<W>, b: nat, env: Env, world: W, before: seq<Bytes>, loans: seq<Bytes>)
    requires WellFormed(p) && Typed(p, env) && b < |p.blocks| && p.blocks[b].terminator.Suspend?
    requires AllDifferent(p.shared) && ValuesOf(env, p.shared, before)
    requires var polled := s.poll(env[p.blocks[b].terminator.computation], before, world);
             polled.PollDone? && LeftBehind(p, polled.shared, loans)
    ensures var t := p.blocks[b].terminator;
            var taken := s.consume(env[t.computation], loans, s.poll(env[t.computation], before, world).world);
            var c := PollAwaited(p, s, b, env, world);
            && c.Running? && c.block == t.resume && c.world == taken.world
            && (t.result.Some? ==> HoldsBytes(c.env[t.result.value], taken.output))
            && ((t.result.Some? ==> t.result.value !in p.shared) ==> StoredInOrder(c.env, p.shared, taken.shared))
            && forall f | f in env && f !in p.shared && f !in Listed(t.result) :: c.env[f] == env[f]
  {
    var t := p.blocks[b].terminator;
    ReadsInOrder(env, p.shared, before);
    var polled := s.poll(env[t.computation], before, world);
    WritesInOrder(p, env, p.shared, polled.shared);
    WritesElsewhere(p, env, p.shared, polled.shared);
    var env1 := WriteAll(p, env, p.shared, polled.shared);
    LoansAreLeft(p, env1, polled.shared, loans);
    hide WriteAll, StoredInOrder, HoldsBytes;
    var taken := s.consume(env[t.computation], loans, polled.world);
    WritesInOrder(p, env1, p.shared, taken.shared);
    WritesElsewhere(p, env1, p.shared, taken.shared);
    ResultIsStored(p, WriteAll(p, env1, p.shared, taken.shared), t.result, taken.output, taken.shared);
  }

  lemma LoansAreLeft(p: Program, env: Env, shared: seq<Bytes>, loans: seq<Bytes>)
    requires WellFormed(p) && Typed(p, env) && StoredInOrder(env, p.shared, shared) && LeftBehind(p, shared, loans)
    ensures (forall f | f in p.shared :: f in env) && loans == ReadAll(env, p.shared)
  {
    forall i | 0 <= i < |loans| ensures loans[i] == env[p.shared[i]] {
      assert p.shared[i] in p.shared;
      var b := if i < |shared| then shared[i] else [];
      assert HoldsBytes(env[p.shared[i]], b) && HoldsBytes(loans[i], b);
    }
  }

  lemma ResultIsStored(p: Program, env: Env, result: Option<Field>, output: Bytes, shared: seq<Bytes>)
    requires WellFormed(p) && Typed(p, env) && (result.Some? ==> result.value in p.sizes) && StoredInOrder(env, p.shared, shared)
    ensures var after := WriteAll(p, env, Listed(result), [output]);
            && (result.Some? ==> HoldsBytes(after[result.value], output))
            && ((result.Some? ==> result.value !in p.shared) ==> StoredInOrder(after, p.shared, shared))
            && forall f | f in env && f !in Listed(result) :: after[f] == env[f]
  {
    WritesInOrder(p, env, Listed(result), [output]);
    WritesElsewhere(p, env, Listed(result), [output]);
    hide WriteAll, HoldsBytes;
    if result.Some? {
      assert Listed(result)[0] == result.value;
    }
  }

  /// A branch goes to the target that the operands choose; a return gives the value of its field.
  lemma BlocksEndAsWritten<W>(p: Program, s: Semantics<W>, b: nat, env: Env, world: W, arguments: seq<Bytes>)
    requires WellFormed(p) && Typed(p, env) && b < |p.blocks| && !p.blocks[b].terminator.Suspend?
    requires p.blocks[b].terminator.Switch? ==> ValuesOf(env, p.blocks[b].terminator.uses, arguments)
    ensures match p.blocks[b].terminator
            case Switch(op, uses, targets) =>
              var k := s.choose(op, arguments);
              Terminate(p, s, b, env, world) == if k < |targets| then Running(targets[k], env, world) else Fault
            case DeferredReturn(Some(f)) => f in env && Terminate(p, s, b, env, world) == Finished(env[f], env, world)
            case DeferredReturn(None) => Terminate(p, s, b, env, world) == Finished([], env, world)
            case _ => true
  {
    if p.blocks[b].terminator.Switch? {
      ReadsInOrder(env, p.blocks[b].terminator.uses, arguments);
    }
  }

  // ---------------------------------------------------------------- awaits that are plain calls

  /// An await as one call: it polls, lets time pass while the child is pending, and consumes it when it
  /// is done. It stays waiting only when `patience` pending polls were not enough.
  function Await<W>(p: Program, s: Semantics<W>, b: nat, env: Env, world: W, patience: nat): (c: Config<W>)
    requires WellFormed(p) && Typed(p, env) && b < |p.blocks| && p.blocks[b].terminator.Suspend?
    ensures Proper(p, c)
    decreases patience
  {
    var c := PollAwaited(p, s, b, env, world);
    if c.Waiting? && patience > 0 then
      PendingStays(p, s, b, env, world);
      Await(p, s, b, c.env, s.tick(c.world), patience - 1)
    else c
  }

  lemma PendingStays<W>(p: Program, s: Semantics<W>, b: nat, env: Env, world: W)
    requires WellFormed(p) && Typed(p, env) && b < |p.blocks| && p.blocks[b].terminator.Suspend?
    ensures var c := PollAwaited(p, s, b, env, world); c.Waiting? ==> c.block == b && Typed(p, c.env)
  {
  }

  /// More patience changes nothing once an await ends.
  lemma {:induction false} AwaitEndsOnce<W>(p: Program, s: Semantics<W>, b: nat, env: Env, world: W, patience: nat, more: nat)
    requires WellFormed(p) && Typed(p, env) && b < |p.blocks| && p.blocks[b].terminator.Suspend?
    requires !Await(p, s, b, env, world, patience).Waiting? && patience <= more
    ensures Await(p, s, b, env, world, more) == Await(p, s, b, env, world, patience)
    decreases patience
  {
    hide WellFormed, Typed, PollAwaited;
    var c := PollAwaited(p, s, b, env, world);
    PendingStays(p, s, b, env, world);
    if c.Waiting? && patience > 0 {
      AwaitEndsOnce(p, s, b, c.env, s.tick(c.world), patience - 1, more - 1);
    }
  }

  /// However many polls stay pending, an await changes the caller's own resources only where the result
  /// is stored, and the loaned objects only where the child wrote them.
  lemma {:induction false} AwaitChangesOnlyResultAndLoans<W>(p: Program, s: Semantics<W>, b: nat, env: Env, world: W, patience: nat)
    requires WellFormed(p) && Typed(p, env) && b < |p.blocks| && p.blocks[b].terminator.Suspend?
    ensures ChangesOnlyResultAndLoans(p, b, env, Await(p, s, b, env, world, patience))
    decreases patience
  {
    hide PollAwaited;
    PollChangesOnlyResultAndLoans(p, s, b, env, world);
    var c := PollAwaited(p, s, b, env, world);
    if c.Waiting? && patience > 0 {
      AwaitChangesOnlyResultAndLoans(p, s, b, c.env, s.tick(c.world), patience - 1);
    }
  }

  /// One block, with an await at its end as one call.
  function BlockingStep<W>(p: Program, s: Semantics<W>, c: Config<W>, patience: nat): (d: Config<W>)
    requires WellFormed(p) && Proper(p, c)
    ensures Proper(p, d)
  {
    if c.Running? && p.blocks[c.block].terminator.Suspend? then
      match Exec(p, s, p.blocks[c.block].instructions, c.env, c.world)
      case Stuck => Fault
      case Ran(env, world) => Await(p, s, c.block, env, world, patience)
    else Step(p, s, c)
  }

  function BlockingGo<W>(p: Program, s: Semantics<W>, c: Config<W>, fuel: nat, patience: nat): (d: Config<W>)
    requires WellFormed(p) && Proper(p, c)
    ensures Proper(p, d)
    decreases fuel
  {
    if !c.Running? || fuel == 0 then c else BlockingGo(p, s, BlockingStep(p, s, c, patience), fuel - 1, patience)
  }

  /// The function as one uninterrupted call.
  function BlockingCall<W>(p: Program, s: Semantics<W>, c: Config<W>, fuel: nat, patience: nat): (d: Config<W>)
    requires WellFormed(p) && Proper(p, c)
    ensures Proper(p, d)
  {
    BlockingGo(p, s, BlockingStep(p, s, c, patience), fuel, patience)
  }

  // ---------------------------------------------------------------- calls that return while waiting

  /// The machine that returns at every pending poll, called again after every wait.
  function Continued<W>(p: Program, s: Semantics<W>, c: Config<W>, budgets: seq<nat>): (d: Config<W>)
    requires WellFormed(p) && Proper(p, c)
    ensures Proper(p, d)
    decreases |budgets|
  {
    if budgets == [] || !c.Waiting? then c
    else Continued(p, s, Call(p, s, Tick(s, c), budgets[0]), budgets[1..])
  }

  function PlainRun<W>(p: Program, s: Semantics<W>, c: Config<W>, budgets: seq<nat>): (d: Config<W>)
    requires WellFormed(p) && Proper(p, c) && budgets != []
    ensures Proper(p, d)
  {
    Continued(p, s, Call(p, s, Tick(s, c), budgets[0]), budgets[1..])
  }

  function Sum(budgets: seq<nat>): nat {
    if budgets == [] then 0 else budgets[0] + Sum(budgets[1..])
  }

  predicate Ends<W>(c: Config<W>) {
    c.Finished? || c.Fault?
  }

  /// A block that runs on, with the calls that follow.
  lemma {:induction false} BlocksEndAlike<W>(p: Program, s: Semantics<W>, c: Config<W>, k: nat, budgets: seq<nat>, fuel: nat, patience: nat)
    requires WellFormed(p) && Proper(p, c) && !c.Waiting? && Ends(Continued(p, s, Go(p, s, c, k), budgets))
    requires fuel >= k + Sum(budgets) && patience >= |budgets|
    ensures BlockingGo(p, s, c, fuel, patience) == Continued(p, s, Go(p, s, c, k), budgets)
    decreases |budgets|, k, 0
  {
    hide WellFormed, Exec, PollAwaited, Await, Proper;
    if c.Running? && k > 0 {
      KnownBlocks(p, c);
      var next := Step(p, s, c);
      if p.blocks[c.block].terminator.Suspend? {
        var r := Exec(p, s, p.blocks[c.block].instructions, c.env, c.world);
        if r.Ran? {
          AwaitsEndAlike(p, s, c.block, r.env, r.world, k - 1, budgets, fuel - 1, patience, patience);
        }
      } else {
        OthersNeverWait(p, s, c);
        BlocksEndAlike(p, s, next, k - 1, budgets, fuel - 1, patience);
      }
    }
  }

  lemma OthersNeverWait<W>(p: Program, s: Semantics<W>, c: Config<W>)
    requires WellFormed(p) && Proper(p, c) && c.Running? && !p.blocks[c.block].terminator.Suspend?
    ensures !Step(p, s, c).Waiting? && Proper(p, Step(p, s, c))
  {
  }

  /// An await polled in one call is the await polled over several calls.
  lemma {:induction false} AwaitsEndAlike<W>(p: Program, s: Semantics<W>, b: nat, env: Env, world: W, k: nat, budgets: seq<nat>,
                                             fuel: nat, patience: nat, left: nat)
    requires WellFormed(p) && Typed(p, env) && b < |p.blocks| && p.blocks[b].terminator.Suspend?
    requires Ends(Continued(p, s, Go(p, s, PollAwaited(p, s, b, env, world), k), budgets))
    requires fuel >= k + Sum(budgets) && patience >= |budgets| && left >= |budgets|
    ensures BlockingGo(p, s, Await(p, s, b, env, world, left), fuel, patience)
            == Continued(p, s, Go(p, s, PollAwaited(p, s, b, env, world), k), budgets)
    decreases |budgets|, k, 1
  {
    hide WellFormed, Exec, PollAwaited, Typed, BlockingGo;
    var c := PollAwaited(p, s, b, env, world);
    PendingStays(p, s, b, env, world);
    if c.Waiting? {
      assert budgets != [];
      AwaitsEndAlike(p, s, b, c.env, s.tick(c.world), budgets[0], budgets[1..], fuel, patience, left - 1);
    } else {
      BlocksEndAlike(p, s, c, k, budgets, fuel, patience);
    }
  }

  /// MAIN RESULT. When the calls together finish or fault, so does the function as one uninterrupted
  /// call: with the same output, environment and world, however many polls stayed pending.
  lemma CallsAreOneBlockingCall<W>(p: Program, s: Semantics<W>, c: Config<W>, budgets: seq<nat>, fuel: nat, patience: nat)
    requires WellFormed(p) && Proper(p, c) && c.Start? && budgets != [] && Ends(PlainRun(p, s, c, budgets))
    requires fuel >= Sum(budgets) && patience >= |budgets|
    ensures Proper(p, Tick(s, c)) && BlockingCall(p, s, Tick(s, c), fuel, patience) == PlainRun(p, s, c, budgets)
  {
    hide WellFormed, Exec;
    BlocksEndAlike(p, s, Step(p, s, Tick(s, c)), budgets[0], budgets[1..], fuel, patience);
  }

  // ---------------------------------------------------------------- liveness

  function Elements(s: seq<Field>): set<Field> {
    set f | f in s
  }

  /// What must be available before a code sequence so that `after` is available behind it.
  function Before(code: seq<Instruction>, after: set<Field>): set<Field>
    decreases |code|
  {
    if code == [] then after
    else
      var last := code[|code| - 1];
      Before(code[..|code| - 1], (after - Elements(last.defs)) + Elements(last.uses))
  }

  /// What a suspension needs again when its child completes.
  function Needs(t: Terminator, live: seq<set<Field>>): set<Field>
    requires t.Suspend? && t.resume < |live|
  {
    {t.computation} + (live[t.resume] - Elements(Listed(t.result)))
  }

  ghost predicate CoversTerminator(p: Program, live: seq<set<Field>>, t: Terminator, after: set<Field>)
    requires |live| == |p.blocks| && KnownTerminator(p, t)
  {
    match t
    case Switch(_, uses, targets) =>
      Elements(uses) <= after && forall b | b in targets :: live[b] <= after
    case Suspend(_, _, _) => Needs(t, live) <= after
    case DeferredReturn(output) => Elements(Listed(output)) <= after
  }

  /// `live` and `after` solve the backward liveness equations: `after[b]` is what is available behind
  /// the instructions of block `b`.
  ghost predicate Covers(p: Program, live: seq<set<Field>>, after: seq<set<Field>>)
    requires WellFormed(p)
  {
    && |live| == |after| == |p.blocks|
    && forall b | 0 <= b < |p.blocks| ::
         && Before(p.blocks[b].instructions, after[b]) <= live[b]
         && CoversTerminator(p, live, p.blocks[b].terminator, after[b])
  }

  ghost predicate AgreeOn(x: Env, y: Env, fields: set<Field>) {
    forall f | f in fields :: f in x && f in y && x[f] == y[f]
  }

  /// The live resources and the loaned objects are the same.
  ghost predicate Similar<W>(p: Program, live: seq<set<Field>>, c: Config<W>, d: Config<W>)
    requires WellFormed(p) && Proper(p, c) && |live| == |p.blocks|
  {
    match c
    case Fault => d.Fault?
    case Start(env, world) => false
    case Finished(output, env, world) =>
      d.Finished? && d.output == output && d.world == world && AgreeOn(env, d.env, Elements(p.shared))
    case Running(b, env, world) =>
      d.Running? && d.block == b && d.world == world && AgreeOn(env, d.env, live[b] + Elements(p.shared))
    case Waiting(b, env, interests, world) =>
      && d.Waiting? && d.block == b && d.world == world && d.interests == interests
      && AgreeOn(env, d.env, Needs(p.blocks[b].terminator, live) + Elements(p.shared))
  }

  lemma {:induction false} WritesAgree(p: Program, x: Env, y: Env, fields: seq<Field>, results: seq<Bytes>, on: set<Field>)
    requires Typed(p, x) && Typed(p, y) && (forall f | f in fields :: f in p.sizes)
    requires AgreeOn(x, y, on - Elements(fields)) && on <= p.sizes.Keys
    ensures AgreeOn(WriteAll(p, x, fields, results), WriteAll(p, y, fields, results), on)
    decreases |fields|
  {
    if fields != [] {
      var f := fields[|fields| - 1];
      assert on - {f} - Elements(fields[..|fields| - 1]) <= on - Elements(fields);
      WritesAgree(p, x, y, fields[..|fields| - 1], results, on - {f});
    }
  }

  lemma ReadsAgree(x: Env, y: Env, fields: seq<Field>, on: set<Field>)
    requires AgreeOn(x, y, on) && Elements(fields) <= on
    ensures (forall f | f in fields :: f in x && f in y) && ReadAll(x, fields) == ReadAll(y, fields)
  {
    forall f | f in fields ensures f in x && f in y && x[f] == y[f] {
      assert f in Elements(fields);
    }
  }

  /// Running code from environments that agree on what is needed gives environments that agree on
  /// what is wanted.
  lemma {:induction false} ExecAgrees<W>(p: Program, s: Semantics<W>, code: seq<Instruction>, x: Env, y: Env, world: W,
                                         after: set<Field>)
    requires Typed(p, x) && Typed(p, y) && KnownInstructions(p, code)
    requires after <= p.sizes.Keys && AgreeOn(x, y, Before(code, after))
    ensures match Exec(p, s, code, x, world)
            case Stuck => Exec(p, s, code, y, world).Stuck?
            case Ran(x1, world1) =>
              var r := Exec(p, s, code, y, world);
              r.Ran? && r.world == world1 && AgreeOn(x1, r.env, after)
    decreases |code|
  {
    if code != [] {
      var last := code[|code| - 1];
      var middle := (after - Elements(last.defs)) + Elements(last.uses);
      ExecAgrees(p, s, code[..|code| - 1], x, y, world, middle);
      var r := Exec(p, s, code[..|code| - 1], x, world);
      if r.Ran? {
        var q := Exec(p, s, code[..|code| - 1], y, world);
        ReadsAgree(r.env, q.env, last.uses, middle);
        var effect := s.exec(last.op, ReadAll(r.env, last.uses), r.world);
        if effect.Yields? {
          WritesAgree(p, r.env, q.env, last.defs, effect.results, after);
        }
      }
    }
  }

  /// A child sees the same handle and loans, so it does the same.
  lemma PollsAgree<W>(p: Program, s: Semantics<W>, live: seq<set<Field>>, b: nat, x: Env, y: Env, world: W)
    requires WellFormed(p) && Typed(p, x) && Typed(p, y) && |live| == |p.blocks|
    requires b < |p.blocks| && p.blocks[b].terminator.Suspend?
    requires forall i | 0 <= i < |live| :: live[i] <= p.sizes.Keys
    requires AgreeOn(x, y, Needs(p.blocks[b].terminator, live) + Elements(p.shared))
    ensures Similar(p, live, PollAwaited(p, s, b, x, world), PollAwaited(p, s, b, y, world))
  {
    var t := p.blocks[b].terminator;
    var shared := Elements(p.shared);
    var on := Needs(t, live) + shared;
    ReadsAgree(x, y, p.shared, on);
    var polled := s.poll(x[t.computation], ReadAll(x, p.shared), world);
    if polled.PollPending? {
      WritesAgree(p, x, y, p.shared, polled.shared, on);
    } else if polled.PollDone? {
      WritesAgree(p, x, y, p.shared, polled.shared, on);
      var x1, y1 := WriteAll(p, x, p.shared, polled.shared), WriteAll(p, y, p.shared, polled.shared);
      ReadsAgree(x1, y1, p.shared, on);
      var taken := s.consume(x1[t.computation], ReadAll(x1, p.shared), polled.world);
      WritesAgree(p, x1, y1, p.shared, taken.shared, on);
      var x2, y2 := WriteAll(p, x1, p.shared, taken.shared), WriteAll(p, y1, p.shared, taken.shared);
      WritesAgree(p, x2, y2, Listed(t.result), [taken.output], live[t.resume] + shared);
    }
  }

  /// The sets of a liveness solution mention body resources only.
  ghost predicate Known(p: Program, live: seq<set<Field>>, after: seq<set<Field>>) {
    && |live| == |after|
    && forall i | 0 <= i < |live| :: live[i] <= p.sizes.Keys && after[i] <= p.sizes.Keys
  }

  lemma StepKeepsSimilar<W>(p: Program, s: Semantics<W>, live: seq<set<Field>>, after: seq<set<Field>>,
                            c: Config<W>, d: Config<W>)
    requires WellFormed(p) && Covers(p, live, after) && Known(p, live, after)
    requires Proper(p, c) && Proper(p, d) && Similar(p, live, c, d)
    ensures Similar(p, live, Step(p, s, c), Step(p, s, d))
  {
    hide PollAwaited, Exec, Before, WellFormed, Typed;
    KnownBlocks(p, c);
    match c {
      case Fault =>
      case Start(_, _) =>
      case Finished(_, _, _) =>
      case Waiting(b, env, _, world) => PollsAgree(p, s, live, b, env, d.env, world);
      case Running(b, env, world) => BlocksAgree(p, s, live, after, b, env, d.env, world);
    }
  }

  lemma KnownBlocks<W>(p: Program, c: Config<W>)
    requires WellFormed(p) && Proper(p, c)
    ensures c.Running? ==> c.block < |p.blocks| && Typed(p, c.env) && KnownInstructions(p, p.blocks[c.block].instructions)
    ensures c.Waiting? ==> Typed(p, c.env)
  {
  }

  lemma BlocksAgree<W>(p: Program, s: Semantics<W>, live: seq<set<Field>>, after: seq<set<Field>>,
                       b: nat, x: Env, y: Env, world: W)
    requires WellFormed(p) && Covers(p, live, after) && Known(p, live, after)
    requires Typed(p, x) && Typed(p, y) && b < |p.blocks|
    requires AgreeOn(x, y, live[b] + Elements(p.shared))
    ensures Similar(p, live, Step(p, s, Running(b, x, world)), Step(p, s, Running(b, y, world)))
  {
    var t := p.blocks[b].terminator;
    var wanted := after[b] + Elements(p.shared);
    BeforeGrows(p.blocks[b].instructions, after[b], Elements(p.shared));
    ExecAgrees(p, s, p.blocks[b].instructions, x, y, world, wanted);
    var q, r := Exec(p, s, p.blocks[b].instructions, x, world), Exec(p, s, p.blocks[b].instructions, y, world);
    if q.Ran? {
      match t {
        case Switch(op, uses, targets) => ReadsAgree(q.env, r.env, uses, wanted);
        case DeferredReturn(output) => ReadsAgree(q.env, r.env, Listed(output), wanted);
        case Suspend(_, _, _) => PollsAgree(p, s, live, b, q.env, r.env, q.world);
      }
    }
  }

  lemma {:induction false} BeforeGrows(code: seq<Instruction>, after: set<Field>, extra: set<Field>)
    ensures Before(code, after + extra) <= Before(code, after) + extra
    decreases |code|
  {
    if code != [] {
      var last := code[|code| - 1];
      var middle := (after - Elements(last.defs)) + Elements(last.uses);
      var kept := extra - Elements(last.defs);
      assert ((after + extra) - Elements(last.defs)) + Elements(last.uses) == middle + kept;
      BeforeGrows(code[..|code| - 1], middle, kept);
    }
  }

  /// MAIN RESULT. Runs that start from the same live resources and loans stay the same in all that a
  /// caller or a child can observe.
  lemma {:induction false} RunsAgree<W>(p: Program, s: Semantics<W>, live: seq<set<Field>>, after: seq<set<Field>>,
                                        c: Config<W>, d: Config<W>, fuel: nat)
    requires WellFormed(p) && Covers(p, live, after) && Known(p, live, after)
    requires Proper(p, c) && Proper(p, d) && Similar(p, live, c, d)
    ensures Similar(p, live, Go(p, s, c, fuel), Go(p, s, d, fuel))
    decreases fuel
  {
    hide WellFormed, Covers, Known, Step, Proper;
    if c.Running? && fuel > 0 {
      StepKeepsSimilar(p, s, live, after, c, d);
      RunsAgree(p, s, live, after, Step(p, s, c), Step(p, s, d), fuel - 1);
    }
  }
}
