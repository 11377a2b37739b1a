/**
 The three load/store-exclusive retry loops, run by any number of interleaved threads.

 Every thread has its own exclusive monitor. A store to a word, by whoever, takes away all other
 reservations of that word, and a reservation may also be lost for no reason at any time.
 */
module Atomics {
  import opened Results

  const WORD_LIMIT: int := 0x1_0000_0000_0000_0000
  type Word = x: int | 0 <= x < 0x1_0000_0000_0000_0000

  /// A guarded transition, an increment below a maximum, or a decrement above zero.
  datatype Operation =
    | Transition(expected: Word, replacement: Word)
    | Increment(maximum: Word)
    | Decrement

  predicate Guard(op: Operation, v: Word) {
    match op
    case Transition(expected, _) => v == expected
    case Increment(maximum) => v < maximum
    case Decrement => v != 0
  }

  function Update(op: Operation, v: Word): Word
    requires Guard(op, v)
  {
    match op
    case Transition(_, replacement) => replacement
    case Increment(_) => v + 1
    case Decrement => v - 1
  }

  // ---------------------------------------------------------------- the emitted sequences

  datatype Registers = Registers(address: nat, observed: nat, status: nat)

  predicate Distinct(r: Registers) {
    r.address != r.observed && r.address != r.status && r.observed != r.status
  }

  /// The operation contract: no two of the registers are the same.
  function NewRegisters(address: nat, observed: nat, status: nat): (r: Option<Registers>)
    ensures r.Some? <==> address != observed && address != status && observed != status
  {
    if address == observed || address == status || observed == status then None
    else Some(Registers(address, observed, status))
  }

  datatype Condition = Equal | NotEqual | CarrySet

  datatype Target = Local(index: nat) | ToSuccess | ToFailure

  datatype Instruction =
    | LoadAcquireExclusive(destination: nat, base: nat)
    | CompareImmediate(source: nat, immediate: Word)
    | BranchConditional(target: Target, condition: Condition)
    | MoveZero(destination: nat, immediate: Word)
    | AddImmediate(destination: nat, source: nat, immediate: Word)
    | SubtractImmediate(destination: nat, source: nat, immediate: Word)
    | StoreReleaseExclusive(status: nat, source: nat, base: nat)
    | ClearExclusive
    | Branch(target: Target)

  /// The immediate that the observed value is compared with, the condition of the failure branch, and
  /// the instruction that forms the new value.
  function Compared(op: Operation): Word {
    match op
    case Transition(expected, _) => expected
    case Increment(maximum) => maximum
    case Decrement => 0
  }

  function FailureCondition(op: Operation): Condition {
    match op
    case Transition(_, _) => NotEqual
    case Increment(_) => CarrySet
    case Decrement => Equal
  }

  function Change(op: Operation, observed: nat): Instruction {
    match op
    case Transition(_, replacement) => MoveZero(observed, replacement)
    case Increment(_) => AddImmediate(observed, observed, 1)
    case Decrement => SubtractImmediate(observed, observed, 1)
  }

  function Sequence(op: Operation, r: Registers, base: nat): seq<Instruction> {
    [LoadAcquireExclusive(r.observed, r.address),
     CompareImmediate(r.observed, Compared(op)),
     BranchConditional(Local(base + 8), FailureCondition(op)),
     Change(op, r.observed),
     StoreReleaseExclusive(r.status, r.observed, r.address),
     CompareImmediate(r.status, 0),
     BranchConditional(Local(base), NotEqual),
     Branch(ToSuccess),
     ClearExclusive,
     Branch(ToFailure)]
  }

  const LENGTH: nat := 10

  class Builder {
    var code: seq<Instruction>

    constructor ()
      ensures code == []
    {
      code := [];
    }

    method AppendAtomicStateTransition(r: Registers, expected: Word, replacement: Word)
      modifies this
      ensures code == old(code) + Sequence(Transition(expected, replacement), r, |old(code)|)
    {
      var retry := |code|;
      code := code + [LoadAcquireExclusive(r.observed, r.address)];
      code := code + [CompareImmediate(r.observed, expected)];
      code := code + [BranchConditional(Local(retry + 8), NotEqual)];
      code := code + [MoveZero(r.observed, replacement)];
      AppendStoreAndExits(r, retry);
    }

    method AppendAtomicBoundedIncrement(r: Registers, maximum: Word)
      modifies this
      ensures code == old(code) + Sequence(Increment(maximum), r, |old(code)|)
    {
      var retry := |code|;
      code := code + [LoadAcquireExclusive(r.observed, r.address)];
      code := code + [CompareImmediate(r.observed, maximum)];
      code := code + [BranchConditional(Local(retry + 8), CarrySet)];
      code := code + [AddImmediate(r.observed, r.observed, 1)];
      AppendStoreAndExits(r, retry);
    }

    method AppendAtomicNonzeroDecrement(r: Registers)
      modifies this
      ensures code == old(code) + Sequence(Decrement, r, |old(code)|)
    {
      var retry := |code|;
      code := code + [LoadAcquireExclusive(r.observed, r.address)];
      code := code + [CompareImmediate(r.observed, 0)];
      code := code + [BranchConditional(Local(retry + 8), Equal)];
      code := code + [SubtractImmediate(r.observed, r.observed, 1)];
      AppendStoreAndExits(r, retry);
    }

    method AppendStoreAndExits(r: Registers, retry: nat)
      modifies this
      ensures code == old(code) + [StoreReleaseExclusive(r.status, r.observed, r.address), CompareImmediate(r.status, 0),
                                   BranchConditional(Local(retry), NotEqual), Branch(ToSuccess),
                                   ClearExclusive, Branch(ToFailure)]
    {
      code := code + [StoreReleaseExclusive(r.status, r.observed, r.address)];
      code := code + [CompareImmediate(r.status, 0)];
      code := code + [BranchConditional(Local(retry), NotEqual)];
      code := code + [Branch(ToSuccess)];
      code := code + [ClearExclusive];
      code := code + [Branch(ToFailure)];
    }
  }

  // ---------------------------------------------------------------- threads

  datatype Call = Call(op: Operation, registers: Registers, address: nat)

  /// How a call ends, with the value in its observed register.
  datatype Outcome = Succeeded(observed: Word) | Failed(observed: Word)

  /// `pc == LENGTH` between calls. `results` are the calls that have returned.
  datatype Thread = Thread(
    call: Call, pc: nat, regs: map<nat, Word>, z: bool, c: bool, monitor: Option<nat>,
    todo: seq<Call>, results: seq<(Call, Outcome)>)

  type Memory = map<nat, Word>

  function Read(m: Memory, a: nat): Word {
    if a in m then m[a] else 0
  }

  function Register(t: Thread, r: nat): Word {
    if r in t.regs then t.regs[r] else 0
  }

  predicate Taken(t: Thread, condition: Condition) {
    match condition
    case Equal => t.z
    case NotEqual => !t.z
    case CarrySet => t.c
  }

  function Goto(t: Thread, target: Target): Thread {
    match target
    case Local(k) => t.(pc := k)
    case ToSuccess => t.(pc := LENGTH, results := t.results + [(t.call, Succeeded(Register(t, t.call.registers.observed)))])
    case ToFailure => t.(pc := LENGTH, results := t.results + [(t.call, Failed(Register(t, t.call.registers.observed)))])
  }

  /// The word a step writes, if it writes one.
  datatype Write = Write(address: nat, value: Word)
  datatype Executed = Executed(thread: Thread, write: Option<Write>)

  function Execute(t: Thread, i: Instruction, m: Memory, lost: bool): Executed {
    var next := t.(pc := t.pc + 1);
    match i
    case LoadAcquireExclusive(d, b) =>
      var a := Register(t, b);
      Executed(next.(regs := t.regs[d := Read(m, a)], monitor := Some(a)), None)
    case CompareImmediate(s, v) =>
      Executed(next.(z := Register(t, s) == v, c := Register(t, s) >= v), None)
    case BranchConditional(target, condition) =>
      Executed(if Taken(t, condition) then Goto(t, target) else next, None)
    case MoveZero(d, v) => Executed(next.(regs := t.regs[d := v]), None)
    case AddImmediate(d, s, v) => Executed(next.(regs := t.regs[d := (Register(t, s) + v) % WORD_LIMIT]), None)
    case SubtractImmediate(d, s, v) => Executed(next.(regs := t.regs[d := (Register(t, s) - v) % WORD_LIMIT]), None)
    case StoreReleaseExclusive(status, s, b) =>
      var a := Register(t, b);
      var succeeds := t.monitor == Some(a as nat) && !lost;
      Executed(next.(regs := t.regs[status := if succeeds then 0 else 1], monitor := None),
               if succeeds then Some(Write(a, Register(t, s))) else None)
    case ClearExclusive => Executed(next.(monitor := None), None)
    case Branch(target) => Executed(Goto(t, target), None)
  }

  function Begin(t: Thread, call: Call): Thread
    requires 0 <= call.address < WORD_LIMIT
  {
    t.(call := call, pc := 0, regs := t.regs[call.registers.address := call.address])
  }

  // ---------------------------------------------------------------- interleavings

  /// What happened to the shared words, in order.
  datatype Event =
    | Performed(thread: nat, call: Call, outcome: Outcome)
    | Overwritten(address: nat, value: Word)

  datatype System = System(memory: Memory, threads: seq<Thread>, history: seq<Event>)

  /// One scheduling decision: a thread runs one instruction, with or without losing its reservation to
  /// a store that would have succeeded; a reservation vanishes; or other code stores a word.
  datatype Choice = Run(thread: nat, lost: bool) | Lose(thread: nat) | Overwrite(address: nat, value: Word)

  /// Everybody's reservation of a written word is gone.
  function Clear(threads: seq<Thread>, address: nat): (r: seq<Thread>)
    ensures |r| == |threads|
  {
    seq(|threads|, i requires 0 <= i < |threads| =>
      if threads[i].monitor == Some(address) then threads[i].(monitor := None) else threads[i])
  }

  function Commit(s: System, write: Option<Write>): System {
    if write.None? then s
    else s.(memory := s.memory[write.value.address := write.value.value], threads := Clear(s.threads, write.value.address))
  }

  /// The event a step stands for: a store that succeeds, or a load whose value fails the guard.
  function EventOf(k: nat, t: Thread, e: Executed): seq<Event> {
    var observed := Register(e.thread, t.call.registers.observed);
    if e.write.Some? then [Performed(k, t.call, Succeeded(observed))]
    else if t.pc == 0 && !Guard(t.call.op, observed) then [Performed(k, t.call, Failed(observed))]
    else []
  }

  predicate Startable(call: Call) {
    call.address < WORD_LIMIT && Distinct(call.registers)
  }

  function Step(s: System, choice: Choice): System {
    match choice
    case Overwrite(a, v) =>
      Commit(s, Some(Write(a, v))).(history := s.history + [Overwritten(a, v)])
    case Lose(k) =>
      if k < |s.threads| then s.(threads := s.threads[k := s.threads[k].(monitor := None)]) else s
    case Run(k, lost) =>
      if k >= |s.threads| then s
      else
        var t := s.threads[k];
        if t.pc >= LENGTH then
          if t.todo == [] || !Startable(t.todo[0]) then s
          else s.(threads := s.threads[k := Begin(t, t.todo[0]).(todo := t.todo[1..])])
        else
          var e := Execute(t, Sequence(t.call.op, t.call.registers, 0)[t.pc], s.memory, lost);
          Commit(s.(threads := s.threads[k := e.thread]), e.write).(history := s.history + EventOf(k, t, e))
  }

  function Steps(s: System, schedule: seq<Choice>): System {
    if schedule == [] then s else Step(Steps(s, schedule[..|schedule| - 1]), schedule[|schedule| - 1])
  }

  // ---------------------------------------------------------------- the sequential specification

  /// The words after a history in which every operation is one indivisible step.
  function Replay(m: Memory, history: seq<Event>): Memory {
    if history == [] then m
    else
      var before := Replay(m, history[..|history| - 1]);
      match history[|history| - 1]
      case Overwritten(a, v) => before[a := v]
      case Performed(_, call, outcome) => if outcome.Succeeded? then before[call.address := outcome.observed] else before
  }

  /// Every operation in the history succeeds exactly when its guard holds at its place, with the value
  /// that its update gives, and otherwise reports the value that failed.
  predicate Sequential(m: Memory, history: seq<Event>) {
    history == []
    || (var before := history[..|history| - 1];
        && Sequential(m, before)
        && match history[|history| - 1]
           case Overwritten(_, _) => true
           case Performed(_, call, outcome) =>
             var v := Read(Replay(m, before), call.address);
             outcome == if Guard(call.op, v) then Succeeded(Update(call.op, v)) else Failed(v))
  }

  /// The events of one thread.
  function Own(history: seq<Event>, k: nat): seq<(Call, Outcome)> {
    if history == [] then []
    else
      var before := Own(history[..|history| - 1], k);
      match history[|history| - 1]
      case Performed(t, call, outcome) => if t == k then before + [(call, outcome)] else before
      case Overwritten(_, _) => before
  }

  // ---------------------------------------------------------------- the invariant

  /// The value that the observed register held before it was changed.
  function Before(op: Operation, observed: int): int {
    match op
    case Transition(expected, _) => expected
    case Increment(_) => observed - 1
    case Decrement => observed + 1
  }

  /// A reservation that is still held vouches for the loaded value.
  predicate Vouches(m: Memory, t: Thread, v: int) {
    t.monitor == Some(t.call.address) ==> Read(m, t.call.address) == v
  }

  predicate ThreadHolds(m: Memory, t: Thread) {
    var op, r, o := t.call.op, t.call.registers, Register(t, t.call.registers.observed);
    var status := Register(t, r.status);
    t.pc <= LENGTH
    && (t.pc < LENGTH ==> Startable(t.call) && Register(t, r.address) == t.call.address)
    && match t.pc
       case 1 => Vouches(m, t, o)
       case 2 => Vouches(m, t, o) && t.z == (o == Compared(op)) && t.c == (o >= Compared(op))
       case 3 => Vouches(m, t, o) && Guard(op, o)
       case 4 =>
         var v := Before(op, o);
         0 <= v < WORD_LIMIT && Guard(op, v) && o == Update(op, v) && Vouches(m, t, v)
       case 5 => status == 0 || status == 1
       case 6 => (status == 0 || status == 1) && t.z == (status == 0)
       case 7 => status == 0
       case 8 => !Guard(op, o)
       case 9 => !Guard(op, o)
       case _ => true
  }

  /// The result that is already decided, but not yet returned.
  function Decided(t: Thread): seq<(Call, Outcome)> {
    var o, status := Register(t, t.call.registers.observed), Register(t, t.call.registers.status);
    if (t.pc == 1 || t.pc == 2 || t.pc == 8 || t.pc == 9) && !Guard(t.call.op, o) then [(t.call, Failed(o))]
    else if (t.pc == 5 || t.pc == 6 || t.pc == 7) && status == 0 then [(t.call, Succeeded(o))]
    else []
  }

  ghost predicate Consistent(m: Memory, s: System) {
    && s.memory == Replay(m, s.history) && Sequential(m, s.history)
    && forall k | 0 <= k < |s.threads| ::
         ThreadHolds(s.memory, s.threads[k]) && Own(s.history, k) == s.threads[k].results + Decided(s.threads[k])
  }

  function Written(m: Memory, write: Option<Write>): Memory {
    if write.None? then m else m[write.value.address := write.value.value]
  }

  /// What one instruction must do for its thread.
  ghost predicate KeepsThread(m: Memory, k: nat, t: Thread, i: Instruction, lost: bool) {
    var e := Execute(t, i, m, lost);
    && ThreadHolds(Written(m, e.write), e.thread)
    && t.results + Decided(t) + EventResult(k, t, e) == e.thread.results + Decided(e.thread)
    && e.thread.todo == t.todo
  }

  lemma LoadKeepsThread(m: Memory, k: nat, t: Thread, lost: bool)
    requires ThreadHolds(m, t) && t.pc == 0
    ensures KeepsThread(m, k, t, LoadAcquireExclusive(t.call.registers.observed, t.call.registers.address), lost)
  {
  }

  lemma CompareKeepsThread(m: Memory, k: nat, t: Thread, lost: bool)
    requires ThreadHolds(m, t) && t.pc == 1
    ensures KeepsThread(m, k, t, CompareImmediate(t.call.registers.observed, Compared(t.call.op)), lost)
  {
  }

  lemma GuardKeepsThread(m: Memory, k: nat, t: Thread, lost: bool)
    requires ThreadHolds(m, t) && t.pc == 2
    ensures KeepsThread(m, k, t, BranchConditional(Local(8), FailureCondition(t.call.op)), lost)
  {
    assert Taken(t, FailureCondition(t.call.op)) <==> !Guard(t.call.op, Register(t, t.call.registers.observed));
  }

  lemma ChangeUpdates(t: Thread, m: Memory, lost: bool)
    requires ThreadHolds(m, t) && t.pc == 3
    ensures var op, r := t.call.op, t.call.registers;
            var o := Register(t, r.observed);
            Guard(op, o) && Before(op, Update(op, o)) == o && Vouches(m, t, o)
            && Execute(t, Change(op, r.observed), m, lost) == Executed(t.(pc := 4, regs := t.regs[r.observed := Update(op, o)]), None)
  {
    var op, o := t.call.op, Register(t, t.call.registers.observed);
    assert op.Increment? ==> (o + 1) % WORD_LIMIT == o + 1;
    assert op.Decrement? ==> (o - 1) % WORD_LIMIT == o - 1;
  }

  lemma ChangeKeepsThread(m: Memory, k: nat, t: Thread, lost: bool)
    requires ThreadHolds(m, t) && t.pc == 3
    ensures KeepsThread(m, k, t, Change(t.call.op, t.call.registers.observed), lost)
  {
    ChangeUpdates(t, m, lost);
    hide Guard, Update, Before, Execute, Change;
  }

  lemma StoreKeepsThread(m: Memory, k: nat, t: Thread, lost: bool)
    requires ThreadHolds(m, t) && t.pc == 4
    ensures KeepsThread(m, k, t,
                        StoreReleaseExclusive(t.call.registers.status, t.call.registers.observed, t.call.registers.address), lost)
  {
    hide Guard, Update;
  }

  lemma RetryKeepsThread(m: Memory, k: nat, t: Thread, lost: bool)
    requires ThreadHolds(m, t) && 5 <= t.pc <= 6
    ensures KeepsThread(m, k, t,
                        if t.pc == 5 then CompareImmediate(t.call.registers.status, 0) else BranchConditional(Local(0), NotEqual),
                        lost)
  {
    hide Guard, Update;
  }

  lemma ExitKeepsThread(m: Memory, k: nat, t: Thread, lost: bool)
    requires ThreadHolds(m, t) && 7 <= t.pc < LENGTH
    ensures KeepsThread(m, k, t,
                        if t.pc == 7 then Branch(ToSuccess) else if t.pc == 8 then ClearExclusive else Branch(ToFailure), lost)
  {
    hide Guard, Update;
    var i := if t.pc == 7 then Branch(ToSuccess) else if t.pc == 8 then ClearExclusive else Branch(ToFailure);
    var e := Execute(t, i, m, lost);
    assert t.pc != 8 ==> t.results + Decided(t) + [] == e.thread.results + [];
  }

  /// One instruction keeps what is known about its thread, and decides a result exactly when an event
  /// happens.
  lemma InstructionKeepsThread(m: Memory, k: nat, t: Thread, lost: bool)
    requires ThreadHolds(m, t) && t.pc < LENGTH
    ensures KeepsThread(m, k, t, Sequence(t.call.op, t.call.registers, 0)[t.pc], lost)
  {
    hide ThreadHolds, KeepsThread;
    if t.pc == 0 { LoadKeepsThread(m, k, t, lost); }
    else if t.pc == 1 { CompareKeepsThread(m, k, t, lost); }
    else if t.pc == 2 { GuardKeepsThread(m, k, t, lost); }
    else if t.pc == 3 { ChangeKeepsThread(m, k, t, lost); }
    else if t.pc == 4 { StoreKeepsThread(m, k, t, lost); }
    else if t.pc <= 6 { RetryKeepsThread(m, k, t, lost); }
    else { ExitKeepsThread(m, k, t, lost); }
  }

  function EventResult(k: nat, t: Thread, e: Executed): seq<(Call, Outcome)> {
    if EventOf(k, t, e) == [] then [] else [(EventOf(k, t, e)[0].call, EventOf(k, t, e)[0].outcome)]
  }

  /// The event of an instruction is a legal step of the sequential specification, and has the
  /// instruction's effect on memory.
  lemma InstructionIsAnEvent(m: Memory, k: nat, t: Thread, lost: bool)
    requires ThreadHolds(m, t) && t.pc < LENGTH
    ensures var e := Execute(t, Sequence(t.call.op, t.call.registers, 0)[t.pc], m, lost);
            var v := Read(m, t.call.address);
            && (EventOf(k, t, e) == [] ==> e.write.None?)
            && (EventOf(k, t, e) != [] ==>
                  EventOf(k, t, e) == [Performed(k, t.call, if Guard(t.call.op, v) then Succeeded(Update(t.call.op, v)) else Failed(v))]
                  && e.write == if Guard(t.call.op, v) then Some(Write(t.call.address, Update(t.call.op, v))) else None)
  {
  }

  /// Somebody else's store takes the reservation away, so the thread relies on nothing that changed.
  lemma StoreKeepsOtherThreads(m: Memory, t: Thread, a: nat, v: Word)
    requires ThreadHolds(m, t)
    ensures var u := if t.monitor == Some(a) then t.(monitor := None) else t;
            ThreadHolds(m[a := v], u) && Decided(u) == Decided(t) && u.results == t.results
  {
  }

  lemma HistoryGrows(m: Memory, history: seq<Event>, event: Event, k: nat)
    ensures Replay(m, history + [event]) ==
            match event
            case Overwritten(a, v) => Replay(m, history)[a := v]
            case Performed(_, call, outcome) =>
              if outcome.Succeeded? then Replay(m, history)[call.address := outcome.observed] else Replay(m, history)
    ensures Own(history + [event], k) ==
            if event.Performed? && event.thread == k then Own(history, k) + [(event.call, event.outcome)] else Own(history, k)
    ensures Sequential(m, history + [event]) <==>
            && Sequential(m, history)
            && (event.Performed? ==>
                  var v := Read(Replay(m, history), event.call.address);
                  event.outcome == if Guard(event.call.op, v) then Succeeded(Update(event.call.op, v)) else Failed(v))
  {
    assert (history + [event])[..|history|] == history;
  }

  /// A store changes the word, and leaves every thread with what it may rely on.
  lemma CommitKeepsThreads(m: Memory, threads: seq<Thread>, write: Option<Write>, k: nat)
    requires k < |threads| && (write.Some? ==> threads[k].monitor.None?)
    requires forall j | 0 <= j < |threads| && j != k :: ThreadHolds(m, threads[j])
    requires ThreadHolds(Written(m, write), threads[k])
    ensures var s := Commit(System(m, threads, []), write);
            && s.memory == Written(m, write) && |s.threads| == |threads| && s.threads[k] == threads[k]
            && forall j | 0 <= j < |threads| ::
                 && ThreadHolds(s.memory, s.threads[j])
                 && Decided(s.threads[j]) == Decided(threads[j]) && s.threads[j].results == threads[j].results
  {
    hide ThreadHolds, Decided;
    forall j | 0 <= j < |threads| && j != k && write.Some?
      ensures var u := Clear(threads, write.value.address)[j];
              ThreadHolds(Written(m, write), u) && Decided(u) == Decided(threads[j]) && u.results == threads[j].results
    {
      StoreKeepsOtherThreads(m, threads[j], write.value.address, write.value.value);
    }
  }

  lemma WriterHoldsNoReservation(t: Thread, m: Memory, lost: bool)
    requires t.pc < LENGTH
    ensures var e := Execute(t, Sequence(t.call.op, t.call.registers, 0)[t.pc], m, lost);
            e.write.Some? ==> e.thread.monitor.None?
  {
  }

  lemma RunKeepsConsistent(m: Memory, s: System, k: nat, lost: bool)
    requires Consistent(m, s) && k < |s.threads| && s.threads[k].pc < LENGTH
    ensures Consistent(m, Step(s, Run(k, lost)))
  {
    var t := s.threads[k];
    var e := Execute(t, Sequence(t.call.op, t.call.registers, 0)[t.pc], s.memory, lost);
    InstructionKeepsThread(s.memory, k, t, lost);
    InstructionIsAnEvent(s.memory, k, t, lost);
    WriterHoldsNoReservation(t, s.memory, lost);
    hide ThreadHolds, Decided, Execute, Sequence, Guard, Update;
    var threads := s.threads[k := e.thread];
    CommitKeepsThreads(s.memory, threads, e.write, k);
    var events := EventOf(k, t, e);
    if events != [] {
      forall j | 0 <= j < |s.threads|
        ensures Own(s.history + events, j) == if j == k then Own(s.history, j) + EventResult(k, t, e) else Own(s.history, j)
      {
        HistoryGrows(m, s.history, events[0], j);
      }
      HistoryGrows(m, s.history, events[0], k);
    } else {
      assert s.history + events == s.history;
    }
  }

  lemma OverwriteKeepsConsistent(m: Memory, s: System, a: nat, v: Word)
    requires Consistent(m, s)
    ensures Consistent(m, Step(s, Overwrite(a, v)))
  {
    forall j | 0 <= j < |s.threads|
      ensures var u := Clear(s.threads, a)[j];
              ThreadHolds(s.memory[a := v], u) && Decided(u) == Decided(s.threads[j]) && u.results == s.threads[j].results
      ensures Own(s.history + [Overwritten(a, v)], j) == Own(s.history, j)
    {
      StoreKeepsOtherThreads(s.memory, s.threads[j], a, v);
      hide ThreadHolds, Decided;
      HistoryGrows(m, s.history, Overwritten(a, v), j);
    }
    hide ThreadHolds, Decided;
    HistoryGrows(m, s.history, Overwritten(a, v), 0);
  }

  lemma IdleKeepsConsistent(m: Memory, s: System, k: nat, u: Thread)
    requires Consistent(m, s) && k < |s.threads|
    requires ThreadHolds(s.memory, u) && Decided(u) == Decided(s.threads[k]) && u.results == s.threads[k].results
    ensures Consistent(m, s.(threads := s.threads[k := u]))
  {
    hide ThreadHolds, Decided, Own;
  }

  lemma BegunThreadHolds(m: Memory, t: Thread)
    requires ThreadHolds(m, t) && t.pc == LENGTH && t.todo != [] && Startable(t.todo[0])
    ensures var u := Begin(t, t.todo[0]).(todo := t.todo[1..]);
            ThreadHolds(m, u) && Decided(u) == Decided(t) && u.results == t.results
  {
  }

  lemma LosingThreadHolds(m: Memory, t: Thread)
    requires ThreadHolds(m, t)
    ensures var u := t.(monitor := None); ThreadHolds(m, u) && Decided(u) == Decided(t) && u.results == t.results
  {
  }

  lemma StepKeepsConsistent(m: Memory, s: System, choice: Choice)
    requires Consistent(m, s)
    ensures Consistent(m, Step(s, choice))
  {
    hide ThreadHolds, Decided, Own, Replay, Sequential;
    match choice {
      case Overwrite(a, v) => OverwriteKeepsConsistent(m, s, a, v);
      case Lose(k) =>
        if k < |s.threads| {
          LosingThreadHolds(s.memory, s.threads[k]);
          IdleKeepsConsistent(m, s, k, s.threads[k].(monitor := None));
        }
      case Run(k, lost) =>
        if k < |s.threads| {
          var t := s.threads[k];
          if t.pc < LENGTH {
            RunKeepsConsistent(m, s, k, lost);
          } else if t.todo != [] && Startable(t.todo[0]) {
            NoLaterThanTheEnd(s.memory, t);
            BegunThreadHolds(s.memory, t);
            IdleKeepsConsistent(m, s, k, Begin(t, t.todo[0]).(todo := t.todo[1..]));
          }
        }
    }
  }

  lemma NoLaterThanTheEnd(m: Memory, t: Thread)
    requires ThreadHolds(m, t)
    ensures t.pc <= LENGTH
  {
  }

  /// Threads that have not started anything.
  predicate Fresh(s: System) {
    s.history == [] && forall k | 0 <= k < |s.threads| :: s.threads[k].pc == LENGTH && s.threads[k].results == []
  }

  /// MAIN RESULT. Under every schedule the loops are linearizable: some order of indivisible operations
  /// explains the memory, and gives every thread exactly the results it returned, in its own order,
  /// plus at most the one that is already decided.
  lemma {:induction false} EveryScheduleIsLinearizable(s: System, schedule: seq<Choice>)
    requires Fresh(s)
    ensures Consistent(s.memory, Steps(s, schedule))
    decreases |schedule|
  {
    if schedule != [] {
      EveryScheduleIsLinearizable(s, schedule[..|schedule| - 1]);
      StepKeepsConsistent(s.memory, Steps(s, schedule[..|schedule| - 1]), schedule[|schedule| - 1]);
    }
  }

  // ---------------------------------------------------------------- results

  /// What one indivisible operation does to its word: `v` before, `w` after, and the outcome.
  predicate ActsAtOnce(op: Operation, v: Word, w: Word, outcome: Outcome) {
    match op
    case Transition(expected, replacement) =>
      if v == expected then outcome == Succeeded(replacement) && w == replacement else outcome == Failed(v) && w == v
    case Increment(maximum) =>
      if v < maximum then outcome == Succeeded(w) && w == v + 1 else outcome == Failed(v) && w == v
    case Decrement =>
      if v > 0 then outcome == Succeeded(w) && w == v - 1 else outcome == Failed(0) && w == v
  }

  /// Every call in a history leaves its own word so, and no other word touched.
  lemma {:induction false} SequentialCallsActAtOnce(m: Memory, history: seq<Event>, i: nat)
    requires Sequential(m, history) && i < |history| && history[i].Performed?
    ensures var a := history[i].call.address;
            var before, after := Replay(m, history[..i]), Replay(m, history[..i + 1]);
            && ActsAtOnce(history[i].call.op, Read(before, a), Read(after, a), history[i].outcome)
            && forall b: nat | b != a :: Read(after, b) == Read(before, b)
    decreases |history|
  {
    var n := |history| - 1;
    if i < n {
      assert history[..n][..i] == history[..i] && history[..n][..i + 1] == history[..i + 1];
      SequentialCallsActAtOnce(m, history[..n], i);
    } else {
      assert history[..i + 1] == history && history[..i + 1][..i] == history[..i];
    }
  }

  /// MAIN RESULT. Under every schedule a transition succeeds exactly when its word has the expected
  /// value, and then stores the replacement; an increment succeeds exactly below its maximum and adds
  /// one; a decrement succeeds exactly above zero and subtracts one; and a call that fails reports the
  /// value that it found and changes nothing.
  lemma CallsActAtOnce(s: System, schedule: seq<Choice>, i: nat)
    requires Fresh(s) && i < |Steps(s, schedule).history| && Steps(s, schedule).history[i].Performed?
    ensures var history := Steps(s, schedule).history;
            var a := history[i].call.address;
            var before, after := Replay(s.memory, history[..i]), Replay(s.memory, history[..i + 1]);
            && ActsAtOnce(history[i].call.op, Read(before, a), Read(after, a), history[i].outcome)
            && forall b: nat | b != a :: Read(after, b) == Read(before, b)
  {
    EveryScheduleIsLinearizable(s, schedule);
    SequentialCallsActAtOnce(s.memory, Steps(s, schedule).history, i);
  }

  // ---------------------------------------------------------------- counts

  predicate CountsBelow(call: Call, a: nat, maximum: Word) {
    call.address == a ==> call.op == Increment(maximum) || call.op == Decrement
  }

  predicate OnlyCounts(history: seq<Event>, a: nat, maximum: Word) {
    forall i | 0 <= i < |history| ::
      match history[i]
      case Overwritten(b, _) => b != a
      case Performed(_, call, _) => CountsBelow(call, a, maximum)
  }

  /// Successful increments minus successful decrements of one word.
  function Net(history: seq<Event>, a: nat): int {
    if history == [] then 0
    else
      var before := Net(history[..|history| - 1], a);
      match history[|history| - 1]
      case Overwritten(_, _) => before
      case Performed(_, call, outcome) =>
        if call.address != a || outcome.Failed? then before
        else if call.op.Decrement? then before - 1 else before + 1
  }

  lemma {:induction false} SequentialCountsAreConserved(m: Memory, history: seq<Event>, a: nat, maximum: Word)
    requires Sequential(m, history) && OnlyCounts(history, a, maximum) && Read(m, a) <= maximum
    ensures Read(Replay(m, history), a) == Read(m, a) + Net(history, a) <= maximum
  {
    if history != [] { SequentialCountsAreConserved(m, history[..|history| - 1], a, maximum); }
  }

  /// The threads use a word only as a count.
  ghost predicate UsesAsCount(s: System, a: nat, maximum: Word) {
    && OnlyCounts(s.history, a, maximum)
    && forall k | 0 <= k < |s.threads| ::
         && (s.threads[k].pc < LENGTH ==> CountsBelow(s.threads[k].call, a, maximum))
         && forall i | 0 <= i < |s.threads[k].todo| :: CountsBelow(s.threads[k].todo[i], a, maximum)
  }

  lemma StepKeepsUse(s: System, choice: Choice, a: nat, maximum: Word)
    requires UsesAsCount(s, a, maximum) && (choice.Overwrite? ==> choice.address != a)
    ensures UsesAsCount(Step(s, choice), a, maximum)
  {
    if choice.Run? && choice.thread < |s.threads| && s.threads[choice.thread].pc < LENGTH {
      var t := s.threads[choice.thread];
      hide Sequence, Guard, CountsBelow;
      var e := Execute(t, Sequence(t.call.op, t.call.registers, 0)[t.pc], s.memory, choice.lost);
      assert e.thread.call == t.call && e.thread.todo == t.todo;
    }
  }

  lemma {:induction false} StepsKeepUse(s: System, schedule: seq<Choice>, a: nat, maximum: Word)
    requires UsesAsCount(s, a, maximum)
    requires forall i | 0 <= i < |schedule| && schedule[i].Overwrite? :: schedule[i].address != a
    ensures UsesAsCount(Steps(s, schedule), a, maximum)
    decreases |schedule|
  {
    if schedule != [] {
      StepsKeepUse(s, schedule[..|schedule| - 1], a, maximum);
      StepKeepsUse(Steps(s, schedule[..|schedule| - 1]), schedule[|schedule| - 1], a, maximum);
    }
  }

  /// MAIN RESULT. A count that is only ever incremented below its maximum and decremented above zero
  /// stays within its bounds, and is its start plus the successes up minus the successes down.
  lemma CountsStayWithinBounds(s: System, schedule: seq<Choice>, a: nat, maximum: Word)
    requires Fresh(s) && UsesAsCount(s, a, maximum) && Read(s.memory, a) <= maximum
    requires forall i | 0 <= i < |schedule| && schedule[i].Overwrite? :: schedule[i].address != a
    ensures var t := Steps(s, schedule);
            0 <= Read(t.memory, a) == Read(s.memory, a) + Net(t.history, a) <= maximum
  {
    EveryScheduleIsLinearizable(s, schedule);
    StepsKeepUse(s, schedule, a, maximum);
    SequentialCountsAreConserved(s.memory, Steps(s, schedule).history, a, maximum);
  }
}
