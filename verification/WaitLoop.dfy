/**
 One wait of the process root: interests become native registrations and an earliest deadline, the
 kernel is asked until something is ready, and every ready interest is signalled.
 */
module WaitLoop {
  import opened Results
  import opened Arithmetic
  import opened Isa
  import opened Deadlines
  import L = CodeLayout
  import opened AsyncTree

  const DESCRIPTOR: nat := 0
  const TIMER: nat := 1
  const PROCESS_EXIT: nat := 2
  const READABLE: nat := 0
  const WRITABLE: nat := 1
  const MAX_SUBJECT: nat := 0x7FFF_FFFF
  const NANOSECONDS_PER_MILLISECOND: int := 1_000_000
  const READ_FILTER: int := 0xFFFF
  const WRITE_FILTER: int := 0xFFFE
  const PROCESS_FILTER: int := 0xFFFB

  /// A native event names the interest that owns its registration.
  datatype Event = Event(source: nat, subject: nat, filter: int, error: bool)

  datatype Answer = Interrupted | MissingProcess | OtherError | Returned(events: seq<Event>)

  /// How a wait ends. `Blocked` stands for a kernel that gives no further answer.
  datatype Outcome = Woken | WaitFailure | RecordCorruption | Blocked

  datatype Timespec = Timespec(seconds: Word64, nanoseconds: Word64)

  // ---------------------------------------------------------------- interests

  predicate Native(i: Interest) {
    i.kind == DESCRIPTOR || i.kind == PROCESS_EXIT
  }

  predicate SameKey(x: Interest, y: Interest) {
    x.kind == y.kind && x.subject == y.subject && x.detail == y.detail
  }

  predicate WellFormed(i: Interest) {
    && i.readiness != 0
    && match i.kind
       case 0 => i.subject <= MAX_SUBJECT && (i.detail == READABLE || i.detail == WRITABLE)
       case 1 => i.detail == 0
       case 2 => i.detail == 0 && 1 <= i.subject <= MAX_SUBJECT
       case _ => false
  }

  /// Every subject is a machine word.
  predicate Words(interests: seq<Interest>) {
    forall i | 0 <= i < |interests| :: interests[i].subject < M64
  }

  predicate First(interests: seq<Interest>, i: nat)
    requires i < |interests|
  {
    Native(interests[i]) && forall j | 0 <= j < i :: !SameKey(interests[j], interests[i])
  }

  /// The interests that own a registration: the first of each native key, in order.
  function Registrations(interests: seq<Interest>, n: nat): (r: seq<nat>)
    requires n <= |interests|
    ensures forall k | 0 <= k < |r| :: r[k] < n && First(interests, r[k])
    ensures forall i | 0 <= i < n && First(interests, i) :: i in r
    ensures forall j, k | 0 <= j < k < |r| :: r[j] < r[k]
  {
    if n == 0 then [] else Registrations(interests, n - 1) + if First(interests, n - 1) then [n - 1] else []
  }

  /// The numerically least deadline, or the word that means none.
  function Earliest(interests: seq<Interest>, n: nat): (r: Word64)
    requires n <= |interests| && Words(interests)
    ensures forall i | 0 <= i < n && interests[i].kind == TIMER :: r <= interests[i].subject
    ensures r == NO_DEADLINE || exists i | 0 <= i < n :: interests[i].kind == TIMER && interests[i].subject == r
  {
    if n == 0 then NO_DEADLINE
    else
      var before := Earliest(interests, n - 1);
      if interests[n - 1].kind == TIMER && interests[n - 1].subject < before then interests[n - 1].subject else before
  }

  /// A deadline is eligible at a counter reading when it is not ahead of it.
  predicate Eligible(deadline: Word64, now: Word64) {
    !Future(Distance(deadline, now))
  }

  // ---------------------------------------------------------------- the earliest deadline

  lemma DistanceIs(deadline: Word64, now: Word64)
    ensures Distance(deadline, now) == if deadline >= now then deadline - now else deadline - now + M64
  {
    DivisionIsUnique(deadline - now, M64, if deadline >= now then 0 else -1,
                     if deadline >= now then deadline - now else deadline - now + M64);
  }

  /// How long there is to wait for a deadline: nothing once it has passed.
  function Remaining(deadline: Word64, now: Word64): Word64 {
    if Future(Distance(deadline, now)) then Distance(deadline, now) else 0
  }

  /// The numeric order of two deadlines is the order of their remaining times unless the larger one
  /// comes first around a wrap of the counter, or has already passed.
  lemma NumericOrderIsTimeOrder(x: Word64, y: Word64, now: Word64)
    requires x < y
    ensures Remaining(x, now) <= Remaining(y, now) <==>
            !Future(Distance(x, now)) || (Future(Distance(y, now)) && !(x < now <= y))
  {
    DistanceIs(x, now);
    DistanceIs(y, now);
  }

  /// The least deadline of a set is the next one in time exactly when it has passed itself, or none has
  /// passed and the counter does not wrap between the deadlines.
  lemma LeastDeadlineIsNext(deadlines: set<Word64>, least: Word64, now: Word64)
    requires least in deadlines && forall d | d in deadlines :: least <= d
    ensures (forall d | d in deadlines :: Remaining(least, now) <= Remaining(d, now))
       <==> (!Future(Distance(least, now)) || forall d | d in deadlines :: Future(Distance(d, now)) && !(least < now <= d))
  {
    forall d | d in deadlines
      ensures Remaining(least, now) <= Remaining(d, now) <==>
              !Future(Distance(least, now)) || (Future(Distance(d, now)) && !(least < now <= d))
    {
      if least < d { NumericOrderIsTimeOrder(least, d, now); }
    }
  }

  /// The same for a list of interests: the deadline that the wait loop keeps is the next one of its
  /// timers under that condition, and under no other.
  lemma EarliestIsNext(interests: seq<Interest>, now: Word64)
    requires Words(interests) && Earliest(interests, |interests|) != NO_DEADLINE
    ensures (forall i | 0 <= i < |interests| && interests[i].kind == TIMER ::
               Remaining(Earliest(interests, |interests|), now) <= Remaining(interests[i].subject, now))
       <==> (!Future(Distance(Earliest(interests, |interests|), now))
             || forall i | 0 <= i < |interests| && interests[i].kind == TIMER ::
                  Future(Distance(interests[i].subject, now)) && !(Earliest(interests, |interests|) < now <= interests[i].subject))
  {
    hide Remaining, Future, Distance;
    var e := Earliest(interests, |interests|);
    var deadlines: set<Word64> := set i | 0 <= i < |interests| && interests[i].kind == TIMER :: interests[i].subject;
    LeastDeadlineIsNext(deadlines, e, now);
    assert forall i | 0 <= i < |interests| && interests[i].kind == TIMER :: interests[i].subject in deadlines;
  }

  /// Two timers around a wrap of the counter: the loop sleeps for the later one, 15 milliseconds past
  /// the earlier one.
  lemma LeastDeadlineCanBeLater()
    ensures var soon, late := Interest(TIMER, M64 - 10, 0, 1), Interest(TIMER, 5, 0, 2);
            var now: Word64, woken: Word64 := M64 - 100, 5;
            && WellFormed(soon) && WellFormed(late) && Words([soon, late])
            && Earliest([soon, late], 2) == late.subject
            && Timeout(late.subject, now, 1000) == Some(105) && Timeout(soon.subject, now, 1000) == Some(90)
            && woken == (now + 105) % M64 && Distance(woken, soon.subject) == 15 && Eligible(soon.subject, woken)
  {
    var soon, late := Interest(TIMER, M64 - 10, 0, 1), Interest(TIMER, 5, 0, 2);
    var interests := [soon, late];
    NextRegistration(interests, 0);
    NextRegistration(interests, 1);
    NothingRegistered(interests);
    DistanceIs(M64 - 10, M64 - 100);
    DistanceIs(5, M64 - 100);
    DistanceIs(5, M64 - 10);
    DistanceIs(M64 - 10, 5);
    DivisionIsUnique(M64 + 5, M64, 1, 5);
    assert CeilingDivide(1000 * 90, 1000) == 90 && CeilingDivide(1000 * 105, 1000) == 105;
  }

  /// A timer at the maximum word reads as no deadline, so that it is never waited for.
  lemma MaximumWordIsNoDeadline(interests: seq<Interest>)
    requires Words(interests)
    ensures Earliest(interests, |interests|) == NO_DEADLINE <==>
            forall i | 0 <= i < |interests| && interests[i].kind == TIMER :: interests[i].subject == NO_DEADLINE
  {
  }

  /// Once eligible, a deadline stays eligible until it is half a counter period overdue.
  lemma EligibleStays(deadline: Word64, now: Word64, later: Word64, elapsed: nat)
    requires Eligible(deadline, now) && later == (now + elapsed) % M64
    requires Distance(now, deadline) + elapsed <= FURTHEST + 1
    ensures Eligible(deadline, later)
  {
    var overdue := Distance(now, deadline);
    DistanceIs(deadline, now);
    DistanceIs(now, deadline);
    DivisionIsUnique(now + elapsed, M64, if now + elapsed < M64 then 0 else 1,
                     if now + elapsed < M64 then now + elapsed else now + elapsed - M64);
    DistanceIs(deadline, later);
  }

  // ---------------------------------------------------------------- timeouts

  /// Seconds and nanoseconds of a timeout.
  method BuildTimespec(milliseconds: Word64) returns (t: Timespec)
    requires milliseconds <= MAX_TIMEOUT
    ensures t.seconds * 1_000_000_000 + t.nanoseconds == milliseconds * NANOSECONDS_PER_MILLISECOND
    ensures t.nanoseconds < 1_000_000_000
  {
    var seconds, left := Split(milliseconds, MILLISECONDS_PER_SECOND);
    QuotientAndRemainder(milliseconds, 1000);
    var nanoseconds := Product(left, NANOSECONDS_PER_MILLISECOND);
    return Timespec(seconds, nanoseconds);
  }

  // ---------------------------------------------------------------- events

  function FilterOf(i: Interest): int {
    if i.kind == PROCESS_EXIT then PROCESS_FILTER else if i.detail == READABLE then READ_FILTER else WRITE_FILTER
  }

  /// An event that names a native interest with the event's own subject and filter.
  predicate Matches(interests: seq<Interest>, e: Event) {
    && e.source < |interests| && Native(interests[e.source]) && WellFormed(interests[e.source])
    && e.subject == interests[e.source].subject && e.filter == FilterOf(interests[e.source])
  }

  /// The readiness words of all interests that share a key, or whose deadline is eligible.
  function Waiters(interests: seq<Interest>, source: nat): set<nat>
    requires source < |interests|
  {
    set i | 0 <= i < |interests| && SameKey(interests[i], interests[source]) :: interests[i].readiness
  }

  function Expired(interests: seq<Interest>, now: Word64): set<nat>
    requires Words(interests)
  {
    set i | 0 <= i < |interests| && interests[i].kind == TIMER && Eligible(interests[i].subject, now) :: interests[i].readiness
  }

  function EventWaiters(interests: seq<Interest>, events: seq<Event>): set<nat>
    requires forall k | 0 <= k < |events| :: Matches(interests, events[k])
  {
    set k, i | 0 <= k < |events| && Matches(interests, events[k]) && 0 <= i < |interests| && SameKey(interests[i], interests[events[k].source]) ::
      interests[i].readiness
  }

  // ---------------------------------------------------------------- the kernel's answers

  /// What the kernel is asked for.
  datatype Call =
    | Register(source: nat, subject: nat, filter: int)
    | WaitFor(capacity: nat, timeout: Option<Timespec>)

  function Request(interests: seq<Interest>, source: nat): Call
    requires source < |interests|
  {
    Register(source, interests[source].subject, FilterOf(interests[source]))
  }

  ghost predicate Sources(interests: seq<Interest>, native: seq<nat>) {
    forall k | 0 <= k < |native| :: native[k] < |interests| && Native(interests[native[k]])
  }

  /// How many registrations these answers settle: every answer settles one, except an interruption.
  function Settled(given: seq<Answer>): (r: nat)
    ensures r <= |given|
  {
    if given == [] then 0
    else
      var n := |given| - 1;
      Settled(given[..n]) + if given[n].Interrupted? then 0 else 1
  }

  /// The submission goes on after this answer for registration `k`: it was interrupted, or the kernel
  /// took the registration, or the process that was to be watched is gone.
  predicate Accepts(interests: seq<Interest>, native: seq<nat>, k: nat, answer: Answer) {
    && k < |native| && native[k] < |interests|
    && match answer
       case Interrupted => true
       case Returned(events) => events == []
       case MissingProcess => interests[native[k]].kind == PROCESS_EXIT
       case OtherError => false
  }

  ghost predicate AllAccepted(interests: seq<Interest>, native: seq<nat>, given: seq<Answer>) {
    forall i: nat | i < |given| :: Accepts(interests, native, Settled(given[..i]), given[i])
  }

  /// How a submission ends with these answers.
  ghost predicate SubmissionEnds(interests: seq<Interest>, native: seq<nat>, given: seq<Answer>, outcome: Outcome, left: seq<Answer>) {
    match outcome
    case Woken => Settled(given) == |native| && AllAccepted(interests, native, given)
    case WaitFailure =>
      && given != []
      && var before := given[..|given| - 1];
         && AllAccepted(interests, native, before) && Settled(before) < |native|
         && !Accepts(interests, native, Settled(before), given[|given| - 1])
    case Blocked => left == [] && Settled(given) < |native| && AllAccepted(interests, native, given)
    case RecordCorruption => false
  }

  /// Each call names the first registration that no answer has settled yet.
  ghost predicate Requested(interests: seq<Interest>, native: seq<nat>, given: seq<Answer>, calls: seq<Call>) {
    && |calls| <= |given| + 1
    && forall i: nat | i < |calls| :: AsksFor(interests, native, Settled(given[..i]), calls[i])
  }

  predicate AsksFor(interests: seq<Interest>, native: seq<nat>, k: nat, call: Call) {
    k < |native| && native[k] < |interests| && call == Request(interests, native[k])
  }

  /// The readiness words of those who wait for a process that was gone already.
  function GoneWaiters(interests: seq<Interest>, native: seq<nat>, given: seq<Answer>): set<nat> {
    if given == [] then {}
    else
      var n := |given| - 1;
      var k := Settled(given[..n]);
      GoneWaiters(interests, native, given[..n])
      + if given[n].MissingProcess? && k < |native| && native[k] < |interests| then Waiters(interests, native[k]) else {}
  }

  lemma FilterTellsProcesses(i: Interest)
    requires Native(i)
    ensures FilterOf(i) == PROCESS_FILTER <==> i.kind == PROCESS_EXIT
  {
  }

  lemma MatchesItself(interests: seq<Interest>, source: nat)
    requires source < |interests| && Native(interests[source]) && WellFormed(interests[source])
    ensures Matches(interests, Event(source, interests[source].subject, FilterOf(interests[source]), false))
    ensures interests[source].readiness in Waiters(interests, source)
  {
    assert SameKey(interests[source], interests[source]);
  }

  lemma OneMoreEvent(interests: seq<Interest>, events: seq<Event>, k: nat)
    requires k < |events| && forall j | 0 <= j <= k :: Matches(interests, events[j])
    ensures EventWaiters(interests, events[..k + 1]) == EventWaiters(interests, events[..k]) + Waiters(interests, events[k].source)
  {
    hide WellFormed, FilterOf;
    assert events[..k + 1] == events[..k] + [events[k]];
  }

  lemma NothingSettled(interests: seq<Interest>, native: seq<nat>)
    ensures Settled([]) == 0 && AllAccepted(interests, native, []) && GoneWaiters(interests, native, []) == {}
    ensures Requested(interests, native, [], [])
  {
  }

  /// One more answer.
  lemma OneMoreAnswer(interests: seq<Interest>, native: seq<nat>, given: seq<Answer>, a: Answer)
    ensures Settled(given + [a]) == Settled(given) + if a.Interrupted? then 0 else 1
    ensures GoneWaiters(interests, native, given + [a])
            == var k := Settled(given);
               GoneWaiters(interests, native, given)
               + if a.MissingProcess? && k < |native| && native[k] < |interests| then Waiters(interests, native[k]) else {}
    ensures AllAccepted(interests, native, given) && Accepts(interests, native, Settled(given), a) ==> AllAccepted(interests, native, given + [a])
    ensures (given + [a])[..|given|] == given
  {
    hide Waiters, Accepts;
    assert (given + [a])[..|given|] == given;
    assert forall i: nat | i <= |given| :: (given + [a])[..i] == given[..i];
  }

  /// One more call.
  lemma OneMoreCall(interests: seq<Interest>, native: seq<nat>, given: seq<Answer>, calls: seq<Call>, call: Call, a: Answer)
    requires Requested(interests, native, given, calls) && |calls| == |given| && AsksFor(interests, native, Settled(given), call)
    ensures Requested(interests, native, given, calls + [call]) && Requested(interests, native, given + [a], calls + [call])
  {
    hide AsksFor, Settled;
    assert given[..|given|] == given;
    assert forall i: nat | i <= |given| :: (given + [a])[..i] == given[..i];
  }

  /// One round of the wait: the reading its timeout is computed from, its call, the answer, and the
  /// reading after an answer without events. What did not happen is `None`.
  datatype Round = Round(reading: Option<Word64>, call: Option<Call>, answer: Option<Answer>, again: Option<Word64>)

  /// What all rounds of a wait share.
  datatype Setting = Setting(capacity: nat, limit: nat, earliest: Word64, immediateReady: bool, frequency: Word64) {
    predicate Timed() {
      !immediateReady && earliest != NO_DEADLINE
    }

    /// No limit without a deadline, none to wait for what is ready, and otherwise the time that is left.
    predicate Limits(reading: Option<Word64>, timeout: Option<Timespec>) {
      if immediateReady then reading.None? && timeout == Some(Timespec(0, 0))
      else if earliest == NO_DEADLINE then reading.None? && timeout.None?
      else reading.Some? && timeout.Some? && Lasts(timeout.value, reading.value)
    }

    predicate Lasts(t: Timespec, now: Word64) {
      && t.nanoseconds < 1_000_000_000 && Timeout(earliest, now, frequency).Some?
      && t.seconds * 1_000_000_000 + t.nanoseconds == Timeout(earliest, now, frequency).value * NANOSECONDS_PER_MILLISECOND
    }

    predicate Asked(r: Round) {
      r.call.Some? && r.call.value.WaitFor? && r.call.value.capacity == capacity && Limits(r.reading, r.call.value.timeout)
    }

    /// The time left for a deadline that is not eligible cannot be told.
    predicate Stalls(now: Word64) {
      !Eligible(earliest, now) && !ValidFrequency(frequency)
    }

    /// Another call follows an interruption, and an empty answer while there is something to wait for.
    predicate GoesOn(r: Round) {
      && Asked(r) && r.answer.Some?
      && match r.answer.value
         case Interrupted => r.again.None?
         case Returned(events) =>
           && events == [] && !immediateReady
           && (if earliest == NO_DEADLINE then r.again.None?
               else r.again.Some? && !Eligible(earliest, r.again.value) && !Stalls(r.again.value))
         case _ => false
    }

    /// The wait is over.
    predicate Wakes(r: Round, events: seq<Event>) {
      && Asked(r) && r.answer == Some(Returned(events)) && |events| <= limit
      && (if events == [] && !immediateReady then Timed() && r.again.Some? && Eligible(earliest, r.again.value)
          else r.again.None?)
    }

    /// The answer is an error or too long, or the time left cannot be told.
    predicate Fails(r: Round) {
      || (Asked(r) && r.again.None? && r.answer.Some?
          && match r.answer.value
             case Interrupted => false
             case Returned(events) => |events| > limit
             case _ => true)
      || (Asked(r) && Timed() && r.answer == Some(Returned([])) && r.again.Some? && Stalls(r.again.value))
      || (Timed() && r.reading.Some? && Stalls(r.reading.value) && r.call.None? && r.answer.None? && r.again.None?)
    }

    /// There is no further answer, or no further reading.
    predicate Starves(r: Round, answers: seq<Answer>, clock: seq<Word64>) {
      || (Asked(r) && r.answer.None? && r.again.None? && answers == [])
      || (Asked(r) && Timed() && r.answer == Some(Returned([])) && r.again.None? && clock == [])
      || (Timed() && r == Round(None, None, None, None) && clock == [])
    }

    predicate Ends(r: Round, outcome: Outcome, events: seq<Event>, answers: seq<Answer>, clock: seq<Word64>) {
      match outcome
      case Woken => Wakes(r, events)
      case WaitFailure => Fails(r)
      case Blocked => Starves(r, answers, clock)
      case RecordCorruption => false
    }

    /// All rounds but the last go on.
    predicate WaitEnds(rounds: seq<Round>, outcome: Outcome, events: seq<Event>, answers: seq<Answer>, clock: seq<Word64>) {
      && rounds != [] && (forall k | 0 <= k < |rounds| - 1 :: GoesOn(rounds[k]))
      && Ends(rounds[|rounds| - 1], outcome, events, answers, clock)
    }

    lemma LastRound(rounds: seq<Round>, outcome: Outcome, events: seq<Event>, answers: seq<Answer>, clock: seq<Word64>)
      requires rounds != [] && Ends(rounds[|rounds| - 1], outcome, events, answers, clock)
      requires forall k | 0 <= k < |rounds| - 1 :: GoesOn(rounds[k])
      ensures WaitEnds(rounds, outcome, events, answers, clock)
    {
    }

    /// A round has one meaning.
    lemma RoundsEndInOneWay(r: Round, outcome: Outcome, events: seq<Event>, answers: seq<Answer>, clock: seq<Word64>,
                            other: Outcome, otherEvents: seq<Event>)
      requires Ends(r, outcome, events, answers, clock)
      ensures !GoesOn(r) && (Ends(r, other, otherEvents, answers, clock) ==> other == outcome)
    {
    }
  }

  lemma NoRounds()
    ensures Answers([]) == [] && Readings([]) == [] && Calls([]) == []
  {
  }

  function Listed<T>(x: Option<T>): seq<T> {
    if x.Some? then [x.value] else []
  }

  /// What the rounds take from the kernel and from the counter, and ask for.
  function Answers(rounds: seq<Round>): seq<Answer> {
    if rounds == [] then [] else Answers(rounds[..|rounds| - 1]) + Listed(rounds[|rounds| - 1].answer)
  }

  function Readings(rounds: seq<Round>): seq<Word64> {
    if rounds == [] then []
    else Readings(rounds[..|rounds| - 1]) + Listed(rounds[|rounds| - 1].reading) + Listed(rounds[|rounds| - 1].again)
  }

  function Calls(rounds: seq<Round>): seq<Call> {
    if rounds == [] then [] else Calls(rounds[..|rounds| - 1]) + Listed(rounds[|rounds| - 1].call)
  }

  lemma OneMoreRound(rounds: seq<Round>, r: Round)
    ensures Answers(rounds + [r]) == Answers(rounds) + Listed(r.answer)
    ensures Readings(rounds + [r]) == Readings(rounds) + Listed(r.reading) + Listed(r.again)
    ensures Calls(rounds + [r]) == Calls(rounds) + Listed(r.call)
  {
    hide Listed;
    assert (rounds + [r])[..|rounds|] == rounds;
  }

  // ---------------------------------------------------------------- returned events

  /// An event without an error that names its interest.
  predicate Clean(interests: seq<Interest>, e: Event) {
    !e.error && Matches(interests, e)
  }

  /// The first event that is not clean.
  predicate FirstFault(interests: seq<Interest>, events: seq<Event>, k: nat) {
    k < |events| && !Clean(interests, events[k]) && forall j | 0 <= j < k :: Clean(interests, events[j])
  }

  /// An error fails the wait, an event that names no such interest is a corrupt record.
  ghost predicate SignalsEnd(interests: seq<Interest>, events: seq<Event>, outcome: Outcome) {
    match outcome
    case Woken => forall k | 0 <= k < |events| :: Clean(interests, events[k])
    case WaitFailure => exists k: nat :: FirstFault(interests, events, k) && events[k].error
    case RecordCorruption => exists k: nat :: FirstFault(interests, events, k) && !events[k].error
    case Blocked => false
  }

  /// Native interests are told apart by the subject and the filter that are registered for them.
  lemma RegistrationsTellKeys(x: Interest, y: Interest)
    requires Native(x) && Native(y) && WellFormed(x) && WellFormed(y)
    ensures SameKey(x, y) <==> x.subject == y.subject && FilterOf(x) == FilterOf(y)
    ensures x.kind == PROCESS_EXIT ==> FilterOf(x) == 0x1_0000 - 5
    ensures x.kind == DESCRIPTOR ==> FilterOf(x) == 0x1_0000 - if x.detail == WRITABLE then 2 else 1
  {
  }

  /// No milliseconds are left exactly of an eligible deadline, and only a frequency out of range keeps
  /// the time that is left from being told.
  lemma TimeoutTells(deadline: Word64, now: Word64, frequency: Word64)
    requires deadline != NO_DEADLINE
    ensures Timeout(deadline, now, frequency) == Some(0) <==> Eligible(deadline, now)
    ensures Timeout(deadline, now, frequency).None? <==> !Eligible(deadline, now) && !ValidFrequency(frequency)
    ensures Timeout(deadline, now, frequency).Some? ==> Timeout(deadline, now, frequency).value <= MAX_TIMEOUT
  {
  }

  lemma NothingRegistered(interests: seq<Interest>)
    requires Words(interests)
    ensures Registrations(interests, 0) == [] && Earliest(interests, 0) == NO_DEADLINE
  {
  }

  lemma NextRegistration(interests: seq<Interest>, i: nat)
    requires Words(interests) && i < |interests|
    ensures Registrations(interests, i + 1) == Registrations(interests, i) + if First(interests, i) then [i] else []
    ensures Earliest(interests, i + 1) ==
            var before := Earliest(interests, i);
            if interests[i].kind == TIMER && interests[i].subject < before then interests[i].subject else before
  {
  }

  class Waiter {
    const interests: seq<Interest>
    const frequency: Word64
    /// What the kernel and the counter will answer.
    var answers: seq<Answer>
    var clock: seq<Word64>
    var earliest: Word64
    var native: seq<nat>
    var immediateReady: bool
    var events: seq<Event>
    /// What the kernel was asked for.
    ghost var calls: seq<Call>
    /// Readiness words that were set.
    var signalled: set<nat>

    constructor (interests: seq<Interest>, frequency: Word64, answers: seq<Answer>, clock: seq<Word64>)
      ensures this.interests == interests && this.frequency == frequency && this.answers == answers && this.clock == clock
      ensures signalled == {} && !immediateReady && events == [] && native == [] && calls == []
    {
      this.interests, this.frequency, this.answers, this.clock := interests, frequency, answers, clock;
      earliest, native, immediateReady, events, signalled, calls := NO_DEADLINE, [], false, [], {}, [];
    }

    /// Validates every record, drops native interests whose key is already registered, and finds the
    /// earliest deadline.
    method Translate() returns (ok: bool)
      requires Words(interests) && native == []
      modifies this`earliest, this`native
      ensures ok <==> forall i | 0 <= i < |interests| :: WellFormed(interests[i])
      ensures ok ==> native == Registrations(interests, |interests|) && earliest == Earliest(interests, |interests|)
    {
      hide WellFormed, Registrations, Earliest;
      NothingRegistered(interests);
      earliest := NO_DEADLINE;
      for i := 0 to |interests|
        invariant forall j | 0 <= j < i :: WellFormed(interests[j])
        invariant native == Registrations(interests, i) && earliest == Earliest(interests, i)
      {
        ok := TranslateRecord(i);
        if !ok { return; }
      }
      ok := true;
    }

    method TranslateRecord(i: nat) returns (ok: bool)
      requires Words(interests) && i < |interests| && forall j | 0 <= j < i :: WellFormed(interests[j])
      requires native == Registrations(interests, i) && earliest == Earliest(interests, i)
      modifies this`earliest, this`native
      ensures ok <==> WellFormed(interests[i])
      ensures ok ==> native == Registrations(interests, i + 1) && earliest == Earliest(interests, i + 1)
    {
      NextRegistration(interests, i);
      hide Registrations, Earliest;
      var record := interests[i];
      if record.readiness == 0 { return false; }
      if record.kind == DESCRIPTOR || record.kind == PROCESS_EXIT {
        var prior := HasPriorKey(i);
        if !prior {
          if record.kind == DESCRIPTOR {
            if record.subject > MAX_SUBJECT { return false; }
            if record.detail != READABLE && record.detail != WRITABLE { return false; }
          } else {
            if record.detail != 0 { return false; }
            if record.subject == 0 || record.subject > MAX_SUBJECT { return false; }
          }
          native := native + [i];
        }
      } else if record.kind == TIMER {
        if record.detail != 0 { return false; }
        if record.subject < earliest { earliest := record.subject; }
      } else {
        return false;
      }
      return true;
    }

    method HasPriorKey(i: nat) returns (prior: bool)
      requires i < |interests|
      ensures prior <==> exists j | 0 <= j < i :: SameKey(interests[j], interests[i])
    {
      for j := 0 to i
        invariant forall k | 0 <= k < j :: !SameKey(interests[k], interests[i])
      {
        if SameKey(interests[j], interests[i]) { return true; }
      }
      return false;
    }

    method Ask(ghost call: Call) returns (answer: Option<Answer>)
      modifies this`answers, this`calls
      ensures calls == old(calls) + [call] && old(answers) == Listed(answer) + answers
      ensures answer.None? ==> answers == []
    {
      calls := calls + [call];
      if answers == [] { return None; }
      answer := Some(answers[0]);
      answers := answers[1..];
    }

    /// Registers the native interests one by one, each until the kernel has answered without an
    /// interruption. A process that is already gone counts as an event that happened at once.
    method Submit() returns (outcome: Outcome, ghost given: seq<Answer>, ghost asked: seq<Call>)
      requires Sources(interests, native)
      requires forall i | 0 <= i < |interests| :: WellFormed(interests[i])
      requires !immediateReady && signalled == {}
      modifies this`answers, this`immediateReady, this`signalled, this`calls
      ensures old(answers) == given + answers && SubmissionEnds(interests, native, given, outcome, answers)
      ensures calls == old(calls) + asked && Requested(interests, native, given, asked)
      ensures |asked| == |given| + if outcome.Blocked? then 1 else 0
      ensures outcome.Woken? ==> signalled == GoneWaiters(interests, native, given)
      ensures outcome.Woken? ==> (immediateReady <==> signalled != {})
    {
      hide Settled, GoneWaiters, Waiters, WellFormed, FilterOf, AllAccepted, Requested, Request;
      given, asked := [], [];
      NothingSettled(interests, native);
      var k := 0;
      while k < |native|
        invariant k == Settled(given) <= |native| && AllAccepted(interests, native, given)
        invariant old(answers) == given + answers && calls == old(calls) + asked
        invariant Requested(interests, native, given, asked) && |asked| == |given|
        invariant signalled == GoneWaiters(interests, native, given) && (immediateReady <==> signalled != {})
        decreases |native| - k, |answers|
      {
        var ended, settled;
        ghost var answer;
        ended, settled, answer := SubmitOne(k);
        var call := Request(interests, native[k]);
        OneMoreCall(interests, native, given, asked, call, if answer.Some? then answer.value else OtherError);
        asked := asked + [call];
        if answer.Some? {
          OneMoreAnswer(interests, native, given, answer.value);
          given := given + [answer.value];
        }
        if ended.Some? { return ended.value, given, asked; }
        if settled { k := k + 1; }
      }
      return Woken, given, asked;
    }

    /// One call for registration `k`, and what its answer means for it.
    method SubmitOne(k: nat) returns (ended: Option<Outcome>, settled: bool, ghost answer: Option<Answer>)
      requires Sources(interests, native) && k < |native|
      requires forall i | 0 <= i < |interests| :: WellFormed(interests[i])
      modifies this`answers, this`immediateReady, this`signalled, this`calls
      ensures calls == old(calls) + [Request(interests, native[k])] && old(answers) == Listed(answer) + answers
      ensures answer.None? ==> ended == Some(Blocked) && answers == []
      ensures answer.Some? ==> ended == if Accepts(interests, native, k, answer.value) then None else Some(WaitFailure)
      ensures ended.None? ==> settled == !answer.value.Interrupted?
      ensures ended.None? ==>
                && signalled == old(signalled) + (if answer.value.MissingProcess? then Waiters(interests, native[k]) else {})
                && (immediateReady <==> old(immediateReady) || answer.value.MissingProcess?)
      ensures ended.None? && answer.value.MissingProcess? ==> signalled != {}
      ensures ended.None? && !answer.value.Interrupted? ==> answers == old(answers)[1..]
    {
      hide Waiters, WellFormed, FilterOf, Matches;
      settled := false;
      var source := native[k];
      var given := Ask(Request(interests, source));
      answer := given;
      if given.None? { return Some(Blocked), false, answer; }
      match given.value {
        case Interrupted =>
        case OtherError => return Some(WaitFailure), false, answer;
        case Returned(events) =>
          if events != [] { return Some(WaitFailure), false, answer; }
          settled := true;
        case MissingProcess =>
          FilterTellsProcesses(interests[source]);
          if FilterOf(interests[source]) != PROCESS_FILTER { return Some(WaitFailure), false, answer; }
          MatchesItself(interests, source);
          var ok := SignalEvent(Event(source, interests[source].subject, FilterOf(interests[source]), false));
          immediateReady, settled := true, true;
      }
      ended := None;
    }

    /// Validates one event against the interest it names, and signals every interest with the key.
    method SignalEvent(e: Event) returns (ok: bool)
      requires forall i | 0 <= i < |interests| :: WellFormed(interests[i])
      modifies this`signalled
      ensures ok <==> Matches(interests, e)
      ensures signalled == if ok then old(signalled) + Waiters(interests, e.source) else old(signalled)
    {
      if e.source >= |interests| { return false; }
      var source := interests[e.source];
      if source.kind != DESCRIPTOR && source.kind != PROCESS_EXIT { return false; }
      if source.subject != e.subject { return false; }
      if FilterOf(source) != e.filter { return false; }
      ghost var before := signalled;
      for i := 0 to |interests|
        invariant signalled == before + set j | 0 <= j < i && SameKey(interests[j], source) :: interests[j].readiness
      {
        if SameKey(interests[i], source) { signalled := signalled + {interests[i].readiness}; }
      }
      return true;
    }

    ghost function Shared(): Setting
      reads this
    {
      Setting(|interests|, |native|, earliest, immediateReady, frequency)
    }

    /// Asks until an event arrives, something was ready at once, or the earliest deadline is eligible.
    /// A timeout is computed afresh for every call.
    method WaitUntilReady() returns (outcome: Outcome, ghost rounds: seq<Round>)
      modifies this`answers, this`clock, this`events, this`calls
      ensures Shared().WaitEnds(rounds, outcome, events, answers, clock)
      ensures old(answers) == Answers(rounds) + answers && old(clock) == Readings(rounds) + clock
      ensures calls == old(calls) + Calls(rounds)
    {
      hide Answers, Readings, Calls, Listed, Setting.GoesOn, Setting.Ends, Setting.WaitEnds;
      rounds := [];
      NoRounds();
      while true
        invariant old(answers) == Answers(rounds) + answers && old(clock) == Readings(rounds) + clock
        invariant calls == old(calls) + Calls(rounds) && Shared() == old(Shared())
        invariant forall k | 0 <= k < |rounds| :: Shared().GoesOn(rounds[k])
        decreases |answers|
      {
        var ended;
        ghost var round;
        ended, round := AskOnce();
        OneMoreRound(rounds, round);
        rounds := rounds + [round];
        if ended.Some? {
          Shared().LastRound(rounds, ended.value, events, answers, clock);
          return ended.value, rounds;
        }
      }
    }

    /// One call of the kernel, and what its answer means for the wait.
    method AskOnce() returns (ended: Option<Outcome>, ghost r: Round)
      modifies this`answers, this`clock, this`events, this`calls
      ensures if ended.Some? then Shared().Ends(r, ended.value, events, answers, clock)
              else Shared().GoesOn(r) && |answers| < |old(answers)|
      ensures old(answers) == Listed(r.answer) + answers && old(clock) == Listed(r.reading) + Listed(r.again) + clock
      ensures calls == old(calls) + Listed(r.call)
    {
      hide Timeout, Eligible, ValidFrequency;
      var prepared, timeout;
      ghost var reading;
      prepared, timeout, reading := PrepareTimeout();
      if !prepared.Woken? { return Some(prepared), Round(reading, None, None, None); }
      ghost var call := WaitFor(|interests|, timeout);
      var answer := Ask(call);
      r := Round(reading, Some(call), answer, None);
      if answer.None? { return Some(Blocked), r; }
      if answer.value.Interrupted? { return None, r; }
      if !answer.value.Returned? { return Some(WaitFailure), r; }
      if |answer.value.events| > |native| { return Some(WaitFailure), r; }
      events := answer.value.events;
      if events != [] { return Some(Woken), r; }
      if immediateReady { return Some(Woken), r; }
      if earliest == NO_DEADLINE { return None, r; }
      ghost var again;
      ended, again := ReadAgain();
      r := r.(again := again);
    }

    /// Nothing arrived: the wait goes on unless no time is left.
    method ReadAgain() returns (ended: Option<Outcome>, ghost reading: Option<Word64>)
      requires earliest != NO_DEADLINE
      modifies this`clock
      ensures old(clock) == Listed(reading) + clock
      ensures ended == Some(Woken) <==> reading.Some? && Eligible(earliest, reading.value)
      ensures ended == Some(WaitFailure) <==> reading.Some? && Shared().Stalls(reading.value)
      ensures ended == Some(Blocked) <==> reading.None?
      ensures reading.None? ==> clock == []
      ensures ended != Some(RecordCorruption)
    {
      if clock == [] { return Some(Blocked), None; }
      reading := Some(clock[0]);
      TimeoutTells(earliest, clock[0], frequency);
      hide Timeout, Eligible, ValidFrequency;
      var trap, milliseconds := ConvertDeadline(earliest, clock[0], frequency);
      clock := clock[1..];
      if trap { return Some(WaitFailure), reading; }
      if milliseconds > 0 { return None, reading; }
      return Some(Woken), reading;
    }

    /// No time limit and no counter reading without a deadline, none at all to wait for what is ready.
    method PrepareTimeout() returns (outcome: Outcome, timeout: Option<Timespec>, ghost reading: Option<Word64>)
      modifies this`clock
      ensures old(clock) == Listed(reading) + clock
      ensures outcome.Woken? ==> Shared().Limits(reading, timeout)
      ensures outcome.WaitFailure? <==> Shared().Timed() && reading.Some? && Shared().Stalls(reading.value)
      ensures outcome.Blocked? <==> Shared().Timed() && reading.None?
      ensures outcome.Blocked? ==> clock == []
      ensures !outcome.RecordCorruption?
    {
      reading := None;
      var milliseconds: Word64 := 0;
      if !immediateReady {
        if earliest == NO_DEADLINE { return Woken, None, None; }
        if clock == [] { return Blocked, None, None; }
        reading := Some(clock[0]);
        TimeoutTells(earliest, clock[0], frequency);
        var trap;
        trap, milliseconds := ConvertDeadline(earliest, clock[0], frequency);
        clock := clock[1..];
        if trap { return WaitFailure, None, reading; }
      }
      hide Timeout, Eligible, ValidFrequency;
      var t := BuildTimespec(milliseconds);
      return Woken, Some(t), reading;
    }

    /// Every returned event must be free of errors and match its interest.
    method SignalNativeEvents() returns (outcome: Outcome)
      requires forall i | 0 <= i < |interests| :: WellFormed(interests[i])
      modifies this`signalled
      ensures SignalsEnd(interests, events, outcome)
      ensures outcome.Woken? ==> signalled == old(signalled) + EventWaiters(interests, events)
    {
      hide Matches, WellFormed;
      for k := 0 to |events|
        invariant forall j | 0 <= j < k :: Clean(interests, events[j])
        invariant signalled == old(signalled) + EventWaiters(interests, events[..k])
      {
        if events[k].error {
          assert FirstFault(interests, events, k);
          return WaitFailure;
        }
        var ok := SignalEvent(events[k]);
        if !ok {
          assert FirstFault(interests, events, k);
          return RecordCorruption;
        }
        assert events[..k + 1] == events[..k] + [events[k]];
        OneMoreEvent(interests, events, k);
      }
      assert events[..|events|] == events;
      return Woken;
    }

    /// One fresh counter reading decides for every timer.
    method SignalExpiredTimers() returns (outcome: Outcome)
      requires Words(interests) && forall i | 0 <= i < |interests| :: WellFormed(interests[i])
      modifies this`signalled, this`clock
      ensures old(clock) == [] ==> outcome.Blocked? && clock == [] && signalled == old(signalled)
      ensures old(clock) != [] ==> outcome.Woken? && clock == old(clock)[1..]
      ensures outcome.Woken? ==> signalled == old(signalled) + Expired(interests, old(clock)[0])
    {
      if clock == [] { return Blocked; }
      var now := clock[0];
      clock := clock[1..];
      ghost var before := signalled;
      for i := 0 to |interests|
        invariant clock == old(clock)[1..]
        invariant signalled == before + set j | 0 <= j < i && interests[j].kind == TIMER && Eligible(interests[j].subject, now)
                                        :: interests[j].readiness
      {
        if interests[i].kind == TIMER {
          var distance := Subtract64(interests[i].subject, now);
          if distance == 0 || distance > FURTHEST { signalled := signalled + {interests[i].readiness}; }
        }
      }
      return Woken;
    }

    /// What the kernel may be asked about.
    ghost predicate Acceptable() {
      && interests != [] && |interests| <= 0x7FFF_FFFF
      && forall i | 0 <= i < |interests| :: WellFormed(interests[i])
    }

    /// How the wait ends: in the submission, in a round, at a returned event, or after a last reading of
    /// the counter.
    ghost predicate Ended(outcome: Outcome, given: seq<Answer>, rounds: seq<Round>, last: Option<Word64>)
      reads this
    {
      if rounds == [] then !outcome.Woken? && last.None? && SubmissionEnds(interests, native, given, outcome, answers)
      else
        && SubmissionEnds(interests, native, given, Woken, answers)
        && (immediateReady <==> GoneWaiters(interests, native, given) != {})
        && (|| (!outcome.Woken? && last.None? && RoundsEnd(rounds, outcome))
            || (!outcome.Woken? && last.None? && RoundsEnd(rounds, Woken) && SignalsEnd(interests, events, outcome))
            || (RoundsEnd(rounds, Woken) && SignalsEnd(interests, events, Woken)
                && if last.Some? then outcome.Woken? else outcome.Blocked? && clock == []))
    }

    ghost predicate RoundsEnd(rounds: seq<Round>, outcome: Outcome)
      reads this
    {
      Shared().WaitEnds(rounds, outcome, events, answers, clock)
    }

    /// MAIN RESULT. The wait ends as its answers and readings say, and in no other way. When it returns,
    /// it has set the readiness words of those who wait for a process that was gone, for the key of a
    /// returned event or for a deadline that is eligible at the last reading, and no others. It has set
    /// at least one, unless half a counter period passed between the last two readings.
    method Wait() returns (outcome: Outcome, ghost given: seq<Answer>, ghost asked: seq<Call>, ghost rounds: seq<Round>, ghost last: Option<Word64>)
      requires Words(interests) && native == [] && signalled == {} && !immediateReady && events == [] && calls == []
      modifies this
      ensures old(answers) == given + Answers(rounds) + answers && old(clock) == Readings(rounds) + Listed(last) + clock
      ensures if Acceptable()
              then && native == Registrations(interests, |interests|) && earliest == Earliest(interests, |interests|)
                   && Ended(outcome, given, rounds, last)
              else outcome.RecordCorruption? && given == [] && asked == [] && rounds == [] && last.None?
      ensures calls == asked + Calls(rounds) && (Acceptable() ==> Requested(interests, native, given, asked))
      ensures |asked| == |given| + if rounds == [] && outcome.Blocked? then 1 else 0
      ensures outcome.Woken? ==>
                && signalled == GoneWaiters(interests, native, given) + EventWaiters(interests, events) + Expired(interests, last.value)
                && forall r | r in signalled :: exists i | 0 <= i < |interests| :: interests[i].readiness == r
      ensures outcome.Woken? ==>
                || signalled != {}
                || var seen := rounds[|rounds| - 1].again;
                   seen.Some? && Eligible(earliest, seen.value) && !Eligible(earliest, last.value)
    {
      hide Registrations, Earliest, WellFormed, Matches, Eligible, EventWaiters, GoneWaiters, Expired, Answers, Readings, Calls,
           Requested, SubmissionEnds, Setting.GoesOn, Setting.Fails, Setting.Starves, Setting.Asked, SignalsEnd;
      given, asked, rounds, last := [], [], [], None;
      NoRounds();
      if interests == [] || |interests| > 0x7FFF_FFFF { return RecordCorruption, given, asked, rounds, last; }
      var ok := Translate();
      if !ok { return RecordCorruption, given, asked, rounds, last; }
      RegistrationsAreNative(interests);
      outcome, given, asked := Submit();
      if !outcome.Woken? { return; }
      SubmissionIsOver(interests, native, given, answers);
      outcome, rounds := WaitUntilReady();
      if !outcome.Woken? { return; }
      outcome := SignalNativeEvents();
      if !outcome.Woken? { return; }
      if clock != [] { last := Some(clock[0]); }
      outcome := SignalExpiredTimers();
      if !outcome.Woken? { return; }
      AllMatch(interests, events);
      SignalsAreInterests(interests, native, given, events, last.value);
      if events != [] {
        EventsHaveWaiters(interests, events);
      } else if !immediateReady && Eligible(earliest, last.value) {
        EarliestExpires(interests, last.value);
      }
    }
  }

  /// The answers that are left say nothing about a submission that went through.
  lemma SubmissionIsOver(interests: seq<Interest>, native: seq<nat>, given: seq<Answer>, left: seq<Answer>)
    requires SubmissionEnds(interests, native, given, Woken, left)
    ensures forall others: seq<Answer> :: SubmissionEnds(interests, native, given, Woken, others)
  {
  }

  lemma AllMatch(interests: seq<Interest>, events: seq<Event>)
    requires SignalsEnd(interests, events, Woken)
    ensures forall k | 0 <= k < |events| :: Matches(interests, events[k])
  {
  }

  lemma RegistrationsAreNative(interests: seq<Interest>)
    ensures var r := Registrations(interests, |interests|);
            forall k | 0 <= k < |r| :: r[k] < |interests| && Native(interests[r[k]])
  {
    var r := Registrations(interests, |interests|);
    assert forall k | 0 <= k < |r| :: First(interests, r[k]);
  }

  lemma SignalsAreInterests(interests: seq<Interest>, native: seq<nat>, given: seq<Answer>, events: seq<Event>, now: Word64)
    requires Words(interests) && forall k | 0 <= k < |events| :: Matches(interests, events[k])
    ensures forall r | r in GoneWaiters(interests, native, given) + EventWaiters(interests, events) + Expired(interests, now) ::
              exists i | 0 <= i < |interests| :: interests[i].readiness == r
  {
    hide WellFormed, FilterOf, Eligible;
    GoneAreInterests(interests, native, given);
  }

  lemma {:induction false} GoneAreInterests(interests: seq<Interest>, native: seq<nat>, given: seq<Answer>)
    ensures forall r | r in GoneWaiters(interests, native, given) :: exists i | 0 <= i < |interests| :: interests[i].readiness == r
  {
    if given != [] { GoneAreInterests(interests, native, given[..|given| - 1]); }
  }

  lemma EventsHaveWaiters(interests: seq<Interest>, events: seq<Event>)
    requires events != [] && forall k | 0 <= k < |events| :: Matches(interests, events[k])
    ensures EventWaiters(interests, events) != {}
  {
    assert SameKey(interests[events[0].source], interests[events[0].source]);
    assert interests[events[0].source].readiness in EventWaiters(interests, events);
  }

  /// The earliest deadline belongs to a timer.
  lemma EarliestExpires(interests: seq<Interest>, now: Word64)
    requires Words(interests) && Earliest(interests, |interests|) != NO_DEADLINE
    requires Eligible(Earliest(interests, |interests|), now)
    ensures Expired(interests, now) != {}
  {
    var e := Earliest(interests, |interests|);
    var i :| 0 <= i < |interests| && interests[i].kind == TIMER && interests[i].subject == e;
    assert interests[i].readiness in Expired(interests, now);
  }
}
