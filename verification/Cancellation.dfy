/**
 The cancel entry of a deferred function: the state tag chooses the cleanup, every action of that state
 happens once and in order, and the frame is unmapped last.
 */
module Cancellation {
  import opened Results

  datatype Action =
    | ReleaseAwaited(field: nat)
    | Destroy(address: nat, initialized: Option<nat>, function_: nat)
    | ReleaseRegion(field: nat)
    | DestroyPack

  datatype State = State(tag: nat, actions: seq<Action>)

  /// Cleanup by state, the tag of a completed function, and what destroys its output.
  datatype Plan = Plan(states: seq<State>, completed: nat, completedDestruction: Option<(nat, nat)>)

  /// A page of a region: the next page or 0, and its size.
  datatype Page = Page(next: nat, size: nat)

  datatype Event =
    | Cancelled(child: nat)
    | Destroyed(function_: nat, address: nat)
    | PageUnmapped(page: nat, size: nat)
    | PackDestroyed
    | FrameUnmapped

  /// The pages from `head` on, in order.
  predicate Chain(pages: map<nat, Page>, head: nat, order: seq<nat>)
    decreases |order|
  {
    if order == [] then head == 0
    else head != 0 && head == order[0] && head in pages && Chain(pages, pages[head].next, order[1..])
  }

  predicate Distinct(s: seq<nat>) {
    forall i, j | 0 <= i < j < |s| :: s[i] != s[j]
  }

  function Members(s: seq<nat>): set<nat> {
    set p | p in s
  }

  function Unmapping(pages: map<nat, Page>, order: seq<nat>): seq<Event>
    requires forall p | p in order :: p in pages
  {
    if order == [] then [] else [PageUnmapped(order[0], pages[order[0]].size)] + Unmapping(pages, order[1..])
  }

  lemma {:induction false} ChainIsMapped(pages: map<nat, Page>, head: nat, order: seq<nat>)
    requires Chain(pages, head, order)
    ensures forall p | p in order :: p in pages
    decreases |order|
  {
    if order != [] {
      ChainIsMapped(pages, pages[head].next, order[1..]);
    }
  }

  /// Unmapping the first page leaves the rest of the chain.
  lemma {:induction false} ChainWithout(pages: map<nat, Page>, head: nat, order: seq<nat>, page: nat)
    requires Chain(pages, head, order) && page !in order
    ensures Chain(pages - {page}, head, order)
    decreases |order|
  {
    if order != [] {
      ChainWithout(pages, pages[head].next, order[1..], page);
    }
  }

  /// What one action does. A region field heads its own chain of pages.
  function ActionTrace(a: Action, words: map<nat, nat>, pages: map<nat, Page>, chains: map<nat, seq<nat>>): seq<Event>
    requires FieldsPresent(a, words, pages, chains)
  {
    match a
    case ReleaseAwaited(field) => [Cancelled(words[field])]
    case Destroy(address, initialized, f) =>
      if initialized.Some? && words[initialized.value] == 0 then [] else [Destroyed(f, address)]
    case ReleaseRegion(field) =>
      ChainIsMapped(pages, words[field], chains[field]);
      Unmapping(pages, chains[field])
    case DestroyPack => [PackDestroyed]
  }

  /// What the actions of one state do.
  function Trace(actions: seq<Action>, words: map<nat, nat>, pages: map<nat, Page>, chains: map<nat, seq<nat>>): seq<Event>
    requires Ready(actions, words, pages, chains)
  {
    if actions == [] then []
    else
      ReadyTail(actions, words, pages, chains);
      ActionTrace(actions[0], words, pages, chains) + Trace(actions[1..], words, pages, chains)
  }

  lemma ReadyTail(actions: seq<Action>, words: map<nat, nat>, pages: map<nat, Page>, chains: map<nat, seq<nat>>)
    requires actions != [] && Ready(actions, words, pages, chains)
    ensures FieldsPresent(actions[0], words, pages, chains) && Ready(actions[1..], words, pages, chains)
  {
    hide FieldsPresent, Independent;
    var rest := actions[1..];
    assert forall i | 0 <= i < |rest| :: rest[i] == actions[i + 1];
    forall i, j | 0 <= i < j < |rest| ensures Independent(rest[i], rest[j], chains) {
      assert Independent(actions[i + 1], actions[j + 1], chains);
    }
  }

  predicate FieldsPresent(a: Action, words: map<nat, nat>, pages: map<nat, Page>, chains: map<nat, seq<nat>>) {
    match a
    case ReleaseAwaited(field) => field in words
    case Destroy(_, initialized, _) => initialized.Some? ==> initialized.value in words
    case ReleaseRegion(field) =>
      field in words && field in chains && Chain(pages, words[field], chains[field]) && Distinct(chains[field])
    case DestroyPack => true
  }

  /// The regions of two actions share neither field nor page, and no action reads a region's head.
  predicate Independent(a: Action, b: Action, chains: map<nat, seq<nat>>) {
    && (a.ReleaseRegion? ==> !Reads(b, a.field))
    && (a.ReleaseRegion? && b.ReleaseRegion? && a.field in chains && b.field in chains ==>
          forall p | p in chains[a.field] :: p !in chains[b.field])
  }

  predicate Reads(a: Action, field: nat) {
    match a
    case ReleaseAwaited(f) => f == field
    case Destroy(_, initialized, _) => initialized == Some(field)
    case ReleaseRegion(f) => f == field
    case DestroyPack => false
  }

  predicate Ready(actions: seq<Action>, words: map<nat, nat>, pages: map<nat, Page>, chains: map<nat, seq<nat>>) {
    && (forall i | 0 <= i < |actions| :: FieldsPresent(actions[i], words, pages, chains))
    && (forall i, j | 0 <= i < j < |actions| :: Independent(actions[i], actions[j], chains))
  }

  /// The first state with the tag.
  function Find(states: seq<State>, tag: nat): Option<seq<Action>> {
    if states == [] then None else if states[0].tag == tag then Some(states[0].actions) else Find(states[1..], tag)
  }

  /// One region drained: its chain is gone, and the other actions do what they would have done.
  lemma RegionDrained(actions: seq<Action>, words: map<nat, nat>, pages: map<nat, Page>, chains: map<nat, seq<nat>>,
                      words1: map<nat, nat>, pages1: map<nat, Page>)
    requires actions != [] && actions[0].ReleaseRegion? && Ready(actions, words, pages, chains)
    requires FieldsPresent(actions[0], words, pages, chains)
    requires words1 == words[actions[0].field := 0] && pages1 == pages - Members(chains[actions[0].field])
    ensures Ready(actions[1..], words, pages, chains) && Ready(actions[1..], words1, pages1, chains)
    ensures Trace(actions[1..], words1, pages1, chains) == Trace(actions[1..], words, pages, chains)
  {
    ReadyTail(actions, words, pages, chains);
    var rest := actions[1..];
    forall i | 0 <= i < |rest| ensures Independent(actions[0], rest[i], chains) {
      assert Independent(actions[0], actions[i + 1], chains);
    }
    TraceIsKept(actions[0], rest, words, pages, chains, words1, pages1);
  }

  lemma ActionIsKept(a: Action, b: Action, words: map<nat, nat>, pages: map<nat, Page>, chains: map<nat, seq<nat>>,
                     words1: map<nat, nat>, pages1: map<nat, Page>)
    requires a.ReleaseRegion? && a.field in chains && FieldsPresent(b, words, pages, chains) && Independent(a, b, chains)
    requires words1 == words[a.field := 0] && pages1 == pages - Members(chains[a.field])
    ensures FieldsPresent(b, words1, pages1, chains)
    ensures ActionTrace(b, words1, pages1, chains) == ActionTrace(b, words, pages, chains)
  {
    if b.ReleaseRegion? {
      ChainKept(pages, words[b.field], chains[b.field], chains[a.field]);
    }
  }

  lemma {:induction false} TraceIsKept(a: Action, rest: seq<Action>, words: map<nat, nat>, pages: map<nat, Page>, chains: map<nat, seq<nat>>,
                                       words1: map<nat, nat>, pages1: map<nat, Page>)
    requires a.ReleaseRegion? && a.field in chains && Ready(rest, words, pages, chains)
    requires forall i | 0 <= i < |rest| :: Independent(a, rest[i], chains)
    requires words1 == words[a.field := 0] && pages1 == pages - Members(chains[a.field])
    ensures Ready(rest, words1, pages1, chains)
    ensures Trace(rest, words1, pages1, chains) == Trace(rest, words, pages, chains)
  {
    hide FieldsPresent, Independent, ActionTrace, Members;
    forall i | 0 <= i < |rest| ensures FieldsPresent(rest[i], words1, pages1, chains) {
      ActionIsKept(a, rest[i], words, pages, chains, words1, pages1);
    }
    if rest != [] {
      ActionIsKept(a, rest[0], words, pages, chains, words1, pages1);
      ReadyTail(rest, words, pages, chains);
      assert forall i | 0 <= i < |rest| - 1 :: rest[1..][i] == rest[i + 1];
      TraceIsKept(a, rest[1..], words, pages, chains, words1, pages1);
    }
  }

  lemma {:induction false} ChainKept(pages: map<nat, Page>, head: nat, order: seq<nat>, gone: seq<nat>)
    requires Chain(pages, head, order) && forall p | p in gone :: p !in order
    ensures Chain(pages - Members(gone), head, order)
    ensures (forall p | p in order :: p in pages && p in pages - Members(gone))
    ensures Unmapping(pages - Members(gone), order) == Unmapping(pages, order)
    decreases |order|
  {
    ChainIsMapped(pages, head, order);
    if order != [] {
      assert forall p | p in gone :: p !in order[1..];
      ChainKept(pages, pages[head].next, order[1..], gone);
    }
  }

  /// The head of a chain: its first page, or the end.
  predicate FirstOf(pages: map<nat, Page>, head: nat, order: seq<nat>) {
    if head == 0 then order == []
    else order != [] && order[0] == head && head in pages && Chain(pages, pages[head].next, order[1..])
  }

  lemma NextPage(pages: map<nat, Page>, head: nat, order: seq<nat>)
    requires Chain(pages, head, order)
    ensures FirstOf(pages, head, order)
  {
  }

  lemma RestWithoutFirst(s: seq<nat>)
    requires s != [] && Distinct(s)
    ensures Distinct(s[1..]) && s[0] !in s[1..]
  {
    assert forall i | 0 <= i < |s| - 1 :: s[1..][i] == s[i + 1];
  }

  lemma NoneGone(pages: map<nat, Page>, order: seq<nat>)
    ensures pages - Members(order[..0]) == pages && Unmapping(pages, []) == []
  {
  }

  lemma OneMoreGone(pages: map<nat, Page>, order: seq<nat>, done: nat)
    requires done < |order|
    ensures pages - Members(order[..done]) - {order[done]} == pages - Members(order[..done + 1])
  {
    assert order[..done + 1] == order[..done] + [order[done]];
  }

  // ---------------------------------------------------------------- the entry

  /// The frame of a deferred function that is cancelled: its words by offset, and the mapped pages.
  class CancelledFrame {
    const plan: Plan
    var tag: nat
    var words: map<nat, nat>
    var pages: map<nat, Page>
    var mapped: bool
    ghost var log: seq<Event>

    constructor (plan: Plan, tag: nat, words: map<nat, nat>, pages: map<nat, Page>)
      ensures this.plan == plan && this.tag == tag && this.words == words && this.pages == pages && mapped && log == []
    {
      this.plan := plan;
      this.tag := tag;
      this.words := words;
      this.pages := pages;
      mapped := true;
      log := [];
    }

    /// The next page is read before its page is unmapped, so that no page is touched afterwards.
    method DrainRegion(field: nat, ghost order: seq<nat>)
      requires mapped && field in words && Chain(pages, words[field], order) && Distinct(order)
      modifies this`words, this`pages, this`log
      ensures words == old(words)[field := 0]
      ensures pages == old(pages) - Members(order)
      ensures (forall p | p in order :: p in old(pages)) && log == old(log) + Unmapping(old(pages), order)
    {
      hide Members, Distinct, Chain, Unmapping;
      ChainIsMapped(pages, words[field], order);
      NextPage(pages, words[field], order);
      NoneGone(pages, order);
      ghost var rest := order;
      while words[field] != 0
        invariant field in words && words == old(words)[field := words[field]]
        invariant |rest| <= |order| && rest == order[|order| - |rest|..] && Distinct(rest)
        invariant Chain(pages, words[field], rest) && FirstOf(pages, words[field], rest)
        invariant pages == old(pages) - Members(order[..|order| - |rest|])
        invariant forall p | p in rest :: p in pages && p in old(pages)
        invariant log + Unmapping(old(pages), rest) == old(log) + Unmapping(old(pages), order)
        decreases |rest|
      {
        var page := words[field];
        var next := pages[page].next;
        words := words[field := next];
        var size := pages[page].size;
        ghost var done := |order| - |rest|;
        assert page == rest[0] == order[done];
        RestWithoutFirst(rest);
        ChainWithout(pages, next, rest[1..], page);
        NextPage(pages - {page}, next, rest[1..]);
        UnmappingTail(old(pages), rest);
        log := log + [PageUnmapped(page, size)];
        pages := pages - {page};
        rest := rest[1..];
        OneMoreGone(old(pages), order, done);
      }
      assert rest == [] && order[..|order|] == order;
    }

    method Perform(a: Action, ghost chains: map<nat, seq<nat>>)
      requires mapped && FieldsPresent(a, words, pages, chains)
      modifies this`words, this`pages, this`log
      ensures log == old(log) + old(ActionTrace(a, words, pages, chains))
      ensures if a.ReleaseRegion? then words == old(words)[a.field := 0] && pages == old(pages) - Members(chains[a.field])
              else words == old(words) && pages == old(pages)
    {
      match a
      case ReleaseAwaited(field) => log := log + [Cancelled(words[field])];
      case Destroy(address, initialized, f) =>
        if initialized.Some? && words[initialized.value] == 0 {
          assert log == log + [];
        } else {
          log := log + [Destroyed(f, address)];
        }
      case ReleaseRegion(field) => DrainRegion(field, chains[field]);
      case DestroyPack => log := log + [PackDestroyed];
    }

    method PerformAll(actions: seq<Action>, ghost chains: map<nat, seq<nat>>)
      requires mapped && Ready(actions, words, pages, chains)
      modifies this`words, this`pages, this`log
      ensures log == old(log) + old(Trace(actions, words, pages, chains))
    {
      hide FieldsPresent, Independent, ActionTrace, Members;
      assert actions[0..] == actions;
      for i := 0 to |actions|
        invariant Ready(actions[i..], words, pages, chains)
        invariant log + Trace(actions[i..], words, pages, chains) == old(log) + old(Trace(actions, words, pages, chains))
      {
        ghost var rest := actions[i..];
        assert rest[0] == actions[i] && rest[1..] == actions[i + 1..];
        ReadyTail(rest, words, pages, chains);
        ghost var words0, pages0 := words, pages;
        Perform(actions[i], chains);
        if actions[i].ReleaseRegion? {
          RegionDrained(rest, words0, pages0, chains, words, pages);
        }
      }
    }

    /// The cleanup of the stored state, each action once and in order, and then the frame. A tag that
    /// no state has traps before anything happens.
    method Cancel(ghost chains: map<nat, seq<nat>>) returns (trapped: bool)
      requires mapped
      requires Find(plan.states, tag).Some? ==> Ready(Find(plan.states, tag).value, words, pages, chains)
      modifies this
      ensures trapped <==> Find(plan.states, old(tag)).None? && old(tag) != plan.completed
      ensures trapped ==> unchanged(this)
      ensures !trapped ==> !mapped
      ensures Find(plan.states, old(tag)).Some? ==>
                log == old(log) + old(Trace(Find(plan.states, tag).value, words, pages, chains)) + [FrameUnmapped]
      ensures Find(plan.states, old(tag)).None? && old(tag) == plan.completed ==>
                log == old(log) + (if plan.completedDestruction.Some?
                                   then [Destroyed(plan.completedDestruction.value.0, plan.completedDestruction.value.1)] else []) + [FrameUnmapped]
    {
      for i := 0 to |plan.states|
        invariant unchanged(this) && Find(plan.states[i..], tag) == Find(plan.states, tag)
      {
        assert plan.states[i..][0] == plan.states[i] && plan.states[i..][1..] == plan.states[i + 1..];
        if plan.states[i].tag == tag {
          PerformAll(plan.states[i].actions, chains);
          mapped := false;
          log := log + [FrameUnmapped];
          return false;
        }
      }
      if tag != plan.completed { return true; }
      if plan.completedDestruction.Some? {
        log := log + [Destroyed(plan.completedDestruction.value.0, plan.completedDestruction.value.1)];
      }
      mapped := false;
      log := log + [FrameUnmapped];
      return false;
    }
  }

  lemma UnmappingTail(pages: map<nat, Page>, order: seq<nat>)
    requires order != [] && forall p | p in order :: p in pages
    ensures Unmapping(pages, order) == [PageUnmapped(order[0], pages[order[0]].size)] + Unmapping(pages, order[1..])
  {
  }

  // ---------------------------------------------------------------- exactly once

  function UnmapCount(events: seq<Event>, page: nat): nat {
    if events == [] then 0 else (if events[0].PageUnmapped? && events[0].page == page then 1 else 0) + UnmapCount(events[1..], page)
  }

  lemma {:induction false} CountsAdd(a: seq<Event>, b: seq<Event>, page: nat)
    ensures UnmapCount(a + b, page) == UnmapCount(a, page) + UnmapCount(b, page)
    decreases |a|
  {
    if a == [] {
      assert a + b == b;
    } else {
      assert (a + b)[0] == a[0] && (a + b)[1..] == a[1..] + b;
      CountsAdd(a[1..], b, page);
    }
  }

  lemma {:induction false} ChainUnmapsOnce(pages: map<nat, Page>, order: seq<nat>, page: nat)
    requires Distinct(order) && forall p | p in order :: p in pages
    ensures UnmapCount(Unmapping(pages, order), page) == if page in order then 1 else 0
  {
    if order != [] {
      assert forall i | 0 <= i < |order| - 1 :: order[1..][i] == order[i + 1];
      ChainUnmapsOnce(pages, order[1..], page);
      CountsAdd([PageUnmapped(order[0], pages[order[0]].size)], Unmapping(pages, order[1..]), page);
    }
  }

  lemma ActionUnmaps(a: Action, words: map<nat, nat>, pages: map<nat, Page>, chains: map<nat, seq<nat>>, page: nat)
    requires FieldsPresent(a, words, pages, chains)
    ensures UnmapCount(ActionTrace(a, words, pages, chains), page) == if a.ReleaseRegion? && page in chains[a.field] then 1 else 0
  {
    if a.ReleaseRegion? {
      ChainIsMapped(pages, words[a.field], chains[a.field]);
      ChainUnmapsOnce(pages, chains[a.field], page);
    }
  }

  predicate Releases(a: Action, chains: map<nat, seq<nat>>, page: nat) {
    a.ReleaseRegion? && a.field in chains && page in chains[a.field]
  }

  /// Over the whole cleanup a page is unmapped once if a released region has it, and never otherwise.
  lemma {:induction false} EveryPageIsUnmappedOnce(actions: seq<Action>, words: map<nat, nat>, pages: map<nat, Page>, chains: map<nat, seq<nat>>, page: nat)
    requires Ready(actions, words, pages, chains)
    ensures UnmapCount(Trace(actions, words, pages, chains), page) ==
            if exists i | 0 <= i < |actions| :: Releases(actions[i], chains, page) then 1 else 0
  {
    if actions != [] {
      var a, rest := actions[0], actions[1..];
      assert forall i | 0 <= i < |rest| :: rest[i] == actions[i + 1];
      assert forall i | 0 < i < |actions| :: actions[i] == rest[i - 1];
      ReadyTail(actions, words, pages, chains);
      EveryPageIsUnmappedOnce(rest, words, pages, chains, page);
      CountsAdd(ActionTrace(a, words, pages, chains), Trace(rest, words, pages, chains), page);
      ActionUnmaps(a, words, pages, chains, page);
      forall j | 0 <= j < |rest| && Releases(rest[j], chains, page) ensures !Releases(a, chains, page) {
        assert Independent(actions[0], actions[j + 1], chains);
      }
    }
  }

  // ---------------------------------------------------------------- neither more nor less

  /// An action calls for an event: a child is cancelled for its own field; a destruction happens unless
  /// the word of its initialization flag is zero; every page of a region is unmapped with its size.
  predicate CallsFor(a: Action, words: map<nat, nat>, pages: map<nat, Page>, chains: map<nat, seq<nat>>, e: Event)
    requires FieldsPresent(a, words, pages, chains)
  {
    match e
    case Cancelled(child) => a.ReleaseAwaited? && words[a.field] == child
    case Destroyed(f, address) =>
      a.Destroy? && a.function_ == f && a.address == address && (a.initialized.Some? ==> words[a.initialized.value] != 0)
    case PageUnmapped(page, size) => a.ReleaseRegion? && page in chains[a.field] && page in pages && pages[page].size == size
    case PackDestroyed => a.DestroyPack?
    case FrameUnmapped => false
  }

  function Count(events: seq<Event>, e: Event): nat {
    if events == [] then 0 else (if events[0] == e then 1 else 0) + Count(events[1..], e)
  }

  /// How many of the actions call for an event.
  function Callers(actions: seq<Action>, words: map<nat, nat>, pages: map<nat, Page>, chains: map<nat, seq<nat>>, e: Event): nat
    requires forall i | 0 <= i < |actions| :: FieldsPresent(actions[i], words, pages, chains)
  {
    if actions == [] then 0
    else
      assert forall i | 0 <= i < |actions| - 1 :: actions[1..][i] == actions[i + 1];
      (if CallsFor(actions[0], words, pages, chains, e) then 1 else 0) + Callers(actions[1..], words, pages, chains, e)
  }

  lemma {:induction false} CountsOfBoth(a: seq<Event>, b: seq<Event>, e: Event)
    ensures Count(a + b, e) == Count(a, e) + Count(b, e)
    decreases |a|
  {
    if a == [] {
      assert a + b == b;
    } else {
      assert (a + b)[0] == a[0] && (a + b)[1..] == a[1..] + b;
      CountsOfBoth(a[1..], b, e);
    }
  }

  lemma {:induction false} PagesAreCounted(pages: map<nat, Page>, order: seq<nat>, e: Event)
    requires Distinct(order) && forall p | p in order :: p in pages
    ensures Count(Unmapping(pages, order), e)
            == if e.PageUnmapped? && e.page in order && pages[e.page].size == e.size then 1 else 0
  {
    if order != [] {
      assert forall i | 0 <= i < |order| - 1 :: order[1..][i] == order[i + 1];
      PagesAreCounted(pages, order[1..], e);
      CountsOfBoth([PageUnmapped(order[0], pages[order[0]].size)], Unmapping(pages, order[1..]), e);
    }
  }

  lemma ActionDoesWhatItCallsFor(a: Action, words: map<nat, nat>, pages: map<nat, Page>, chains: map<nat, seq<nat>>, e: Event)
    requires FieldsPresent(a, words, pages, chains)
    ensures Count(ActionTrace(a, words, pages, chains), e) == if CallsFor(a, words, pages, chains, e) then 1 else 0
  {
    if a.ReleaseRegion? {
      ChainIsMapped(pages, words[a.field], chains[a.field]);
      PagesAreCounted(pages, chains[a.field], e);
    }
  }

  /// MAIN RESULT. Everything happens as often as there are actions that call for it: nothing is left
  /// out, nothing happens twice, and what was never initialized is not destroyed.
  lemma {:induction false} EveryEventIsCalledFor(actions: seq<Action>, words: map<nat, nat>, pages: map<nat, Page>, chains: map<nat, seq<nat>>, e: Event)
    requires Ready(actions, words, pages, chains)
    ensures Count(Trace(actions, words, pages, chains), e) == Callers(actions, words, pages, chains, e)
  {
    hide ActionTrace, CallsFor, FieldsPresent, Independent;
    if actions != [] {
      ReadyTail(actions, words, pages, chains);
      EveryEventIsCalledFor(actions[1..], words, pages, chains, e);
      ActionDoesWhatItCallsFor(actions[0], words, pages, chains, e);
      CountsOfBoth(ActionTrace(actions[0], words, pages, chains), Trace(actions[1..], words, pages, chains), e);
    }
  }

  /// Earlier actions happen before later ones.
  lemma {:induction false} CleanupIsInOrder(actions: seq<Action>, words: map<nat, nat>, pages: map<nat, Page>, chains: map<nat, seq<nat>>, k: nat)
    requires Ready(actions, words, pages, chains) && k <= |actions|
    ensures Ready(actions[..k], words, pages, chains) && Ready(actions[k..], words, pages, chains)
    ensures Trace(actions, words, pages, chains) == Trace(actions[..k], words, pages, chains) + Trace(actions[k..], words, pages, chains)
    decreases |actions|
  {
    hide ActionTrace, FieldsPresent, Independent;
    PartsAreReady(actions, words, pages, chains, k);
    if k == 0 {
      assert actions[0..] == actions;
    } else {
      ReadyTail(actions, words, pages, chains);
      CleanupIsInOrder(actions[1..], words, pages, chains, k - 1);
      assert actions[1..][..k - 1] == actions[..k][1..] && actions[1..][k - 1..] == actions[k..];
    }
  }

  lemma PartsAreReady(actions: seq<Action>, words: map<nat, nat>, pages: map<nat, Page>, chains: map<nat, seq<nat>>, k: nat)
    requires Ready(actions, words, pages, chains) && k <= |actions|
    ensures Ready(actions[..k], words, pages, chains) && Ready(actions[k..], words, pages, chains)
  {
    hide FieldsPresent, Independent;
    forall i, j | 0 <= i < j < |actions| - k ensures Independent(actions[k..][i], actions[k..][j], chains) {
      assert Independent(actions[k + i], actions[k + j], chains);
    }
  }
}
