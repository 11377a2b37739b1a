/**
 The instruction words of laid-out code, their link-time placeholders, and what running them does.
 */
module CodeWords {
  import opened Results
  import opened CodeLayout

  /// The page forms are placeholders until the linker fills them in; so is a branch of distance zero
  /// that a fixup names. The linked forms are what the linker writes.
  datatype Word =
    | OpWord(op: nat)
    | BranchWord(displacement: int, link: bool)
    | ConditionalWord(displacement: int, condition: Condition)
    | PageWord(destination: nat)
    | PageOffsetWord(destination: nat)
    | FunctionBranchWord(function_: nat, link: bool)
    | LinkedPageWord(target: Symbol, destination: nat)
    | LinkedPageOffsetWord(target: Symbol, destination: nat)

  datatype Symbol = FunctionSymbol(id: nat) | DataSymbol(id: nat)

  datatype Fixup =
    | BranchFixup(offset: nat, function_: nat, link: bool)
    | AddressFixup(offset: nat, target: Symbol, destination: nat)

  function Invert(c: Condition): Condition {
    match c
    case Equal => NotEqual
    case NotEqual => Equal
    case CarrySet => CarryClear
    case CarryClear => CarrySet
    case Minus => Plus
    case Plus => Minus
    case Overflow => NoOverflow
    case NoOverflow => Overflow
    case UnsignedHigher => UnsignedLowerOrSame
    case UnsignedLowerOrSame => UnsignedHigher
    case SignedGreaterOrEqual => SignedLess
    case SignedLess => SignedGreaterOrEqual
    case SignedGreater => SignedLessOrEqual
    case SignedLessOrEqual => SignedGreater
  }

  datatype Flags = Flags(n: bool, z: bool, c: bool, v: bool)

  /// Section C1.2.4 of the Arm Architecture Reference Manual.
  predicate Holds(condition: Condition, f: Flags) {
    match condition
    case Equal => f.z
    case NotEqual => !f.z
    case CarrySet => f.c
    case CarryClear => !f.c
    case Minus => f.n
    case Plus => !f.n
    case Overflow => f.v
    case NoOverflow => !f.v
    case UnsignedHigher => f.c && !f.z
    case UnsignedLowerOrSame => !(f.c && !f.z)
    case SignedGreaterOrEqual => f.n == f.v
    case SignedLess => f.n != f.v
    case SignedGreater => !f.z && f.n == f.v
    case SignedLessOrEqual => !(!f.z && f.n == f.v)
  }

  lemma InvertedConditionIsTheOpposite(c: Condition, f: Flags)
    ensures Holds(Invert(c), f) <==> !Holds(c, f)
    ensures Invert(Invert(c)) == c
  {
  }

  // ---------------------------------------------------------------- encoding

  function ItemWords(items: seq<Item>, labels: seq<Option<nat>>, expanded: seq<bool>, i: nat): seq<Word>
    requires Resolvable(items, labels) && i < |items| == |expanded|
  {
    match items[i]
    case Instruction(op) => [OpWord(op)]
    case Branch(_, link) => [BranchWord(Displacement(items, labels, expanded, i), link)]
    case ConditionalBranch(_, condition) =>
      var d := Displacement(items, labels, expanded, i);
      if expanded[i] then [ConditionalWord(8, Invert(condition)), BranchWord(d - 4, false)]
      else [ConditionalWord(d, condition)]
    case FunctionBranch(_, link) => [BranchWord(0, link)]
    case FunctionAddress(_, destination) => [PageWord(destination), PageOffsetWord(destination)]
    case DataAddress(_, destination) => [PageWord(destination), PageOffsetWord(destination)]
  }

  function ItemFixups(items: seq<Item>, expanded: seq<bool>, i: nat): seq<Fixup>
    requires i < |items| == |expanded|
  {
    var offset := Offset(items, expanded, i);
    match items[i]
    case FunctionBranch(f, link) => [BranchFixup(offset, f, link)]
    case FunctionAddress(f, destination) => [AddressFixup(offset, FunctionSymbol(f), destination)]
    case DataAddress(d, destination) => [AddressFixup(offset, DataSymbol(d), destination)]
    case _ => []
  }

  /// The words of the first `k` items.
  function Words(items: seq<Item>, labels: seq<Option<nat>>, expanded: seq<bool>, k: nat): seq<Word>
    requires Resolvable(items, labels) && k <= |items| == |expanded|
  {
    if k == 0 then [] else Words(items, labels, expanded, k - 1) + ItemWords(items, labels, expanded, k - 1)
  }

  function Fixups(items: seq<Item>, expanded: seq<bool>, k: nat): seq<Fixup>
    requires k <= |items| == |expanded|
  {
    if k == 0 then [] else Fixups(items, expanded, k - 1) + ItemFixups(items, expanded, k - 1)
  }

  lemma ItemSize(items: seq<Item>, labels: seq<Option<nat>>, expanded: seq<bool>, i: nat)
    requires Resolvable(items, labels) && i < |items| == |expanded|
    ensures 4 * |ItemWords(items, labels, expanded, i)| == Size(items[i], expanded[i])
    ensures |LinkedItemWords(items, labels, expanded, i)| == |ItemWords(items, labels, expanded, i)|
  {
  }

  lemma {:induction false} WordsFillTheirOffset(items: seq<Item>, labels: seq<Option<nat>>, expanded: seq<bool>, k: nat)
    requires Resolvable(items, labels) && k <= |items| == |expanded|
    ensures 4 * |Words(items, labels, expanded, k)| == Offset(items, expanded, k)
  {
    hide ItemWords, Size;
    if k > 0 {
      WordsFillTheirOffset(items, labels, expanded, k - 1);
      ItemSize(items, labels, expanded, k - 1);
    }
  }

  lemma PieceOfConcatenation<T>(before: seq<T>, last: seq<T>, at: nat, n: nat)
    requires at + n <= |before| || (at == |before| && n == |last|)
    ensures (before + last)[at..at + n] == if at + n <= |before| then before[at..at + n] else last
  {
  }

  /// Each item starts at its computed byte offset.
  lemma {:induction false} ItemsStartAtTheirOffsets(items: seq<Item>, labels: seq<Option<nat>>, expanded: seq<bool>,
                                                    k: nat, i: nat)
    requires Resolvable(items, labels) && i < k <= |items| == |expanded|
    ensures var at, own := Offset(items, expanded, i) / 4, ItemWords(items, labels, expanded, i);
            && Offset(items, expanded, i) % 4 == 0
            && at + |own| <= |Words(items, labels, expanded, k)|
            && Words(items, labels, expanded, k)[at..at + |own|] == own
    decreases k
  {
    hide ItemWords, Size;
    var at, own := Offset(items, expanded, i) / 4, ItemWords(items, labels, expanded, i);
    var before, last := Words(items, labels, expanded, k - 1), ItemWords(items, labels, expanded, k - 1);
    WordsFillTheirOffset(items, labels, expanded, k - 1);
    if i < k - 1 { ItemsStartAtTheirOffsets(items, labels, expanded, k - 1, i); }
    if |own| > 0 || at <= |before| { PieceOfConcatenation(before, last, at, |own|); }
  }

  // ---------------------------------------------------------------- linking

  /// The words at a fixup's offset are the placeholder it is meant for.
  predicate NamesPlaceholder(words: seq<Word>, f: Fixup) {
    && f.offset % 4 == 0
    && match f
       case BranchFixup(offset, _, link) => offset / 4 < |words| && words[offset / 4] == BranchWord(0, link)
       case AddressFixup(offset, _, destination) =>
         && offset / 4 + 1 < |words|
         && words[offset / 4] == PageWord(destination) && words[offset / 4 + 1] == PageOffsetWord(destination)
  }

  function Apply(words: seq<Word>, f: Fixup): (r: seq<Word>)
    requires NamesPlaceholder(words, f)
    ensures |r| == |words|
  {
    match f
    case BranchFixup(offset, target, link) => words[offset / 4 := FunctionBranchWord(target, link)]
    case AddressFixup(offset, target, destination) =>
      words[offset / 4 := LinkedPageWord(target, destination)][offset / 4 + 1 := LinkedPageOffsetWord(target, destination)]
  }

  /// What the linked words of an item are.
  function LinkedItemWords(items: seq<Item>, labels: seq<Option<nat>>, expanded: seq<bool>, i: nat): seq<Word>
    requires Resolvable(items, labels) && i < |items| == |expanded|
  {
    match items[i]
    case FunctionBranch(f, link) => [FunctionBranchWord(f, link)]
    case FunctionAddress(f, d) => [LinkedPageWord(FunctionSymbol(f), d), LinkedPageOffsetWord(FunctionSymbol(f), d)]
    case DataAddress(f, d) => [LinkedPageWord(DataSymbol(f), d), LinkedPageOffsetWord(DataSymbol(f), d)]
    case _ => ItemWords(items, labels, expanded, i)
  }

  function LinkedWords(items: seq<Item>, labels: seq<Option<nat>>, expanded: seq<bool>, k: nat): seq<Word>
    requires Resolvable(items, labels) && k <= |items| == |expanded|
  {
    if k == 0 then [] else LinkedWords(items, labels, expanded, k - 1) + LinkedItemWords(items, labels, expanded, k - 1)
  }

  /// Applies fixups from left to right, as long as each names a placeholder.
  function Link(words: seq<Word>, fixups: seq<Fixup>): Option<seq<Word>>
    decreases |fixups|
  {
    if fixups == [] then Some(words)
    else
      match Link(words, fixups[..|fixups| - 1])
      case None => None
      case Some(linked) =>
        var last := fixups[|fixups| - 1];
        if NamesPlaceholder(linked, last) then Some(Apply(linked, last)) else None
  }

  lemma {:induction false} LinkIgnoresWhatFollows(words: seq<Word>, rest: seq<Word>, fixups: seq<Fixup>)
    requires Link(words, fixups).Some?
    ensures Link(words + rest, fixups) == Some(Link(words, fixups).value + rest)
    decreases |fixups|
  {
    if fixups != [] {
      LinkIgnoresWhatFollows(words, rest, fixups[..|fixups| - 1]);
      var last, linked := fixups[|fixups| - 1], Link(words, fixups[..|fixups| - 1]).value;
      assert NamesPlaceholder(linked, last) ==> NamesPlaceholder(linked + rest, last);
      assert Apply(linked + rest, last) == Apply(linked, last) + rest;
    }
  }

  /// Every fixup finds its own placeholder, and linking gives each item its linked words.
  lemma {:induction false} EveryFixupNamesItsPlaceholder(items: seq<Item>, labels: seq<Option<nat>>, expanded: seq<bool>, k: nat)
    requires Resolvable(items, labels) && k <= |items| == |expanded|
    ensures Link(Words(items, labels, expanded, k), Fixups(items, expanded, k))
            == Some(LinkedWords(items, labels, expanded, k))
  {
    hide ItemWords, LinkedItemWords, Size, Offset, NamesPlaceholder, Apply, ItemFixups;
    if k > 0 {
      EveryFixupNamesItsPlaceholder(items, labels, expanded, k - 1);
      var before, last := Words(items, labels, expanded, k - 1), ItemWords(items, labels, expanded, k - 1);
      var fixups, own := Fixups(items, expanded, k - 1), ItemFixups(items, expanded, k - 1);
      var linked := LinkedWords(items, labels, expanded, k - 1);
      LinkIgnoresWhatFollows(before, last, fixups);
      LinkedSize(items, labels, expanded, k - 1);
      OwnFixup(items, labels, expanded, k - 1, linked);
      if own != [] {
        assert (fixups + own)[..|fixups + own| - 1] == fixups;
      } else {
        assert fixups + own == fixups;
      }
    }
  }

  lemma OwnFixup(items: seq<Item>, labels: seq<Option<nat>>, expanded: seq<bool>, i: nat, linked: seq<Word>)
    requires Resolvable(items, labels) && i < |items| == |expanded|
    requires 4 * |linked| == Offset(items, expanded, i)
    ensures var last, fixups := linked + ItemWords(items, labels, expanded, i), ItemFixups(items, expanded, i);
            && (fixups == [] ==> last == linked + LinkedItemWords(items, labels, expanded, i))
            && (fixups != [] ==>
                  && |fixups| == 1 && NamesPlaceholder(last, fixups[0])
                  && Apply(last, fixups[0]) == linked + LinkedItemWords(items, labels, expanded, i))
  {
    hide Offset, Displacement;
  }

  lemma {:induction false} LinkedItemsStartAtTheirOffsets(items: seq<Item>, labels: seq<Option<nat>>, expanded: seq<bool>,
                                                          k: nat, i: nat)
    requires Resolvable(items, labels) && i < k <= |items| == |expanded|
    ensures var at, own := Offset(items, expanded, i) / 4, LinkedItemWords(items, labels, expanded, i);
            && at + |own| <= |LinkedWords(items, labels, expanded, k)|
            && LinkedWords(items, labels, expanded, k)[at..at + |own|] == own
    decreases k
  {
    hide ItemWords, LinkedItemWords, Size;
    var at, own := Offset(items, expanded, i) / 4, LinkedItemWords(items, labels, expanded, i);
    var before, last := LinkedWords(items, labels, expanded, k - 1), LinkedItemWords(items, labels, expanded, k - 1);
    LinkedSize(items, labels, expanded, k - 1);
    if i < k - 1 { LinkedItemsStartAtTheirOffsets(items, labels, expanded, k - 1, i); }
    if |own| > 0 || at <= |before| { PieceOfConcatenation(before, last, at, |own|); }
  }

  lemma {:induction false} LinkedSize(items: seq<Item>, labels: seq<Option<nat>>, expanded: seq<bool>, k: nat)
    requires Resolvable(items, labels) && k <= |items| == |expanded|
    ensures 4 * |LinkedWords(items, labels, expanded, k)| == Offset(items, expanded, k)
  {
    hide ItemWords, LinkedItemWords, Size;
    if k > 0 {
      LinkedSize(items, labels, expanded, k - 1);
      ItemSize(items, labels, expanded, k - 1);
    }
  }

  // ---------------------------------------------------------------- running

  /// An instruction goes on, or control leaves the code: by a return, a trap, or a call or jump to
  /// another function.
  datatype Effect<S> = Next(state: S) | Leave(state: S)

  datatype Machine<!S> = Machine(
    exec: (nat, S) -> Effect<S>,
    flags: S -> Flags,
    setLink: (nat, S) -> S,
    page: (Symbol, nat, S) -> S,
    pageOffset: (Symbol, nat, S) -> S)

  datatype Run<S> =
    | At(position: nat, state: S)
    | Left(state: S)
    | LeftTo(function_: nat, state: S)
    | OffEnd(state: S)

  /// One labelled item. A link register receives the byte offset behind the call.
  function ItemStep<S>(m: Machine<S>, items: seq<Item>, labels: seq<Option<nat>>, expanded: seq<bool>, k: nat, s: S): Run<S>
    requires Resolvable(items, labels) && k <= |items| == |expanded|
  {
    if k == |items| then OffEnd(s)
    else
      match items[k]
      case Instruction(op) => (match m.exec(op, s) case Next(t) => At(k + 1, t) case Leave(t) => Left(t))
      case Branch(target, link) =>
        At(labels[target].value, if link then m.setLink(Offset(items, expanded, k + 1), s) else s)
      case ConditionalBranch(target, condition) =>
        At(if Holds(condition, m.flags(s)) then labels[target].value else k + 1, s)
      case FunctionBranch(f, link) => LeftTo(f, if link then m.setLink(Offset(items, expanded, k + 1), s) else s)
      case FunctionAddress(f, d) => At(k + 1, m.pageOffset(FunctionSymbol(f), d, m.page(FunctionSymbol(f), d, s)))
      case DataAddress(f, d) => At(k + 1, m.pageOffset(DataSymbol(f), d, m.page(DataSymbol(f), d, s)))
  }

  function WordStep<S>(m: Machine<S>, words: seq<Word>, pc: nat, s: S): Run<S> {
    if pc % 4 != 0 || pc / 4 >= |words| then OffEnd(s)
    else
      match words[pc / 4]
      case OpWord(op) => (match m.exec(op, s) case Next(t) => At(pc + 4, t) case Leave(t) => Left(t))
      case BranchWord(d, link) =>
        var t := if link then m.setLink(pc + 4, s) else s;
        if pc + d < 0 then OffEnd(t) else At(pc + d, t)
      case ConditionalWord(d, condition) =>
        if !Holds(condition, m.flags(s)) then At(pc + 4, s)
        else if pc + d < 0 then OffEnd(s) else At(pc + d, s)
      case FunctionBranchWord(f, link) => LeftTo(f, if link then m.setLink(pc + 4, s) else s)
      case LinkedPageWord(t, d) => At(pc + 4, m.page(t, d, s))
      case LinkedPageOffsetWord(t, d) => At(pc + 4, m.pageOffset(t, d, s))
      case _ => OffEnd(s)
  }

  function WordRun<S>(m: Machine<S>, words: seq<Word>, r: Run<S>, n: nat): Run<S>
    decreases n
  {
    if n == 0 || !r.At? then r else WordRun(m, words, WordStep(m, words, r.position, r.state), n - 1)
  }

  /// How many words one item runs.
  function WordsUsed<S>(m: Machine<S>, items: seq<Item>, expanded: seq<bool>, k: nat, s: S): (n: nat)
    requires k <= |items| == |expanded|
    ensures n >= 1
  {
    if k == |items| then 1
    else
      match items[k]
      case ConditionalBranch(_, condition) => if expanded[k] && Holds(condition, m.flags(s)) then 2 else 1
      case FunctionAddress(_, _) => 2
      case DataAddress(_, _) => 2
      case _ => 1
  }

  /// The byte position that stands for an item position.
  function Placed<S>(items: seq<Item>, expanded: seq<bool>, r: Run<S>): Run<S>
    requires |items| == |expanded| && (r.At? ==> r.position <= |items|)
  {
    match r
    case At(k, s) => At(Offset(items, expanded, k), s)
    case _ => r
  }

  /// One item and its words do the same, whichever form a conditional branch has.
  lemma ItemIsSimulated<S>(m: Machine<S>, items: seq<Item>, labels: seq<Option<nat>>, expanded: seq<bool>, k: nat, s: S)
    requires Resolvable(items, labels) && k <= |items| == |expanded|
    ensures var r := ItemStep(m, items, labels, expanded, k, s);
            && (r.At? ==> r.position <= |items|)
            && WordRun(m, LinkedWords(items, labels, expanded, |items|), At(Offset(items, expanded, k), s),
                       WordsUsed(m, items, expanded, k, s))
               == Placed(items, expanded, r)
  {
    hide LinkedWords, LinkedItemWords, WordStep, WordRun, Offset;
    var words, pc := LinkedWords(items, labels, expanded, |items|), Offset(items, expanded, k);
    OneOrTwoSteps(m, words, pc, s);
    OffsetsAreAligned(items, expanded, k);
    LinkedSize(items, labels, expanded, |items|);
    if k == |items| {
      OffTheEnd(m, words, pc, s);
    } else {
      assert TargetKnown(items[k], labels);
      LinkedItemsStartAtTheirOffsets(items, labels, expanded, |items|, k);
      var own := LinkedItemWords(items, labels, expanded, k);
      ItemWordsDoTheItem(m, items, labels, expanded, k, s, words);
    }
  }

  lemma OffTheEnd<S>(m: Machine<S>, words: seq<Word>, pc: nat, s: S)
    requires pc >= 4 * |words|
    ensures WordStep(m, words, pc, s) == OffEnd(s)
  {
  }

  /// What the one or two words of an item do, wherever they stand.
  lemma ItemWordsDoTheItem<S>(m: Machine<S>, items: seq<Item>, labels: seq<Option<nat>>, expanded: seq<bool>, k: nat, s: S,
                              words: seq<Word>)
    requires Resolvable(items, labels) && k < |items| == |expanded| && TargetKnown(items[k], labels)
    requires Offset(items, expanded, k) % 4 == 0
    requires var at, own := Offset(items, expanded, k) / 4, LinkedItemWords(items, labels, expanded, k);
             at + |own| <= |words| && words[at..at + |own|] == own
    ensures var r := ItemStep(m, items, labels, expanded, k, s);
            var q := WordStep(m, words, Offset(items, expanded, k), s);
            && (r.At? ==> r.position <= |items|)
            && if WordsUsed(m, items, expanded, k, s) == 1 then q == Placed(items, expanded, r)
               else q.At? && WordStep(m, words, q.position, q.state) == Placed(items, expanded, r)
  {
    var pc, own := Offset(items, expanded, k), LinkedItemWords(items, labels, expanded, k);
    assert Offset(items, expanded, k + 1) == pc + Size(items[k], expanded[k]);
    hide Offset;
    assert words[pc / 4] == words[pc / 4..pc / 4 + |own|][0] == own[0];
    if |own| == 2 {
      assert words[pc / 4 + 1] == words[pc / 4..pc / 4 + |own|][1] == own[1];
      assert (pc + 4) / 4 == pc / 4 + 1 && (pc + 4) % 4 == 0;
    }
    if items[k].ConditionalBranch? { InvertedConditionIsTheOpposite(items[k].condition, m.flags(s)); hide Holds, Invert; }
  }

  lemma OneOrTwoSteps<S>(m: Machine<S>, words: seq<Word>, pc: nat, s: S)
    ensures WordRun(m, words, At(pc, s), 1) == WordStep(m, words, pc, s)
    ensures var r := WordStep(m, words, pc, s);
            WordRun(m, words, At(pc, s), 2) == if r.At? then WordStep(m, words, r.position, r.state) else r
  {
    assert WordRun(m, words, At(pc, s), 2) == WordRun(m, words, WordStep(m, words, pc, s), 1);
  }

  function ItemRun<S>(m: Machine<S>, items: seq<Item>, labels: seq<Option<nat>>, expanded: seq<bool>, r: Run<S>, n: nat): (q: Run<S>)
    requires Resolvable(items, labels) && |items| == |expanded| && (r.At? ==> r.position <= |items|)
    ensures q.At? ==> q.position <= |items|
    decreases n
  {
    if n == 0 || !r.At? then r
    else
      ItemIsSimulated(m, items, labels, expanded, r.position, r.state);
      ItemRun(m, items, labels, expanded, ItemStep(m, items, labels, expanded, r.position, r.state), n - 1)
  }

  /// How many words a run of items takes.
  function WordCount<S>(m: Machine<S>, items: seq<Item>, labels: seq<Option<nat>>, expanded: seq<bool>, r: Run<S>, n: nat): nat
    requires Resolvable(items, labels) && |items| == |expanded| && (r.At? ==> r.position <= |items|)
    decreases n
  {
    if n == 0 || !r.At? then 0
    else
      ItemIsSimulated(m, items, labels, expanded, r.position, r.state);
      WordsUsed(m, items, expanded, r.position, r.state)
      + WordCount(m, items, labels, expanded, ItemStep(m, items, labels, expanded, r.position, r.state), n - 1)
  }

  /// MAIN RESULT. Running the words takes the same path as running the labelled items, for any number
  /// of items, from any item. A run that goes on in one goes on in the other.
  lemma {:induction false} WordsSimulateItems<S>(m: Machine<S>, items: seq<Item>, labels: seq<Option<nat>>,
                                                 expanded: seq<bool>, r: Run<S>, n: nat)
    requires Resolvable(items, labels) && |items| == |expanded| && (r.At? ==> r.position <= |items|)
    ensures var words := LinkedWords(items, labels, expanded, |items|);
            WordRun(m, words, Placed(items, expanded, r), WordCount(m, items, labels, expanded, r, n))
            == Placed(items, expanded, ItemRun(m, items, labels, expanded, r, n))
    ensures ItemRun(m, items, labels, expanded, r, n).At? ==> WordCount(m, items, labels, expanded, r, n) >= n
    decreases n
  {
    hide LinkedWords, WordsUsed, WordStep, ItemStep, WordRun, Offset;
    WordRunIsDone(m, LinkedWords(items, labels, expanded, |items|), Placed(items, expanded, r));
    if n > 0 && r.At? {
      var words := LinkedWords(items, labels, expanded, |items|);
      var next := ItemStep(m, items, labels, expanded, r.position, r.state);
      ItemIsSimulated(m, items, labels, expanded, r.position, r.state);
      WordsSimulateItems(m, items, labels, expanded, next, n - 1);
      RunsCompose(m, words, Placed(items, expanded, r), WordsUsed(m, items, expanded, r.position, r.state),
                  WordCount(m, items, labels, expanded, next, n - 1));
    }
  }

  lemma WordRunIsDone<S>(m: Machine<S>, words: seq<Word>, r: Run<S>)
    ensures WordRun(m, words, r, 0) == r
  {
  }

  lemma {:induction false} RunsCompose<S>(m: Machine<S>, words: seq<Word>, r: Run<S>, a: nat, b: nat)
    ensures WordRun(m, words, r, a + b) == WordRun(m, words, WordRun(m, words, r, a), b)
    decreases a
  {
    if a > 0 && r.At? {
      RunsCompose(m, words, WordStep(m, words, r.position, r.state), a - 1, b);
    }
  }
}
