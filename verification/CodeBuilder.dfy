/**
 The builder of one function's code: items and labels are added one by one, and `Finish` relaxes,
 lays out and encodes them.
 */
module CodeBuilder {
  import opened Results
  import opened CodeLayout
  import opened CodeWords

  datatype CodeError =
    | UnknownLabel(label_: nat)
    | DuplicateLabel(label_: nat)
    | UnboundLabel(label_: nat)
    | OffsetOverflow
    | MisalignedBranch
    | BranchOutOfRange
    | InvalidInstruction(op: nat)


  datatype Code = Code(words: seq<Word>, labelOffsets: seq<nat>, fixups: seq<Fixup>)

  // ---------------------------------------------------------------- when code can be encoded

  predicate Convertible(offset: nat) {
    offset < I64_LIMIT
  }

  /// The branch at item `i`, in the form that `expanded` gives it, reaches its label.
  predicate ItemEncodes(items: seq<Item>, labels: seq<Option<nat>>, expanded: seq<bool>, valid: nat -> bool, i: nat)
    requires Resolvable(items, labels) && i < |items| == |expanded|
  {
    match items[i]
    case Instruction(op) => valid(op)
    case Branch(target, _) =>
      && Convertible(Offset(items, expanded, i)) && Convertible(LabelOffset(items, labels, expanded, target))
      && InLongRange(Displacement(items, labels, expanded, i))
    case ConditionalBranch(target, _) =>
      if expanded[i] then
        && Convertible(Offset(items, expanded, i) + 4) && Convertible(LabelOffset(items, labels, expanded, target))
        && InLongRange(Displacement(items, labels, expanded, i) - 4)
      else
        && Convertible(Offset(items, expanded, i)) && Convertible(LabelOffset(items, labels, expanded, target))
        && InShortRange(Displacement(items, labels, expanded, i))
    case _ => true
  }

  predicate Encodes(items: seq<Item>, labels: seq<Option<nat>>, expanded: seq<bool>, valid: nat -> bool)
    requires Resolvable(items, labels) && |items| == |expanded|
  {
    && Offset(items, expanded, |items|) < U64_LIMIT
    && forall i | 0 <= i < |items| :: ItemEncodes(items, labels, expanded, valid, i)
  }

  function LabelOffsets(items: seq<Item>, labels: seq<Option<nat>>, expanded: seq<bool>): (r: seq<nat>)
    requires LabelsBound(items, labels) && |items| == |expanded|
  {
    seq(|labels|, l requires 0 <= l < |labels| => LabelOffset(items, labels, expanded, l))
  }

  class Arm64CodeBuilder {
    /// Which concrete instructions have an encoding.
    const valid: nat -> bool
    var items: seq<Item>
    var labels: seq<Option<nat>>

    ghost predicate Valid()
      reads this
    {
      forall l | 0 <= l < |labels| && labels[l].Some? :: labels[l].value <= |items|
    }

    constructor (valid: nat -> bool)
      ensures Valid() && items == [] && labels == [] && this.valid == valid
    {
      this.valid, items, labels := valid, [], [];
    }

    method CreateLabel() returns (label_: nat)
      requires Valid()
      modifies this`labels
      ensures Valid() && label_ == |old(labels)| && labels == old(labels) + [None]
    {
      label_ := |labels|;
      labels := labels + [None];
    }

    /// Binds a label to the next item. Binding a label again is rejected, but moves it.
    method Bind(label_: nat) returns (r: Result<(), CodeError>)
      requires Valid()
      modifies this`labels
      ensures Valid()
      ensures r == if label_ >= |old(labels)| then Err(UnknownLabel(label_))
                   else if old(labels[label_]).Some? then Err(DuplicateLabel(label_)) else Ok(())
      ensures labels == if label_ < |old(labels)| then old(labels)[label_ := Some(|items|)] else old(labels)
    {
      if label_ >= |labels| { return Err(UnknownLabel(label_)); }
      var bound := labels[label_].Some?;
      labels := labels[label_ := Some(|items|)];
      return if bound then Err(DuplicateLabel(label_)) else Ok(());
    }

    method Append(item: Item)
      requires Valid()
      modifies this`items
      ensures Valid() && items == old(items) + [item]
    {
      items := items + [item];
    }

    /// MAIN RESULT. Succeeds exactly when every label is known and bound and the least expansion can
    /// be encoded, and then lays the code out with that expansion.
    method Finish() returns (r: Result<Code, CodeError>)
      requires Valid()
      ensures r.Ok? <==> Resolvable(items, labels) && Encodes(items, labels, LeastExpansion(items, labels), valid)
      ensures r.Ok? ==>
                var least := LeastExpansion(items, labels);
                && r.value.words == Words(items, labels, least, |items|)
                && r.value.fixups == Fixups(items, least, |items|)
                && r.value.labelOffsets == LabelOffsets(items, labels, least)
    {
      var expanded := NothingExpanded(items);
      while true
        invariant OnlyConditionals(items, expanded)
        invariant Resolvable(items, labels) ==> Relaxed(items, labels, expanded) == LeastExpansion(items, labels)
        decreases ShortCount(items, expanded)
      {
        var offsets := ItemOffsets(expanded);
        if offsets.Err? {
          if Resolvable(items, labels) { OverflowStays(items, labels, expanded); }
          return Err(offsets.error);
        }
        var resolved := ResolveLabels(expanded, offsets.value);
        if resolved.Err? { return Err(resolved.error); }
        var pass := ExpandFarBranches(expanded, offsets.value, resolved.value);
        if pass.Err? {
          if Resolvable(items, labels) { UnconvertibleStays(items, labels, expanded, valid); }
          return Err(pass.error);
        }
        if pass.value == expanded {
          r := EncodeItems(expanded, offsets.value, resolved.value);
          return;
        }
        if Resolvable(items, labels) { RelaxOnce(items, labels, expanded); }
        ExpandingShortensCount(items, expanded, pass.value);
        expanded := pass.value;
      }
    }

    method ItemOffsets(expanded: seq<bool>) returns (r: Result<seq<nat>, CodeError>)
      requires |expanded| == |items|
      ensures r.Ok? <==> Offset(items, expanded, |items|) < U64_LIMIT
      ensures r.Ok? ==> |r.value| == |items| + 1 && forall k | 0 <= k <= |items| :: r.value[k] == Offset(items, expanded, k)
      ensures r.Err? ==> r.error == OffsetOverflow
    {
      hide Offset, Size;
      var offsets: seq<nat> := [];
      var offset := 0;
      OffsetSteps(items, expanded, 0);
      for k := 0 to |items|
        invariant |offsets| == k && offset == Offset(items, expanded, k) < U64_LIMIT
        invariant forall j | 0 <= j < k :: offsets[j] == Offset(items, expanded, j)
      {
        offsets := offsets + [offset];
        OffsetSteps(items, expanded, k);
        offset := offset + Size(items[k], expanded[k]);
        if offset >= U64_LIMIT {
          if k + 1 < |items| { OffsetsIncrease(items, expanded, k + 1, |items|); }
          return Err(OffsetOverflow);
        }
      }
      return Ok(offsets + [offset]);
    }

    method ResolveLabels(expanded: seq<bool>, offsets: seq<nat>) returns (r: Result<seq<nat>, CodeError>)
      requires Valid() && |expanded| == |items| && |offsets| == |items| + 1
      requires forall k | 0 <= k <= |items| :: offsets[k] == Offset(items, expanded, k)
      ensures r.Ok? <==> LabelsBound(items, labels)
      ensures r.Ok? ==> r.value == LabelOffsets(items, labels, expanded)
      ensures r.Err? ==> r.error.UnboundLabel?
    {
      var resolved: seq<nat> := [];
      for l := 0 to |labels|
        invariant |resolved| == l
        invariant forall j | 0 <= j < l :: labels[j].Some? && resolved[j] == offsets[labels[j].value]
      {
        if labels[l].None? { return Err(UnboundLabel(l)); }
        resolved := resolved + [offsets[labels[l].value]];
      }
      return Ok(resolved);
    }

    /// One relaxation pass over the offsets of the current expansion.
    method ExpandFarBranches(expanded: seq<bool>, offsets: seq<nat>, resolved: seq<nat>) returns (r: Result<seq<bool>, CodeError>)
      requires OnlyConditionals(items, expanded) && LabelsBound(items, labels) && |offsets| == |items| + 1
      requires forall k | 0 <= k <= |items| :: offsets[k] == Offset(items, expanded, k)
      requires resolved == LabelOffsets(items, labels, expanded)
      ensures r.Ok? ==> OnlyConditionals(items, r.value) && Below(expanded, r.value)
      ensures r.Ok? && Resolvable(items, labels) ==> r.value == Pass(items, labels, expanded)
      ensures r.Err? && Resolvable(items, labels) ==> !ShortsConvertible(items, labels, expanded)
    {
      var next := expanded;
      for i := 0 to |items|
        invariant OnlyConditionals(items, next) && Below(expanded, next)
        invariant forall j | i <= j < |items| :: next[j] == expanded[j]
        invariant Resolvable(items, labels) ==>
                    forall j | 0 <= j < i :: next[j] == (expanded[j] || TooFar(items, labels, expanded, j))
      {
        if items[i].ConditionalBranch? && !expanded[i] {
          var d := GetDisplacement(offsets[i], items[i].target, resolved);
          if d.Err? {
            assert TargetKnown(items[i], labels) ==> d.error == OffsetOverflow;
            return Err(d.error);
          }
          var word := EncodeBranch(d.value, InShortRange);
          if word.Err? && word.error == BranchOutOfRange {
            next := next[i := true];
          } else if word.Err? {
            OffsetsAreAligned(items, expanded, i);
            OffsetsAreAligned(items, expanded, labels[items[i].target].value);
            return Err(word.error);
          }
          if Resolvable(items, labels) {
            OffsetsAreAligned(items, expanded, i);
            OffsetsAreAligned(items, expanded, labels[items[i].target].value);
            assert d.value == Displacement(items, labels, expanded, i);
          }
        }
      }
      return Ok(next);
    }

    method EncodeItems(expanded: seq<bool>, offsets: seq<nat>, resolved: seq<nat>) returns (r: Result<Code, CodeError>)
      requires OnlyConditionals(items, expanded) && LabelsBound(items, labels) && |offsets| == |items| + 1
      requires forall k | 0 <= k <= |items| :: offsets[k] == Offset(items, expanded, k)
      requires resolved == LabelOffsets(items, labels, expanded) && offsets[|items|] < U64_LIMIT
      ensures r.Ok? <==>
              && Resolvable(items, labels)
              && forall i | 0 <= i < |items| :: ItemEncodes(items, labels, expanded, valid, i)
      ensures r.Ok? ==>
                && r.value.words == Words(items, labels, expanded, |items|)
                && r.value.fixups == Fixups(items, expanded, |items|)
                && r.value.labelOffsets == resolved
    {
      var words: seq<Word> := [];
      var fixups: seq<Fixup> := [];
      for i := 0 to |items|
        invariant forall j | 0 <= j < i :: TargetKnown(items[j], labels)
        invariant Resolvable(items, labels) ==>
                    && words == Words(items, labels, expanded, i)
                    && forall j | 0 <= j < i :: ItemEncodes(items, labels, expanded, valid, j)
        invariant fixups == Fixups(items, expanded, i)
      {
        var piece := EncodeItem(i, expanded, offsets[i], resolved);
        if piece.Err? { return Err(piece.error); }
        words := words + piece.value;
        fixups := fixups + ItemFixups(items, expanded, i);
      }
      return Ok(Code(words, resolved, fixups));
    }

    method EncodeItem(i: nat, expanded: seq<bool>, offset: nat, resolved: seq<nat>) returns (r: Result<seq<Word>, CodeError>)
      requires OnlyConditionals(items, expanded) && LabelsBound(items, labels) && i < |items|
      requires offset == Offset(items, expanded, i) && resolved == LabelOffsets(items, labels, expanded)
      ensures r.Ok? ==> TargetKnown(items[i], labels)
      ensures Resolvable(items, labels) ==>
                && (r.Ok? <==> ItemEncodes(items, labels, expanded, valid, i))
                && (r.Ok? ==> r.value == ItemWords(items, labels, expanded, i))
    {
      OffsetsAreAligned(items, expanded, i);
      match items[i]
      case Instruction(op) =>
        if !valid(op) { return Err(InvalidInstruction(op)); }
        return Ok([OpWord(op)]);
      case Branch(target, link) =>
        var d := GetDisplacement(offset, target, resolved);
        if d.Err? { return Err(d.error); }
        OffsetsAreAligned(items, expanded, labels[target].value);
        var checked := EncodeBranch(d.value, InLongRange);
        if checked.Err? { return Err(checked.error); }
        return Ok([BranchWord(d.value, link)]);
      case ConditionalBranch(target, condition) =>
        var d := GetDisplacement(if expanded[i] then offset + 4 else offset, target, resolved);
        if d.Err? { return Err(d.error); }
        OffsetsAreAligned(items, expanded, labels[target].value);
        var checked := EncodeBranch(d.value, if expanded[i] then InLongRange else InShortRange);
        if checked.Err? { return Err(checked.error); }
        if expanded[i] { return Ok([ConditionalWord(8, Invert(condition)), BranchWord(d.value, false)]); }
        return Ok([ConditionalWord(d.value, condition)]);
      case FunctionBranch(_, link) => return Ok([BranchWord(0, link)]);
      case FunctionAddress(_, destination) => return Ok([PageWord(destination), PageOffsetWord(destination)]);
      case DataAddress(_, destination) => return Ok([PageWord(destination), PageOffsetWord(destination)]);
    }

    /// The signed distance from an offset to a label.
    method GetDisplacement(source: nat, target: nat, resolved: seq<nat>) returns (r: Result<int, CodeError>)
      ensures r == if target >= |resolved| then Err(UnknownLabel(target))
                   else if !Convertible(source) || !Convertible(resolved[target]) then Err(OffsetOverflow)
                   else Ok(resolved[target] - source)
    {
      if target >= |resolved| { return Err(UnknownLabel(target)); }
      if source >= I64_LIMIT { return Err(OffsetOverflow); }
      if resolved[target] >= I64_LIMIT { return Err(OffsetOverflow); }
      return Ok(resolved[target] - source);
    }

    method EncodeBranch(displacement: int, inRange: int -> bool) returns (r: Result<(), CodeError>)
      ensures r == if displacement % 4 != 0 then Err(MisalignedBranch)
                   else if !inRange(displacement) then Err(BranchOutOfRange) else Ok(())
    {
      if displacement % 4 != 0 { return Err(MisalignedBranch); }
      if !inRange(displacement) { return Err(BranchOutOfRange); }
      return Ok(());
    }
  }

  /// The offsets of every short branch and of its label fit a signed displacement.
  predicate ShortsConvertible(items: seq<Item>, labels: seq<Option<nat>>, expanded: seq<bool>)
    requires Resolvable(items, labels) && |items| == |expanded|
  {
    forall i | 0 <= i < |items| && items[i].ConditionalBranch? && !expanded[i] ::
      Convertible(Offset(items, expanded, i)) && Convertible(LabelOffset(items, labels, expanded, Target(items, labels, i)))
  }

  function Target(items: seq<Item>, labels: seq<Option<nat>>, i: nat): (t: nat)
    requires Resolvable(items, labels) && i < |items| && items[i].ConditionalBranch?
    ensures t < |labels|
  {
    assert TargetKnown(items[i], labels);
    items[i].target
  }

  lemma OffsetSteps(items: seq<Item>, expanded: seq<bool>, k: nat)
    requires k <= |items| == |expanded|
    ensures Offset(items, expanded, 0) == 0
    ensures k < |items| ==> Offset(items, expanded, k + 1) == Offset(items, expanded, k) + Size(items[k], expanded[k])
  {
  }

  lemma OverflowStays(items: seq<Item>, labels: seq<Option<nat>>, expanded: seq<bool>)
    requires Resolvable(items, labels) && OnlyConditionals(items, expanded)
    requires Offset(items, expanded, |items|) >= U64_LIMIT
    ensures Offset(items, Relaxed(items, labels, expanded), |items|) >= U64_LIMIT
  {
    DistancesGrow(items, expanded, Relaxed(items, labels, expanded), 0, |items|);
  }

  lemma UnconvertibleStays(items: seq<Item>, labels: seq<Option<nat>>, expanded: seq<bool>, valid: nat -> bool)
    requires Resolvable(items, labels) && OnlyConditionals(items, expanded)
    requires !ShortsConvertible(items, labels, expanded)
    ensures !Encodes(items, labels, Relaxed(items, labels, expanded), valid)
  {
    var relaxed := Relaxed(items, labels, expanded);
    var i :| 0 <= i < |items| && items[i].ConditionalBranch? && !expanded[i]
             && !(Convertible(Offset(items, expanded, i))
                  && Convertible(LabelOffset(items, labels, expanded, Target(items, labels, i))));
    DistancesGrow(items, expanded, relaxed, 0, i);
    DistancesGrow(items, expanded, relaxed, 0, labels[Target(items, labels, i)].value);
    assert !ItemEncodes(items, labels, relaxed, valid, i);
  }

  lemma RelaxOnce(items: seq<Item>, labels: seq<Option<nat>>, expanded: seq<bool>)
    requires Resolvable(items, labels) && OnlyConditionals(items, expanded)
    requires Pass(items, labels, expanded) != expanded
    ensures OnlyConditionals(items, Pass(items, labels, expanded))
    ensures Relaxed(items, labels, Pass(items, labels, expanded)) == Relaxed(items, labels, expanded)
  {
    PassGrows(items, labels, expanded);
  }

  /// The finished code runs like the labelled items it was built from, from every label.
  lemma FinishedCodeSimulatesItems<S>(m: Machine<S>, items: seq<Item>, labels: seq<Option<nat>>, valid: nat -> bool,
                                      start: nat, s: S, n: nat)
    requires Resolvable(items, labels) && start < |labels|
    requires Encodes(items, labels, LeastExpansion(items, labels), valid)
    ensures var least := LeastExpansion(items, labels);
            var linked := Link(Words(items, labels, least, |items|), Fixups(items, least, |items|));
            var r := ItemRun(m, items, labels, least, At(labels[start].value, s), n);
            && linked.Some?
            && exists count: nat ::
                 && WordRun(m, linked.value, At(LabelOffsets(items, labels, least)[start], s), count) == Placed(items, least, r)
                 && (r.At? ==> count >= n)
  {
    var least := LeastExpansion(items, labels);
    EveryFixupNamesItsPlaceholder(items, labels, least, |items|);
    WordsSimulateItems(m, items, labels, least, At(labels[start].value, s), n);
    var count := WordCount(m, items, labels, least, At(labels[start].value, s), n);
    assert Placed(items, least, At(labels[start].value, s)) == At(LabelOffsets(items, labels, least)[start], s);
  }
}
