/**
 Layout of labelled code: which conditional branches must be expanded, and where every item starts.
 */
module CodeLayout {
  import opened Results


  datatype Condition =
    | Equal | NotEqual | CarrySet | CarryClear | Minus | Plus | Overflow | NoOverflow
    | UnsignedHigher | UnsignedLowerOrSame | SignedGreaterOrEqual | SignedLess | SignedGreater | SignedLessOrEqual

  /// `op` is a concrete instruction that names no label.
  datatype Item =
    | Instruction(op: nat)
    | Branch(target: nat, link: bool)
    | ConditionalBranch(target: nat, condition: Condition)
    | FunctionBranch(function_: nat, link: bool)
    | FunctionAddress(function_: nat, destination: nat)
    | DataAddress(data: nat, destination: nat)

  const SHORT_LIMIT: int := 0x10_0000
  const LONG_LIMIT: int := 0x800_0000
  const U64_LIMIT: nat := 0x1_0000_0000_0000_0000
  const I64_LIMIT: nat := 0x8000_0000_0000_0000

  /// A multiple of four bytes within a signed field of 19 or 26 bits.
  predicate InShortRange(displacement: int) {
    -SHORT_LIMIT <= displacement < SHORT_LIMIT
  }

  predicate InLongRange(displacement: int) {
    -LONG_LIMIT <= displacement < LONG_LIMIT
  }

  /// The number of instructions skipped is a signed number of 19 bits in a conditional branch, and of 26
  /// bits in any other.
  lemma RangesAreImmediates(displacement: int)
    requires displacement % 4 == 0
    ensures InShortRange(displacement) <==> -0x4_0000 <= displacement / 4 < 0x4_0000
    ensures InLongRange(displacement) <==> -0x200_0000 <= displacement / 4 < 0x200_0000
  {
  }

  // ---------------------------------------------------------------- offsets

  function Size(item: Item, expanded: bool): nat {
    match item
    case ConditionalBranch(_, _) => if expanded then 8 else 4
    case FunctionAddress(_, _) => 8
    case DataAddress(_, _) => 8
    case _ => 4
  }

  /// The byte offset at which item `k` starts; the end of the code for `k == |items|`.
  function Offset(items: seq<Item>, expanded: seq<bool>, k: nat): nat
    requires k <= |items| == |expanded|
  {
    if k == 0 then 0 else Offset(items, expanded, k - 1) + Size(items[k - 1], expanded[k - 1])
  }

  predicate LabelsBound(items: seq<Item>, labels: seq<Option<nat>>) {
    forall l | 0 <= l < |labels| :: labels[l].Some? && labels[l].value <= |items|
  }

  predicate TargetKnown(item: Item, labels: seq<Option<nat>>) {
    (item.Branch? || item.ConditionalBranch?) ==> item.target < |labels|
  }

  predicate Resolvable(items: seq<Item>, labels: seq<Option<nat>>) {
    LabelsBound(items, labels) && forall i | 0 <= i < |items| :: TargetKnown(items[i], labels)
  }

  function LabelOffset(items: seq<Item>, labels: seq<Option<nat>>, expanded: seq<bool>, target: nat): nat
    requires LabelsBound(items, labels) && |items| == |expanded| && target < |labels|
  {
    Offset(items, expanded, labels[target].value)
  }

  /// How far the branch at item `i` reaches.
  function Displacement(items: seq<Item>, labels: seq<Option<nat>>, expanded: seq<bool>, i: nat): int
    requires Resolvable(items, labels) && i < |items| == |expanded|
    requires items[i].Branch? || items[i].ConditionalBranch?
  {
    LabelOffset(items, labels, expanded, items[i].target) - Offset(items, expanded, i)
  }

  /// The short form of conditional branch `i` does not reach its label.
  predicate TooFar(items: seq<Item>, labels: seq<Option<nat>>, expanded: seq<bool>, i: nat)
    requires Resolvable(items, labels) && i < |items| == |expanded|
  {
    items[i].ConditionalBranch? && !InShortRange(Displacement(items, labels, expanded, i))
  }

  // ---------------------------------------------------------------- relaxation

  /// One pass: everything that is too far under the offsets of `expanded` is expanded as well.
  function Pass(items: seq<Item>, labels: seq<Option<nat>>, expanded: seq<bool>): (r: seq<bool>)
    requires Resolvable(items, labels) && |items| == |expanded|
    ensures |r| == |items|
  {
    seq(|items|, i requires 0 <= i < |items| => expanded[i] || TooFar(items, labels, expanded, i))
  }

  /// Conditional branches that are still short.
  function ShortCount(items: seq<Item>, expanded: seq<bool>): nat
    requires |items| == |expanded|
  {
    if items == [] then 0
    else
      var last := |items| - 1;
      ShortCount(items[..last], expanded[..last])
      + if items[last].ConditionalBranch? && !expanded[last] then 1 else 0
  }

  predicate Below(x: seq<bool>, y: seq<bool>) {
    |x| == |y| && forall i | 0 <= i < |x| :: x[i] ==> y[i]
  }

  /// Only conditional branches are ever expanded.
  predicate OnlyConditionals(items: seq<Item>, expanded: seq<bool>) {
    |items| == |expanded| && forall i | 0 <= i < |items| :: expanded[i] ==> items[i].ConditionalBranch?
  }

  lemma {:induction false} ExpandingShortensCount(items: seq<Item>, x: seq<bool>, y: seq<bool>)
    requires |items| == |x| && Below(x, y) && OnlyConditionals(items, y)
    ensures ShortCount(items, y) <= ShortCount(items, x)
    ensures x != y ==> ShortCount(items, y) < ShortCount(items, x)
  {
    if items != [] {
      var last := |items| - 1;
      ExpandingShortensCount(items[..last], x[..last], y[..last]);
      if x[..last] == y[..last] && x[last] == y[last] {
        assert x == x[..last] + [x[last]] && y == y[..last] + [y[last]];
      }
    }
  }

  lemma PassGrows(items: seq<Item>, labels: seq<Option<nat>>, expanded: seq<bool>)
    requires Resolvable(items, labels) && OnlyConditionals(items, expanded)
    ensures Below(expanded, Pass(items, labels, expanded))
    ensures OnlyConditionals(items, Pass(items, labels, expanded))
  {
  }

  /// Passes until nothing changes. Every pass that changes something leaves fewer short branches.
  function Relaxed(items: seq<Item>, labels: seq<Option<nat>>, expanded: seq<bool>): (r: seq<bool>)
    requires Resolvable(items, labels) && OnlyConditionals(items, expanded)
    ensures OnlyConditionals(items, r) && Below(expanded, r)
    ensures Pass(items, labels, r) == r
    decreases ShortCount(items, expanded)
  {
    var next := Pass(items, labels, expanded);
    PassGrows(items, labels, expanded);
    ExpandingShortensCount(items, expanded, next);
    if next == expanded then expanded else Relaxed(items, labels, next)
  }

  function NothingExpanded(items: seq<Item>): (r: seq<bool>)
    ensures OnlyConditionals(items, r)
  {
    seq(|items|, _ => false)
  }

  /// Every branch that stays short reaches its label.
  predicate ValidExpansion(items: seq<Item>, labels: seq<Option<nat>>, expanded: seq<bool>)
    requires Resolvable(items, labels)
  {
    && |expanded| == |items|
    && forall i | 0 <= i < |items| && !expanded[i] :: !TooFar(items, labels, expanded, i)
  }

  /// Expanding more moves two points of the code only further apart.
  lemma {:induction false} DistancesGrow(items: seq<Item>, x: seq<bool>, y: seq<bool>, j: nat, k: nat)
    requires |items| == |x| && Below(x, y) && j <= k <= |items|
    ensures 0 <= Offset(items, x, k) - Offset(items, x, j) <= Offset(items, y, k) - Offset(items, y, j)
    decreases k
  {
    if j < k { DistancesGrow(items, x, y, j, k - 1); }
  }

  /// What is too far stays too far when more is expanded.
  lemma TooFarStaysTooFar(items: seq<Item>, labels: seq<Option<nat>>, x: seq<bool>, y: seq<bool>, i: nat)
    requires Resolvable(items, labels) && i < |items| == |x| && Below(x, y)
    requires TooFar(items, labels, x, i)
    ensures TooFar(items, labels, y, i)
  {
    assert TargetKnown(items[i], labels);
    var t := labels[items[i].target].value;
    if i <= t { DistancesGrow(items, x, y, i, t); } else { DistancesGrow(items, x, y, t, i); }
  }

  /// A pass stays below every valid expansion.
  lemma PassStaysBelow(items: seq<Item>, labels: seq<Option<nat>>, expanded: seq<bool>, valid: seq<bool>)
    requires Resolvable(items, labels) && |expanded| == |items|
    requires ValidExpansion(items, labels, valid) && Below(expanded, valid)
    ensures Below(Pass(items, labels, expanded), valid)
  {
    forall i | 0 <= i < |items| && Pass(items, labels, expanded)[i] ensures valid[i] {
      if !expanded[i] { TooFarStaysTooFar(items, labels, expanded, valid, i); }
    }
  }

  lemma {:induction false} RelaxedStaysBelow(items: seq<Item>, labels: seq<Option<nat>>, expanded: seq<bool>, valid: seq<bool>)
    requires Resolvable(items, labels) && OnlyConditionals(items, expanded)
    requires ValidExpansion(items, labels, valid) && Below(expanded, valid)
    ensures Below(Relaxed(items, labels, expanded), valid)
    decreases ShortCount(items, expanded)
  {
    var next := Pass(items, labels, expanded);
    PassGrows(items, labels, expanded);
    ExpandingShortensCount(items, expanded, next);
    if next != expanded {
      PassStaysBelow(items, labels, expanded, valid);
      RelaxedStaysBelow(items, labels, next, valid);
    }
  }

  function LeastExpansion(items: seq<Item>, labels: seq<Option<nat>>): (r: seq<bool>)
    requires Resolvable(items, labels)
    ensures |r| == |items|
  {
    Relaxed(items, labels, NothingExpanded(items))
  }

  /// MAIN RESULT. Relaxation ends with a valid expansion that is contained in every other, so no valid
  /// layout is shorter, at the end of the code or at any item before it.
  lemma RelaxationIsLeast(items: seq<Item>, labels: seq<Option<nat>>)
    requires Resolvable(items, labels)
    ensures ValidExpansion(items, labels, LeastExpansion(items, labels))
    ensures forall valid | ValidExpansion(items, labels, valid) ::
              && Below(LeastExpansion(items, labels), valid)
              && forall k | 0 <= k <= |items| ::
                   Offset(items, LeastExpansion(items, labels), k) <= Offset(items, valid, k)
  {
    var least := LeastExpansion(items, labels);
    forall i | 0 <= i < |items| && !least[i] ensures !TooFar(items, labels, least, i) {
      assert !Pass(items, labels, least)[i];
    }
    forall valid | ValidExpansion(items, labels, valid)
      ensures Below(least, valid) && forall k | 0 <= k <= |items| :: Offset(items, least, k) <= Offset(items, valid, k)
    {
      RelaxedStaysBelow(items, labels, NothingExpanded(items), valid);
      forall k | 0 <= k <= |items| ensures Offset(items, least, k) <= Offset(items, valid, k) {
        DistancesGrow(items, least, valid, 0, k);
      }
    }
  }

  /// Every displacement is a multiple of four.
  lemma {:induction false} OffsetsAreAligned(items: seq<Item>, expanded: seq<bool>, k: nat)
    requires k <= |items| == |expanded|
    ensures Offset(items, expanded, k) % 4 == 0
  {
    if k > 0 { OffsetsAreAligned(items, expanded, k - 1); }
  }

  lemma {:induction false} OffsetsIncrease(items: seq<Item>, expanded: seq<bool>, j: nat, k: nat)
    requires j < k <= |items| == |expanded|
    ensures Offset(items, expanded, j) + Size(items[j], expanded[j]) <= Offset(items, expanded, k)
    decreases k
  {
    if j < k - 1 { OffsetsIncrease(items, expanded, j, k - 1); }
  }
}
