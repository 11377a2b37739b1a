/// Sets of numbers in increasing order, as ordered maps and sets iterate.
module NaturalSets {
  predicate Increasing(s: seq<nat>) {
    forall i, j | 0 <= i < j < |s| :: s[i] < s[j]
  }

  method SortNumbers(numbers: set<nat>) returns (sorted: seq<nat>)
    ensures Increasing(sorted) && forall p :: p in sorted <==> p in numbers
  {
    sorted := [];
    var left := numbers;
    while left != {}
      invariant left <= numbers && Increasing(sorted)
      invariant forall p :: p in sorted <==> p in numbers && p !in left
      invariant forall p, q | p in sorted && q in left :: p < q
      decreases left
    {
      var least := Least(left);
      assert forall i | 0 <= i < |sorted| :: sorted[i] in sorted;
      sorted := sorted + [least];
      left := left - {least};
    }
  }

  method Least(s: set<nat>) returns (least: nat)
    requires s != {}
    ensures least in s && forall p | p in s :: least <= p
  {
    least :| least in s;
    var left := s - {least};
    while left != {}
      invariant left <= s && least in s && forall p | p in s && p !in left :: least <= p
      decreases left
    {
      var p :| p in left;
      if p < least { least := p; }
      left := left - {p};
    }
  }

  /// What comes before the `k`th number is smaller.
  lemma SmallerComeFirst(s: seq<nat>, k: nat, p: nat)
    requires Increasing(s) && k < |s| && p in s
    ensures p < s[k] <==> p in s[..k]
  {
    if p < s[k] {
      var i :| 0 <= i < |s| && s[i] == p;
      assert s[..k][i] == p;
    }
    if p in s[..k] {
      var i :| 0 <= i < k && s[i] == p;
    }
  }
}
