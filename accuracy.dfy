/** The integer part of `calculateAccuracy`: the total balance before and after rounding. */
module Accuracy {
  import opened Census
  import opened Sorting
  import opened Grouping
  import opened Rounding
  import opened Decimal

  /** `calculateAccuracy`. Both `big.Int` totals are accumulated member by member over
      the original list, reading the rounded list at the same positions. Turning the two
      totals into a percentage is `big.Float` and `float64` arithmetic, which `accuracyOf`
      stands for. */
  method CalculateAccuracy(original: seq<Participant>, rounded: seq<Participant>,
                           accuracyOf: (nat, nat) -> real)
    returns (accuracy: real)
    requires |original| <= |rounded|
    ensures accuracy == accuracyOf(Total(original), Total(rounded[..|original|]))
  {
    var totalOriginal, totalRounded := 0, 0;
    for i := 0 to |original|
      invariant totalOriginal == Total(original[..i])
      invariant totalRounded == Total(rounded[..i])
    {
      TotalSnoc(original, i);
      TotalSnoc(rounded, i);
      totalOriginal := totalOriginal + original[i].balance;
      totalRounded := totalRounded + rounded[i].balance;
    }
    assert original[..|original|] == original;
    accuracy := accuracyOf(totalOriginal, totalRounded);
  }

  /** The groups' sizes weighted by their balances in `reps`: the total of
      `Relabelled(groups, reps)` counted group by group. */
  function Weighted(groups: seq<seq<Participant>>, reps: seq<nat>): nat
    requires |reps| == |groups|
  {
    if groups == [] then 0
    else
      var n := |groups| - 1;
      Weighted(groups[..n], reps[..n]) + Mul(|groups[n]|, reps[n])
  }

  /** Summing a relabelled census member by member gives its group-by-group total. */
  lemma {:induction false} RelabelledTotal(groups: seq<seq<Participant>>, reps: seq<nat>)
    requires |reps| == |groups|
    ensures Total(Relabelled(groups, reps)) == Weighted(groups, reps)
    decreases |groups|
  {
    if groups != [] {
      var n := |groups| - 1;
      RelabelledTotal(groups[..n], reps[..n]);
      TotalAppend(Relabelled(groups[..n], reps[..n]), Relabel(groups[n], reps[n]));
      TotalRelabel(groups[n], reps[n]);
    }
  }

  /** The total of the rounded census counted group by group: each group weighs its size
      times its representative. */
  ghost function RoundedTotal(groups: seq<seq<Participant>>): nat
  {
    Weighted(groups, Representatives(groups))
  }

  /** Summing the rounded census member by member, as `calculateAccuracy` does, gives the
      group-by-group total. */
  lemma RoundedTotalIsSum(groups: seq<seq<Participant>>)
    ensures Total(Rounded(groups)) == RoundedTotal(groups)
  {
    RelabelledTotal(groups, Representatives(groups));
  }

  /** Every group cut from a sorted census is itself sorted. */
  lemma GroupsOfSortedAscending(groups: seq<seq<Participant>>, s: seq<Participant>)
    requires Flatten(groups) == s && SortedByBalance(s)
    ensures forall k :: 0 <= k < |groups| ==> Ascending(Balances(groups[k]))
  {
    forall k | 0 <= k < |groups| ensures Ascending(Balances(groups[k])) {
      forall i, j | 0 <= i < j < |groups[k]| ensures groups[k][i].balance <= groups[k][j].balance {
        GroupMembersOrdered(groups, s, k, i, j);
      }
    }
  }

  lemma GroupMembersOrdered(groups: seq<seq<Participant>>, s: seq<Participant>, k: nat, i: nat, j: nat)
    requires Flatten(groups) == s && SortedByBalance(s)
    requires k < |groups| && i < j < |groups[k]|
    ensures groups[k][i].balance <= groups[k][j].balance
  {
    FlattenAt(groups, k, i);
    FlattenAt(groups, k, j);
    var before := |Flatten(groups[..k])|;
    assert !Less(s[before + j], s[before + i]);
  }

  /** Every group the pass cuts from a sorted census is itself sorted. */
  lemma GreedyGroupsAscending(s: seq<Participant>, t: int, diff: int)
    requires SortedByBalance(s)
    ensures forall k :: 0 <= k < |Greedy(s, t, diff)| ==> Ascending(Balances(Greedy(s, t, diff)[k]))
  {
    GreedyIsGreedy(s, t, diff);
    GroupsOfSortedAscending(Greedy(s, t, diff), s);
  }

  /** Rounding a sorted census never adds weight: the rounded total is at most the original
      total, so the lost weight `totalOriginal - totalRounded` is never negative. */
  lemma RoundedTotalAtMostOriginal(s: seq<Participant>, t: int, diff: int)
    requires SortedByBalance(s)
    ensures |Rounded(Greedy(s, t, diff))| == |s|
    ensures Total(Rounded(Greedy(s, t, diff))) <= Total(s)
    ensures RoundedTotal(Greedy(s, t, diff)) <= Total(s)
  {
    var groups := Greedy(s, t, diff);
    GreedyIsGreedy(s, t, diff);
    GreedyGroupsAscending(s, t, diff);
    RoundedBelow(groups);
    TotalMonotone(Rounded(groups), s);
    RoundedTotalIsSum(groups);
  }
}
