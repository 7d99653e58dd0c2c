/** The forward pass of `groupAndRoundCensus` that cuts the sorted census into groups. */
module Grouping {
  import opened Census

  /** `|a - b|`, the `balanceDiff` compared against `groupBalanceDiff`. */
  function Gap(a: nat, b: nat): nat
  {
    if a <= b then b - a else a - b
  }

  /** Every member at position `j >= 1` got in because the group was still below the
      privacy threshold (`j < t`) or because it is within `diff` of the member before it. */
  ghost predicate Admitted(g: seq<Participant>, t: int, diff: int)
  {
    forall j :: 1 <= j < |g| ==> j < t || Gap(g[j].balance, g[j - 1].balance) <= diff
  }

  /** Group `g` was closed when `next` arrived: it had reached the threshold and `next`
      is more than `diff` away from its last member. */
  ghost predicate ClosedBefore(g: seq<Participant>, next: Participant, t: int, diff: int)
  {
    |g| > 0 && |g| >= t && Gap(next.balance, g[|g| - 1].balance) > diff
  }

  ghost predicate GroupsValid(groups: seq<seq<Participant>>, t: int, diff: int)
  {
    && (forall k :: 0 <= k < |groups| ==> |groups[k]| > 0 && Admitted(groups[k], t, diff))
    && (forall k :: 1 <= k < |groups| ==> ClosedBefore(groups[k - 1], groups[k][0], t, diff))
  }

  /** The groups cover the input exactly, in order, and every cut and every admission
      obeys the rule of the pass. */
  ghost predicate IsGreedyGrouping(groups: seq<seq<Participant>>, s: seq<Participant>, t: int, diff: int)
  {
    Flatten(groups) == s && GroupsValid(groups, t, diff)
  }

  /** The state of the pass after `i` participants while the last group is still open:
      the closed groups and the open one spell out the first `i` participants. */
  ghost predicate PassState(s: seq<Participant>, i: nat, groups: seq<seq<Participant>>,
                            current: seq<Participant>, t: int, diff: int)
  {
    && i <= |s|
    && (i == 0) == (current == [])
    && Flatten(groups) + current == s[..i]
    && GroupsValid(groups, t, diff)
    && (current != [] ==> Admitted(current, t, diff))
    && (current != [] && groups != [] ==> ClosedBefore(groups[|groups| - 1], current[0], t, diff))
  }

  /** The grouping loop of `groupAndRoundCensus` over the (already sorted) participants,
      with its two accumulators `currentGroup` and `groups`. */
  method Group(s: seq<Participant>, t: int, diff: int) returns (groups: seq<seq<Participant>>)
    ensures IsGreedyGrouping(groups, s, t, diff)
    ensures groups == [] <==> s == []
  {
    groups := [];
    var current: seq<Participant> := [];
    for i := 0 to |s|
      invariant i < |s| || i == 0 ==> PassState(s, i, groups, current, t, diff)
      invariant 0 < i == |s| ==> IsGreedyGrouping(groups, s, t, diff) && groups != []
    {
      var participant := s[i];
      if |current| == 0 {
        Admit(s, i, groups, current, t, diff);
        current := current + [participant];
      } else {
        var last := current[|current| - 1];
        var balanceDiff := Gap(participant.balance, last.balance);
        if |current| < t || balanceDiff <= diff {
          Admit(s, i, groups, current, t, diff);
          current := current + [participant];
        } else {
          Close(s, i, groups, current, t, diff);
          groups := groups + [current];
          current := [participant];
        }
      }
      if i == |s| - 1 {
        Finish(s, groups, current, t, diff);
        groups := groups + [current];
      }
    }
    if s == [] {
      assert PassState(s, 0, groups, current, t, diff);
    }
  }

  /** The loop step that appends the next participant to the open group. */
  lemma Admit(s: seq<Participant>, i: nat, groups: seq<seq<Participant>>, current: seq<Participant>,
              t: int, diff: int)
    requires i < |s| && PassState(s, i, groups, current, t, diff)
    requires current != [] ==> |current| < t || Gap(s[i].balance, current[|current| - 1].balance) <= diff
    ensures PassState(s, i + 1, groups, current + [s[i]], t, diff)
  {
    assert s[..i + 1] == s[..i] + [s[i]];
    var g := current + [s[i]];
    forall j | 1 <= j < |g| ensures j < t || Gap(g[j].balance, g[j - 1].balance) <= diff {
      if j < |current| {
        assert g[j] == current[j] && g[j - 1] == current[j - 1];
      }
    }
  }

  /** The loop step that closes the open group and opens one holding the next participant. */
  lemma Close(s: seq<Participant>, i: nat, groups: seq<seq<Participant>>, current: seq<Participant>,
              t: int, diff: int)
    requires i < |s| && PassState(s, i, groups, current, t, diff) && current != []
    requires |current| >= t && Gap(s[i].balance, current[|current| - 1].balance) > diff
    ensures PassState(s, i + 1, groups + [current], [s[i]], t, diff)
  {
    assert s[..i + 1] == s[..i] + [s[i]];
    FlattenSnoc(groups, current);
    CloseKeepsValid(groups, current, t, diff);
  }

  /** The emission of the last group once every participant is in. */
  lemma Finish(s: seq<Participant>, groups: seq<seq<Participant>>, current: seq<Participant>,
               t: int, diff: int)
    requires PassState(s, |s|, groups, current, t, diff) && current != []
    ensures IsGreedyGrouping(groups + [current], s, t, diff)
  {
    assert s[..|s|] == s;
    FlattenSnoc(groups, current);
    CloseKeepsValid(groups, current, t, diff);
  }

  lemma CloseKeepsValid(groups: seq<seq<Participant>>, current: seq<Participant>, t: int, diff: int)
    requires GroupsValid(groups, t, diff)
    requires current != [] && Admitted(current, t, diff)
    requires groups != [] ==> ClosedBefore(groups[|groups| - 1], current[0], t, diff)
    ensures GroupsValid(groups + [current], t, diff)
  {
    var g := groups + [current];
    forall k | 1 <= k < |g| ensures ClosedBefore(g[k - 1], g[k][0], t, diff) {
      if k < |groups| {
        assert g[k - 1] == groups[k - 1] && g[k] == groups[k];
      }
    }
  }

  /** Length of the group that starts the input once its first `n` members are in. */
  ghost function LeadingGroupLength(s: seq<Participant>, t: int, diff: int, n: nat): (r: nat)
    requires 1 <= n <= |s|
    ensures n <= r <= |s|
    decreases |s| - n
  {
    if n == |s| || !(n < t || Gap(s[n].balance, s[n - 1].balance) <= diff) then n
    else LeadingGroupLength(s, t, diff, n + 1)
  }

  /** The leading group admits every member from position `n` on up to its end, and it ends
      either with the input or at a member that closes it. */
  lemma {:induction false} LeadingGroupLengthRules(s: seq<Participant>, t: int, diff: int, n: nat)
    requires 1 <= n <= |s|
    ensures var r := LeadingGroupLength(s, t, diff, n);
            && (forall j :: n <= j < r ==> j < t || Gap(s[j].balance, s[j - 1].balance) <= diff)
            && (r < |s| ==> r >= t && Gap(s[r].balance, s[r - 1].balance) > diff)
    decreases |s| - n
  {
    if !(n == |s| || !(n < t || Gap(s[n].balance, s[n - 1].balance) <= diff)) {
      LeadingGroupLengthRules(s, t, diff, n + 1);
    }
  }

  /** The grouping the pass computes, written as a recursion on the input. */
  ghost function Greedy(s: seq<Participant>, t: int, diff: int): seq<seq<Participant>>
    decreases |s|
  {
    if s == [] then []
    else
      var n := LeadingGroupLength(s, t, diff, 1);
      [s[..n]] + Greedy(s[n..], t, diff)
  }

  /** Putting a group in front of a valid grouping. */
  lemma ConsKeepsValid(first: seq<Participant>, rest: seq<seq<Participant>>, t: int, diff: int)
    requires GroupsValid(rest, t, diff) && first != [] && Admitted(first, t, diff)
    requires rest != [] ==> rest[0] != [] && ClosedBefore(first, rest[0][0], t, diff)
    ensures GroupsValid([first] + rest, t, diff)
  {
    var g := [first] + rest;
    forall k | 1 <= k < |g| ensures ClosedBefore(g[k - 1], g[k][0], t, diff) {
      if k > 1 {
        assert g[k - 1] == rest[k - 2] && g[k] == rest[k - 1];
      }
    }
    forall k | 0 <= k < |g| ensures |g[k]| > 0 && Admitted(g[k], t, diff) {
      if k > 0 {
        assert g[k] == rest[k - 1];
      }
    }
  }

  /** The recursion obeys the rules of the pass. */
  lemma {:induction false} GreedyIsGreedy(s: seq<Participant>, t: int, diff: int)
    ensures IsGreedyGrouping(Greedy(s, t, diff), s, t, diff)
    decreases |s|
  {
    if s != [] {
      var n := LeadingGroupLength(s, t, diff, 1);
      var first := s[..n];
      LeadingGroupLengthRules(s, t, diff, 1);
      GreedyIsGreedy(s[n..], t, diff);
      var rest := Greedy(s[n..], t, diff);
      assert Admitted(first, t, diff) by {
        forall j | 1 <= j < n ensures j < t || Gap(first[j].balance, first[j - 1].balance) <= diff {
          assert first[j] == s[j] && first[j - 1] == s[j - 1];
        }
      }
      if rest != [] {
        assert rest[0] + Flatten(rest[1..]) == s[n..];
        assert rest[0][0] == s[n];
      }
      ConsKeepsValid(first, rest, t, diff);
      assert Greedy(s, t, diff) == [first] + rest;
      assert ([first] + rest)[1..] == rest;
      assert first + s[n..] == s;
    }
  }

  lemma NoGroupsOnlyForEmpty(groups: seq<seq<Participant>>, s: seq<Participant>, t: int, diff: int)
    requires IsGreedyGrouping(groups, s, t, diff)
    ensures groups == [] <==> s == []
  {
    if groups != [] {
      assert s == groups[0] + Flatten(groups[1..]);
    }
  }

  /** What the rules say about the first group: it runs while members are admitted and
      stops at the first member that is not; the rest is a greedy grouping of what follows. */
  lemma FirstGroupShape(groups: seq<seq<Participant>>, s: seq<Participant>, t: int, diff: int)
    requires IsGreedyGrouping(groups, s, t, diff) && groups != []
    ensures 1 <= |groups[0]| <= |s| && groups[0] == s[..|groups[0]|]
    ensures forall j :: 1 <= j < |groups[0]| ==> j < t || Gap(s[j].balance, s[j - 1].balance) <= diff
    ensures |groups[0]| < |s| ==>
      |groups[0]| >= t && Gap(s[|groups[0]|].balance, s[|groups[0]| - 1].balance) > diff
    ensures IsGreedyGrouping(groups[1..], s[|groups[0]|..], t, diff)
  {
    var first, tail := groups[0], groups[1..];
    var n := |first|;
    assert s == first + Flatten(tail);
    forall j | 1 <= j < n ensures j < t || Gap(s[j].balance, s[j - 1].balance) <= diff {
      assert first[j] == s[j] && first[j - 1] == s[j - 1];
    }
    if n < |s| {
      assert tail != [];
      assert tail[0] + Flatten(tail[1..]) == s[n..];
      assert tail[0][0] == s[n] && first[n - 1] == s[n - 1];
    }
    forall k | 1 <= k < |tail| ensures ClosedBefore(tail[k - 1], tail[k][0], t, diff) {
      assert tail[k - 1] == groups[k] && tail[k] == groups[k + 1];
    }
  }

  /** A first-group length that obeys the rules is the one the recursion picks. */
  lemma LeadingLengthUnique(s: seq<Participant>, t: int, diff: int, n: nat)
    requires 1 <= n <= |s|
    requires forall j :: 1 <= j < n ==> j < t || Gap(s[j].balance, s[j - 1].balance) <= diff
    requires n < |s| ==> n >= t && Gap(s[n].balance, s[n - 1].balance) > diff
    ensures n == LeadingGroupLength(s, t, diff, 1)
  {
    LeadingLengthFrom(s, t, diff, 1, n);
  }

  /** The recursion, started at any position `m` up to such a length `n`, stops at `n`. */
  lemma {:induction false} LeadingLengthFrom(s: seq<Participant>, t: int, diff: int, m: nat, n: nat)
    requires 1 <= m <= n <= |s|
    requires forall j :: m <= j < n ==> j < t || Gap(s[j].balance, s[j - 1].balance) <= diff
    requires n < |s| ==> n >= t && Gap(s[n].balance, s[n - 1].balance) > diff
    ensures n == LeadingGroupLength(s, t, diff, m)
    decreases n - m
  {
    if m < n {
      LeadingLengthFrom(s, t, diff, m + 1, n);
    }
  }

  /** The rules of the pass leave no choice: every grouping that obeys them is Greedy. */
  lemma {:induction false} OnlyGreedy(groups: seq<seq<Participant>>, s: seq<Participant>, t: int, diff: int)
    requires IsGreedyGrouping(groups, s, t, diff)
    ensures groups == Greedy(s, t, diff)
    decreases |s|
  {
    NoGroupsOnlyForEmpty(groups, s, t, diff);
    if s != [] {
      FirstGroupShape(groups, s, t, diff);
      var n := |groups[0]|;
      LeadingLengthUnique(s, t, diff, n);
      OnlyGreedy(groups[1..], s[n..], t, diff);
      assert groups == [groups[0]] + groups[1..];
    }
  }

  /** Two groupings of one input that both obey the rules are the same grouping. */
  lemma GreedyUnique(g1: seq<seq<Participant>>, g2: seq<seq<Participant>>,
                     s: seq<Participant>, t: int, diff: int)
    requires IsGreedyGrouping(g1, s, t, diff) && IsGreedyGrouping(g2, s, t, diff)
    ensures g1 == g2
  {
    OnlyGreedy(g1, s, t, diff);
    OnlyGreedy(g2, s, t, diff);
  }

  /** The balances of each group, group by group. */
  ghost function GroupBalances(groups: seq<seq<Participant>>): (r: seq<seq<nat>>)
    ensures |r| == |groups| && forall k :: 0 <= k < |groups| ==> r[k] == Balances(groups[k])
  {
    seq(|groups|, k requires 0 <= k < |groups| => Balances(groups[k]))
  }

  lemma BalancesSlices(s1: seq<Participant>, s2: seq<Participant>, n: nat)
    requires Balances(s1) == Balances(s2) && n <= |s1|
    ensures Balances(s1[..n]) == Balances(s2[..n]) && Balances(s1[n..]) == Balances(s2[n..])
  {
    assert forall j :: 0 <= j < |s1| ==> s1[j].balance == Balances(s1)[j] == s2[j].balance;
  }

  /** The pass compares balances only, so where the first group ends does not depend on
      addresses. */
  lemma {:induction false} LeadingLengthByBalances(s1: seq<Participant>, s2: seq<Participant>,
                                                   t: int, diff: int, n: nat)
    requires Balances(s1) == Balances(s2) && 1 <= n <= |s1|
    ensures LeadingGroupLength(s1, t, diff, n) == LeadingGroupLength(s2, t, diff, n)
    decreases |s1| - n
  {
    assert forall j :: 0 <= j < |s1| ==> s1[j].balance == Balances(s1)[j] == s2[j].balance;
    if n < |s1| {
      LeadingLengthByBalances(s1, s2, t, diff, n + 1);
    }
  }

  /** Two inputs with the same balances in the same order are cut into groups of the same
      lengths holding the same balances: whichever order `sort.Sort` leaves equal balances
      in, the grouping carries the same numbers. */
  lemma {:induction false} GreedyByBalances(s1: seq<Participant>, s2: seq<Participant>, t: int, diff: int)
    requires Balances(s1) == Balances(s2)
    ensures GroupBalances(Greedy(s1, t, diff)) == GroupBalances(Greedy(s2, t, diff))
    decreases |s1|
  {
    if s1 != [] {
      var n := LeadingGroupLength(s1, t, diff, 1);
      LeadingLengthByBalances(s1, s2, t, diff, 1);
      BalancesSlices(s1, s2, n);
      GreedyByBalances(s1[n..], s2[n..], t, diff);
      var g1, g2 := Greedy(s1, t, diff), Greedy(s2, t, diff);
      assert g1 == [s1[..n]] + Greedy(s1[n..], t, diff);
      assert g2 == [s2[..n]] + Greedy(s2[n..], t, diff);
      forall k | 0 <= k < |g1| ensures Balances(g1[k]) == Balances(g2[k]) {
        if k > 0 {
          assert g1[k] == Greedy(s1[n..], t, diff)[k - 1];
          assert g2[k] == Greedy(s2[n..], t, diff)[k - 1];
          assert GroupBalances(Greedy(s1[n..], t, diff))[k - 1] == GroupBalances(Greedy(s2[n..], t, diff))[k - 1];
        }
      }
    }
  }
}
