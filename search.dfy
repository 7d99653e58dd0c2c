/** `groupAndRoundCensus` and `GroupAndRoundCensus`: one rounding at a given threshold, and
    the search over thresholds that drives it. */
module Search {
  import opened Census
  import opened Sorting
  import opened Grouping
  import opened Rounding
  import opened Accuracy
  import opened Outliers

  /** The score of threshold `t` on a census sorted by balance: `accuracyOf` of the total
      before and the total after rounding. */
  ghost function Score(s: seq<Participant>, t: int, diff: int, accuracyOf: (nat, nat) -> real): real
  {
    accuracyOf(Total(s), RoundedTotal(Greedy(s, t, diff)))
  }

  /** `groupAndRoundCensus`: sorts the caller's participants in place, groups them, rounds
      every group and scores the result. */
  method GroupAndRound(a: array<Participant>, privacyThreshold: int, groupBalanceDiff: int,
                       accuracyOf: (nat, nat) -> real)
    returns (roundedCensus: seq<Participant>, accuracy: real)
    modifies a
    ensures SortedByBalance(a[..]) && multiset(a[..]) == old(multiset(a[..]))
    ensures roundedCensus == Rounded(Greedy(a[..], privacyThreshold, groupBalanceDiff))
    ensures accuracy == Score(a[..], privacyThreshold, groupBalanceDiff, accuracyOf)
  {
    SortByBalance(a);
    var participants := a[..];
    var groups := Group(participants, privacyThreshold, groupBalanceDiff);
    OnlyGreedy(groups, participants, privacyThreshold, groupBalanceDiff);
    roundedCensus := RoundGroups(groups);
    ScoreIsAccuracy(participants, privacyThreshold, groupBalanceDiff, accuracyOf);
    assert roundedCensus[..|participants|] == roundedCensus;
    accuracy := CalculateAccuracy(participants, roundedCensus, accuracyOf);
  }

  /** The score is the accuracy of the rounded census, which has one entry per participant. */
  lemma ScoreIsAccuracy(s: seq<Participant>, t: int, diff: int, accuracyOf: (nat, nat) -> real)
    ensures |Rounded(Greedy(s, t, diff))| == |s|
    ensures Score(s, t, diff, accuracyOf) == accuracyOf(Total(s), Total(Rounded(Greedy(s, t, diff))))
  {
    var groups := Greedy(s, t, diff);
    GreedyIsGreedy(s, t, diff);
    RelabelledLength(groups, Representatives(groups));
    RoundedTotalIsSum(groups);
  }

  /** The order `sort.Sort` leaves equal balances in does not change any score. */
  lemma ScoreOfPermutation(s1: seq<Participant>, s2: seq<Participant>, t: int, diff: int,
                           accuracyOf: (nat, nat) -> real)
    requires SortedByBalance(s1) && SortedByBalance(s2) && multiset(s1) == multiset(s2)
    ensures Score(s1, t, diff, accuracyOf) == Score(s2, t, diff, accuracyOf)
  {
    SortedPermutationsAgree(s1, s2);
    TotalByBalances(s1, s2);
    GreedyByBalances(s1, s2, t, diff);
    RoundedByBalances(Greedy(s1, t, diff), Greedy(s2, t, diff));
    TotalByBalances(Rounded(Greedy(s1, t, diff)), Rounded(Greedy(s2, t, diff)));
    RoundedTotalIsSum(Greedy(s1, t, diff));
    RoundedTotalIsSum(Greedy(s2, t, diff));
  }

  /** `gap`: a thirty-third of the threshold (Go's integer division; the threshold is
      positive), and at least 1. */
  function Step(t: int): (gap: int)
    requires t >= 1
    ensures gap >= 1
  {
    if t / 33 < 1 then 1 else t / 33
  }

  /** The thresholds the search visits from `t` on while they do not exceed `maxT`. */
  ghost function Thresholds(t: int, maxT: int): seq<int>
    requires t >= 1
    decreases if t > maxT then 0 else maxT - t + 1
  {
    if t > maxT then [] else [t] + Thresholds(t + Step(t), maxT)
  }

  /** The schedule starts at `t` (unless `t` is already past `maxT`), advances by `Step`,
      stays within `[t, maxT]`, and stops at the first value past `maxT`. */
  lemma {:induction false} ThresholdsShape(t: int, maxT: int)
    requires t >= 1
    ensures Thresholds(t, maxT) == [] <==> t > maxT
    ensures Thresholds(t, maxT) != [] ==> Thresholds(t, maxT)[0] == t
    ensures forall i :: 0 <= i < |Thresholds(t, maxT)| ==> t <= Thresholds(t, maxT)[i] <= maxT
    ensures forall i :: 0 <= i < |Thresholds(t, maxT)| - 1 ==>
              Thresholds(t, maxT)[i + 1] == Thresholds(t, maxT)[i] + Step(Thresholds(t, maxT)[i])
    ensures Thresholds(t, maxT) != [] ==>
              var last := Thresholds(t, maxT)[|Thresholds(t, maxT)| - 1]; last + Step(last) > maxT
    decreases if t > maxT then 0 else maxT - t + 1
  {
    if t <= maxT {
      var rest := Thresholds(t + Step(t), maxT);
      ThresholdsShape(t + Step(t), maxT);
      assert Thresholds(t, maxT) == [t] + rest;
    }
  }

  /** The schedule strictly increases. */
  lemma ThresholdsIncrease(t: int, maxT: int, i: nat, j: nat)
    requires t >= 1 && i < j < |Thresholds(t, maxT)|
    ensures Thresholds(t, maxT)[i] < Thresholds(t, maxT)[j]
    decreases j - i
  {
    ThresholdsShape(t, maxT);
    if i + 1 < j {
      ThresholdsIncrease(t, maxT, i + 1, j);
    }
  }

  /** The scores of the first `n` thresholds of `ts` on one sorted census. */
  ghost function Scores(s: seq<Participant>, ts: seq<int>, n: nat, diff: int, accuracyOf: (nat, nat) -> real)
    : (r: seq<real>)
    requires n <= |ts|
    ensures |r| == n
  {
    if n == 0 then [] else Scores(s, ts, n - 1, diff, accuracyOf) + [Score(s, ts[n - 1], diff, accuracyOf)]
  }

  /** Position `i` of the scores is the score of the `i`-th threshold. */
  lemma {:induction false} ScoresAt(s: seq<Participant>, ts: seq<int>, n: nat, i: nat, diff: int,
                                    accuracyOf: (nat, nat) -> real)
    requires i < n <= |ts|
    ensures Scores(s, ts, n, diff, accuracyOf)[i] == Score(s, ts[i], diff, accuracyOf)
    decreases n
  {
    if i < n - 1 {
      ScoresAt(s, ts, n - 1, i, diff, accuracyOf);
    }
  }

  /** The selection rule of the search with `maxAccuracy` starting at 0: `k` is the first
      position holding the largest score when that score is positive, and -1 when no score
      is. */
  ghost predicate EarliestBest(scores: seq<real>, k: int)
  {
    if k < 0 then k == -1 && forall i :: 0 <= i < |scores| ==> scores[i] <= 0.0
    else
      && k < |scores| && scores[k] > 0.0
      && (forall i :: 0 <= i < |scores| ==> scores[i] <= scores[k])
      && (forall i :: 0 <= i < k ==> scores[i] < scores[k])
  }

  /** The selection rule picks at most one position. */
  lemma EarliestBestUnique(scores: seq<real>, k1: int, k2: int)
    requires EarliestBest(scores, k1) && EarliestBest(scores, k2)
    ensures k1 == k2
  {
  }

  /** `chosen` is the threshold the search picks on the sorted census `s` when it visits
      `Thresholds(minT, maxT)`: the one at the earliest best position `best`, or `minT`
      when no score is positive. */
  ghost predicate Selected(s: seq<Participant>, minT: int, maxT: int, diff: int, accuracyOf: (nat, nat) -> real,
                           best: int, chosen: int)
    requires minT >= 1
  {
    var ts := Thresholds(minT, maxT);
    && EarliestBest(Scores(s, ts, |ts|, diff, accuracyOf), best)
    && chosen == if best < 0 then minT else ts[best]
  }

  /** Outcome of the final accuracy check. */
  datatype Status = Satisfied | BelowMinimumAccuracy

  /** One step of the selection: a score replaces the best so far only when it is strictly
      larger than `maxAccuracy`, which is 0 until some score has been kept. */
  lemma EarliestBestStep(scores: seq<real>, k: int, x: real, maxAccuracy: real)
    requires EarliestBest(scores, k)
    requires maxAccuracy == if k < 0 then 0.0 else scores[k]
    ensures EarliestBest(scores + [x], if x > maxAccuracy then |scores| else k)
  {
    var next := scores + [x];
    assert forall i :: 0 <= i < |scores| ==> next[i] == scores[i];
  }

  /** The scores of a list of thresholds do not depend on which sorted permutation of the
      census they are computed on. */
  lemma ScoresOfPermutation(s1: seq<Participant>, s2: seq<Participant>, ts: seq<int>, n: nat, diff: int,
                            accuracyOf: (nat, nat) -> real)
    requires SortedByBalance(s1) && SortedByBalance(s2) && multiset(s1) == multiset(s2)
    requires n <= |ts|
    ensures Scores(s1, ts, n, diff, accuracyOf) == Scores(s2, ts, n, diff, accuracyOf)
  {
    forall i | 0 <= i < n
      ensures Scores(s1, ts, n, diff, accuracyOf)[i] == Scores(s2, ts, n, diff, accuracyOf)[i]
    {
      ScoresAt(s1, ts, n, i, diff, accuracyOf);
      ScoresAt(s2, ts, n, i, diff, accuracyOf);
      ScoreOfPermutation(s1, s2, ts[i], diff, accuracyOf);
    }
  }

  /** The choice does not depend on which sorted permutation of the census it is made on. */
  lemma SelectedOfPermutation(s1: seq<Participant>, s2: seq<Participant>, minT: int, maxT: int, diff: int,
                              accuracyOf: (nat, nat) -> real, best: int, chosen: int)
    requires minT >= 1 && multiset(s1) == multiset(s2)
    requires Thresholds(minT, maxT) != [] ==> SortedByBalance(s1) && SortedByBalance(s2)
    requires Selected(s1, minT, maxT, diff, accuracyOf, best, chosen)
    ensures Selected(s2, minT, maxT, diff, accuracyOf, best, chosen)
  {
    var ts := Thresholds(minT, maxT);
    if ts != [] {
      ScoresOfPermutation(s1, s2, ts, |ts|, diff, accuracyOf);
    }
  }

  /** The schedule from `minT` is empty exactly when `minT` is already past `maxT`, and
      otherwise starts at `minT`. */
  lemma ThresholdsStart(minT: int, maxT: int)
    requires minT >= 1
    ensures var ts := Thresholds(minT, maxT);
            && (ts == [] <==> minT > maxT)
            && (ts != [] ==> ts[0] == minT)
  {
    ThresholdsShape(minT, maxT);
  }

  /** The threshold after position `n` of the schedule from `minT`: the next entry is `Step`
      further on and within `maxT`, and after the last entry a `Step` leads past `maxT`. */
  lemma ThresholdsNext(minT: int, maxT: int, n: nat)
    requires minT >= 1 && n < |Thresholds(minT, maxT)|
    ensures var ts := Thresholds(minT, maxT);
            && minT <= ts[n]
            && (n + 1 < |ts| ==> ts[n + 1] == ts[n] + Step(ts[n]) && ts[n + 1] <= maxT)
            && (n + 1 == |ts| ==> ts[n] + Step(ts[n]) > maxT)
  {
    ThresholdsShape(minT, maxT);
  }

  /** One pass of the search loop: the scores of the thresholds visited so far survive the
      re-sort, and the new score goes at the end. */
  lemma SearchStep(before: seq<Participant>, after: seq<Participant>, ts: seq<int>, visited: nat,
                   scores: seq<real>, last: real, diff: int, accuracyOf: (nat, nat) -> real)
    requires visited < |ts|
    requires visited > 0 ==> SortedByBalance(before)
    requires SortedByBalance(after) && multiset(after) == multiset(before)
    requires scores == Scores(before, ts, visited, diff, accuracyOf)
    requires last == Score(after, ts[visited], diff, accuracyOf)
    ensures scores + [last] == Scores(after, ts, visited + 1, diff, accuracyOf)
  {
    if visited > 0 {
      ScoresOfPermutation(after, before, ts, visited, diff, accuracyOf);
    }
  }

  /** One pass of the search loop: `groupAndRoundCensus` at the threshold `t` visited at
      position `visited` of the schedule `ts`, of which only the accuracy is kept; the scores
      of the thresholds visited so far, which the re-sort leaves unchanged, gain that one at
      the end. */
  method VisitThreshold(cleaned: array<Participant>, t: int, groupBalanceDiff: int,
                        accuracyOf: (nat, nat) -> real, ghost ts: seq<int>, ghost visited: nat,
                        ghost scores: seq<real>)
    returns (accuracy: real)
    requires visited < |ts| && ts[visited] == t
    requires visited > 0 ==> SortedByBalance(cleaned[..])
    requires scores == Scores(cleaned[..], ts, visited, groupBalanceDiff, accuracyOf)
    modifies cleaned
    ensures SortedByBalance(cleaned[..]) && multiset(cleaned[..]) == old(multiset(cleaned[..]))
    ensures scores + [accuracy] == Scores(cleaned[..], ts, visited + 1, groupBalanceDiff, accuracyOf)
  {
    ghost var before := cleaned[..];
    var _, lastAccuracy := GroupAndRound(cleaned, t, groupBalanceDiff, accuracyOf);
    accuracy := lastAccuracy;
    SearchStep(before, cleaned[..], ts, visited, scores, accuracy, groupBalanceDiff, accuracyOf);
  }

  /** The rounded census of a sorted census: one entry per participant, with its address,
      at no more than its balance. */
  lemma RoundedCensusShape(s: seq<Participant>, t: int, diff: int)
    requires SortedByBalance(s)
    ensures |Rounded(Greedy(s, t, diff))| == |s|
    ensures forall i :: 0 <= i < |s| ==>
              Rounded(Greedy(s, t, diff))[i].address == s[i].address &&
              Rounded(Greedy(s, t, diff))[i].balance <= s[i].balance
  {
    var groups := Greedy(s, t, diff);
    GreedyIsGreedy(s, t, diff);
    GreedyGroupsAscending(s, t, diff);
    RoundedBelow(groups);
    RoundedAddresses(groups);
    assert forall i :: 0 <= i < |s| ==> Rounded(groups)[i].address == Addresses(Rounded(groups))[i];
  }

  /** The final list holds every input address once: the ranked retained participants,
      rounded, followed by the outliers. */
  lemma OutputKeepsEveryone(participants: seq<Participant>, isOutlier: nat -> bool,
                            ranked: seq<Participant>, t: int, diff: int)
    requires multiset(ranked) == multiset(Kept(participants, isOutlier))
    ensures |Rounded(Greedy(ranked, t, diff)) + Flagged(participants, isOutlier)| == |participants|
    ensures multiset(Addresses(Rounded(Greedy(ranked, t, diff)) + Flagged(participants, isOutlier)))
            == multiset(Addresses(participants))
  {
    var kept, flagged := Kept(participants, isOutlier), Flagged(participants, isOutlier);
    var rounded := Rounded(Greedy(ranked, t, diff));
    GreedyIsGreedy(ranked, t, diff);
    RoundedAddresses(Greedy(ranked, t, diff));
    PartitionIsComplete(participants, isOutlier);
    assert |ranked| == |multiset(ranked)| == |multiset(kept)| == |kept|;
    AddressesAppend(rounded, flagged);
    AddressesAppend(kept, flagged);
    AddressesPermutation(ranked, kept);
    AddressesPermutation(kept + flagged, participants);
  }

  /** The selection state of the search after the scores `scores` of the first thresholds
      of `ts`: `best` is their earliest best position, `maxAccuracy` its score (0 while there
      is none) and `chosen` its threshold (`minT` while there is none). */
  ghost predicate SelectionState(ts: seq<int>, minT: int, scores: seq<real>, best: int, maxAccuracy: real,
                                 chosen: int)
  {
    && |scores| <= |ts|
    && EarliestBest(scores, best)
    && (best < 0 ==> maxAccuracy == 0.0 && chosen == minT)
    && (best >= 0 ==> chosen == ts[best] && maxAccuracy == scores[best])
  }

  /** A new score `x` for the next threshold either replaces the selection, when it is
      strictly above `maxAccuracy`, or leaves it as it was. */
  lemma SelectionStep(ts: seq<int>, minT: int, scores: seq<real>, best: int, maxAccuracy: real,
                      chosen: int, x: real)
    requires SelectionState(ts, minT, scores, best, maxAccuracy, chosen) && |scores| < |ts|
    ensures x > maxAccuracy ==> SelectionState(ts, minT, scores + [x], |scores|, x, ts[|scores|])
    ensures x <= maxAccuracy ==> SelectionState(ts, minT, scores + [x], best, maxAccuracy, chosen)
  {
    EarliestBestStep(scores, best, x, maxAccuracy);
  }

  /** The search loop of `GroupAndRoundCensus` over the retained participants, which every
      round re-sorts in place: visits `Thresholds(minPrivacyThreshold, maxPrivacyThreshold)`
      and keeps the first threshold whose score is strictly above `maxAccuracy` (0 at the
      start) and every score before it. */
  method SearchThresholds(cleaned: array<Participant>, minPrivacyThreshold: int, maxPrivacyThreshold: int,
                          groupBalanceDiff: int, accuracyOf: (nat, nat) -> real)
    returns (maxAccuracyPrivacyThreshold: int, ghost best: int)
    requires minPrivacyThreshold >= 1
    modifies cleaned
    ensures multiset(cleaned[..]) == old(multiset(cleaned[..]))
    ensures Thresholds(minPrivacyThreshold, maxPrivacyThreshold) != [] ==> SortedByBalance(cleaned[..])
    ensures Thresholds(minPrivacyThreshold, maxPrivacyThreshold) == [] ==> cleaned[..] == old(cleaned[..])
    ensures Selected(cleaned[..], minPrivacyThreshold, maxPrivacyThreshold, groupBalanceDiff, accuracyOf,
                     best, maxAccuracyPrivacyThreshold)
  {
    var currentPrivacyThreshold := minPrivacyThreshold;
    var maxAccuracy := 0.0;
    maxAccuracyPrivacyThreshold := currentPrivacyThreshold;
    ghost var ts := Thresholds(minPrivacyThreshold, maxPrivacyThreshold);
    ghost var visited := 0;
    ghost var scores: seq<real> := [];
    best := -1;
    ThresholdsStart(minPrivacyThreshold, maxPrivacyThreshold);
    while currentPrivacyThreshold <= maxPrivacyThreshold
      invariant currentPrivacyThreshold >= 1 && visited <= |ts|
      invariant visited < |ts| ==> ts[visited] == currentPrivacyThreshold
      invariant visited < |ts| <==> currentPrivacyThreshold <= maxPrivacyThreshold
      invariant multiset(cleaned[..]) == old(multiset(cleaned[..]))
      invariant visited > 0 ==> SortedByBalance(cleaned[..])
      invariant visited == 0 ==> cleaned[..] == old(cleaned[..])
      invariant scores == Scores(cleaned[..], ts, visited, groupBalanceDiff, accuracyOf)
      invariant SelectionState(ts, minPrivacyThreshold, scores, best, maxAccuracy, maxAccuracyPrivacyThreshold)
      decreases maxPrivacyThreshold - currentPrivacyThreshold
    {
      var lastAccuracy := VisitThreshold(cleaned, currentPrivacyThreshold, groupBalanceDiff, accuracyOf,
                                         ts, visited, scores);
      SelectionStep(ts, minPrivacyThreshold, scores, best, maxAccuracy, maxAccuracyPrivacyThreshold,
                    lastAccuracy);
      if lastAccuracy > maxAccuracy {
        maxAccuracy := lastAccuracy;
        maxAccuracyPrivacyThreshold := currentPrivacyThreshold;
        best := visited;
      }
      scores := scores + [lastAccuracy];
      var gap := currentPrivacyThreshold / 33;
      if gap < 1 {
        gap := 1;
      }
      ThresholdsNext(minPrivacyThreshold, maxPrivacyThreshold, visited);
      currentPrivacyThreshold := currentPrivacyThreshold + gap;
      visited := visited + 1;
    }
  }

  /** `GroupAndRoundCensus`. The z-score split keeps the outliers out of the rounding; the
      thresholds from `minPrivacyThreshold`, stepped by `Step`, up to `len(participants) /
      minPrivacyThreshold` are scored; the first one with the strictly largest positive
      score is chosen (else `minPrivacyThreshold`) and the rounding is redone at it; the
      outliers are appended unchanged; the status reports whether the final score falls
      below `minAccuracy`. `ranked` is the retained census as the last sort left it, and
      `best` the position of the chosen threshold in the schedule (-1 for the fallback). */
  method GroupAndRoundCensus(participants: seq<Participant>, minPrivacyThreshold: int,
                             groupBalanceDiff: int, minAccuracy: real,
                             isOutlier: nat -> bool, accuracyOf: (nat, nat) -> real)
    returns (census: seq<Participant>, finalAccuracy: real, chosen: int, status: Status,
             ghost ranked: seq<Participant>, ghost best: int)
    requires |participants| > 0 && minPrivacyThreshold >= 1
    ensures SortedByBalance(ranked) && multiset(ranked) == multiset(Kept(participants, isOutlier))
    ensures Selected(ranked, minPrivacyThreshold, |participants| / minPrivacyThreshold, groupBalanceDiff,
                     accuracyOf, best, chosen)
    ensures census == Rounded(Greedy(ranked, chosen, groupBalanceDiff)) + Flagged(participants, isOutlier)
    ensures finalAccuracy == Score(ranked, chosen, groupBalanceDiff, accuracyOf)
    ensures status == BelowMinimumAccuracy <==> finalAccuracy < minAccuracy
    ensures |census| == |participants|
    ensures multiset(Addresses(census)) == multiset(Addresses(participants))
    ensures |ranked| <= |census|
    ensures forall i :: 0 <= i < |ranked| ==>
              census[i].address == ranked[i].address && census[i].balance <= ranked[i].balance
  {
    var cleanedParticipants, outliers := ZScore(participants, isOutlier);
    var cleaned := new Participant[|cleanedParticipants|](i requires 0 <= i < |cleanedParticipants| => cleanedParticipants[i]);
    assert cleaned[..] == cleanedParticipants;
    var maxPrivacyThreshold := |participants| / minPrivacyThreshold;
    ghost var ts := Thresholds(minPrivacyThreshold, maxPrivacyThreshold);
    var maxAccuracyPrivacyThreshold;
    maxAccuracyPrivacyThreshold, best := SearchThresholds(cleaned, minPrivacyThreshold, maxPrivacyThreshold,
                                                          groupBalanceDiff, accuracyOf);
    ghost var before := cleaned[..];
    var roundCensus, lastAccuracy := GroupAndRound(cleaned, maxAccuracyPrivacyThreshold, groupBalanceDiff, accuracyOf);
    ranked := cleaned[..];
    SelectedOfPermutation(before, ranked, minPrivacyThreshold, maxPrivacyThreshold, groupBalanceDiff, accuracyOf,
                          best, maxAccuracyPrivacyThreshold);
    census := roundCensus + outliers;
    finalAccuracy := lastAccuracy;
    chosen := maxAccuracyPrivacyThreshold;
    if finalAccuracy < minAccuracy {
      status := BelowMinimumAccuracy;
    } else {
      status := Satisfied;
    }
    OutputKeepsEveryone(participants, isOutlier, ranked, chosen, groupBalanceDiff);
    RoundedCensusShape(ranked, chosen, groupBalanceDiff);
  }
}
