# Rounded census

A Dafny model of the balance-rounding core of vocdoni's `roundedcensus` package
(`round.go`). A census is a list of participants, each with an address and a
non-negative balance of arbitrary precision. To make balances harder to link to
addresses, the package rounds them, k-anonymity style:

1. The participants are sorted ascending by balance (`sort.Sort(ByBalance(…))`).
2. One forward pass cuts the sorted list into groups. A participant joins the
   open group while that group is smaller than the privacy threshold, or while
   their balance is within `groupBalanceDiff` of the group's last member.
   Otherwise the group is closed and a new one starts. The last group is always
   emitted.
3. Every member of a group gets the group's representative balance, computed by
   `roundToFirstCommonDigit`:
   - Compare the decimal strings digit position by digit position, starting at
     the last position of the shortest string and moving left.
   - At the rightmost position where every string has the same digit, cut the
     first member's string after that position and pad it with zeros to the
     shortest length.
   - If no position agrees, the representative is the first shortest balance.

   This is not the group's lowest balance, as a doc comment in `round.go`
   claims. The lowest-balance line is commented out at `round.go:55`. The model
   follows the code.
4. The score of a rounding is a float computed from the total balance before
   and after rounding (`calculateAccuracy`).
5. `GroupAndRoundCensus` ties the steps together:
   - It first sets aside z-score outliers (`zScore`).
   - It tries the thresholds from `minPrivacyThreshold` up to
     `len(participants) / minPrivacyThreshold`, stepping by
     `max(1, threshold / 33)`.
   - It keeps the first threshold with the strictly largest positive score, or
     `minPrivacyThreshold` when no score is positive.
   - It redoes the rounding at that threshold and appends the outliers
     unchanged.
   - It reports an error when the final score is below `minAccuracy`.

The model is imperative where the Go code is: the sort, the grouping pass, both
loops of `roundToFirstCommonDigit`, the nested loops of `roundGroups`, the sums
of `calculateAccuracy`, the split of `zScore` and the search loop are methods
with loop invariants. Each method is proved against a specification function:
`Greedy`, `Representative`, `Rounded`, `Total`, `Kept`/`Flagged`,
`Thresholds`, `Scores` and `Selected`. The properties the program relies on are
lemmas about those functions.

Two float computations are function parameters:
- `accuracyOf(totalOriginal, totalRounded)` is the `big.Float` percentage of
  `calculateAccuracy`;
- `isOutlier(balance)` is the z-score test of `zScore`, with the population's
  mean and standard deviation already fixed.

Go's `error` result is the `Status` datatype.

Files, one module each:
- `census.dfy`: participants, totals, flattening, permutation facts.
- `decimal.dfy`: decimal strings of balances: `String`, `SetString`, powers of ten.
- `sorting.dfy`: `ByBalance` and the in-place sort.
- `grouping.dfy`: the grouping pass.
- `rounding.dfy`: `roundToFirstCommonDigit` and `roundGroups`.
- `accuracy.dfy`: the sums of `calculateAccuracy`.
- `outliers.dfy`: the split of `zScore`.
- `search.dfy`: `groupAndRoundCensus` and `GroupAndRoundCensus`.

## Model

| member | source | states |
|---|---|---|
| Sorting.Less | round.go:45 | participants are ordered by balance alone; addresses never take part |
| Sorting.LessIsStrictWeakOrder | round.go:45 | `Less` is irreflexive and transitive, and two participants are tied exactly when their balances are equal, which is what `sort.Sort` requires |
| Sorting.Swap | round.go:44 | the two entries trade places, every other entry is unchanged, and the array holds the same multiset |
| Sorting.SortByBalance | round.go:78 | the array ends up sorted by balance and is a permutation of what it held |
| Sorting.Insert | round.go:78 | one insertion step grows the sorted prefix by one entry, leaves every entry after it in place, and keeps the multiset |
| Sorting.SortedAscending | round.go:78 | the balances of a list sorted by `Less` are ascending |
| Sorting.SortedPermutationsAgree | round.go:78 | any two sorted permutations of one census have the same balance at every position, so an unstable sort can only reorder equal balances |
| Grouping.Group | round.go:79-99 | the grouping loop yields exactly the greedy grouping of its input: non-empty groups that concatenate to the input, each admission and each cut following the rule; no groups exactly when the input is empty |
| Grouping.Admit | round.go:82-89 | appending a participant to the open group, when the group is empty, still below the threshold, or within `diff` of its last member, preserves the pass invariant |
| Grouping.Close | round.go:88-92 | closing a group of at least threshold size whose last balance is more than `diff` away from the newcomer, then opening a group with the newcomer, preserves the pass invariant |
| Grouping.Finish | round.go:96-98 | emitting the last open group after the final participant completes a valid grouping of the whole input |
| Grouping.CloseKeepsValid | round.go:88-92 | a closed list of groups stays valid when a group admitted by the rule, and cut off correctly from the one before, is appended |
| Grouping.LeadingGroupLengthRules | round.go:85-92 | the first group of the reference grouping admits each member by the rule, and it ends only at a cut: threshold reached and gap above `diff` |
| Grouping.GreedyIsGreedy | round.go:81-99 | the reference function `Greedy` is a valid grouping of its input |
| Grouping.OnlyGreedy | round.go:81-99 | every valid grouping of a list is `Greedy` of it, so the pass's result is determined by its input |
| Grouping.GreedyUnique | round.go:81-99 | two valid groupings of one list are equal |
| Grouping.NoGroupsOnlyForEmpty | round.go:81-99 | a valid grouping is empty exactly when its input is |
| Grouping.FirstGroupShape | round.go:85-92 | the first group is a non-empty prefix of the input admitted by the rule; if it stops early it has reached the threshold and the next balance is more than `diff` away; the remaining groups are a valid grouping of the rest |
| Grouping.LeadingLengthUnique | round.go:85-92 | the only prefix length that is admitted by the rule and ends at a cut (or at the end of the input) is the first group's length |
| Grouping.GreedyByBalances | round.go:86-88 | the groups depend on the balances only: two lists with equal balances are cut into groups with equal balances |
| Grouping.BalancesSlices | round.go:86-88 | lists with equal balances keep equal balances when both are cut at the same position |
| Rounding.ShortestIndexIsShortest | round.go:210-217 | the balance `minBalance` settles on has a string no longer than any other and strictly shorter than every one before it; ties go to the earliest |
| Rounding.ShortestIndexSnoc | round.go:212-217 | scanning one more balance moves `minBalance` exactly when the new string is strictly shorter |
| Rounding.ScanBalances | round.go:208-218 | the first loop yields every balance's decimal string, the first shortest balance and the shortest length, which no string is below |
| Rounding.RightmostAgreementAgrees | round.go:220-238 | the position the search stops at has every string agreeing with the first, and no position to its right within the shortest length does |
| Rounding.RightmostAgreementIs | round.go:220-238 | a position where all strings agree, with no agreeing position to its right, is the one the reference function returns |
| Rounding.LastCommonPosition | round.go:220-238 | the downward loop stops at the rightmost agreeing position within the shortest length, or at -1 when there is none |
| Rounding.RepresentativeFromScan | round.go:230-239 | the results of the two loops give the representative: the first string cut after the agreeing position and scaled by 10 to the number of dropped digits, or `minBalance` when no position agrees |
| Rounding.RoundToFirstCommonDigit | round.go:200-240 | returns the representative for the group's balances: 0 for an empty group, the member's own balance for a single member |
| Rounding.RepresentativeOfEqual | round.go:220-236 | a group whose members share one balance keeps that balance |
| Rounding.ShortestOfAscending | round.go:214 | in a group sorted by balance, `minBalance` is the first member, because the strict `<` keeps the earliest of the shortest |
| Rounding.RepresentativeAtMostFirst | round.go:230-239 | the representative never exceeds the first member's balance, sorted or not |
| Rounding.CutAtMostFirst | round.go:231-235 | cutting a balance's string and padding it with zeros to no more than its own length gives at most that balance |
| Rounding.RepresentativeOfAscending | round.go:231-235 | for a sorted group the representative is at most every member, and it is less than the least balance by less than 10 to the number of zeroed digits |
| Rounding.RepresentativeNearFirst | round.go:231-235 | in a sorted group the least balance exceeds the representative by less than 10 to the number of zeroed digits |
| Rounding.RepresentativeOfTwo | round.go:220-235 | for two balances of one length whose strings agree somewhere, the representative is the first string cut after the rightmost agreeing position and padded back with zeros |
| Rounding.RepresentativeCutsAtAgreement | round.go:220-235 | {1234, 1299} round to 1200: the last two digits differ, the second agrees |
| Rounding.AgreementOfCut | round.go:221-229 | in 1234 and 1299 the search passes the two disagreeing last positions and stops at the second digit |
| Rounding.RepresentativeKeepsLaterAgreement | round.go:220-235 | {1034, 1134} round to 1034: agreement at the last digit wins although the second digit differs, so the rule is not a longest common prefix |
| Rounding.TotalRelabel | round.go:56-58 | a group relabelled with one balance totals its size times that balance |
| Rounding.Representatives | round.go:54 | one representative per group, that group's own |
| Rounding.AppendRelabelled | round.go:56-58 | the inner loop appends every member of the group to the census, in order, with its own address and the shared balance |
| Rounding.RoundGroups | round.go:48-61 | the nested loops produce `Rounded(groups)`: every group relabelled with its representative, the groups laid end to end, empty groups skipped |
| Rounding.RelabelledSnoc | round.go:50-59 | one more pass of the outer loop appends the next group, relabelled |
| Rounding.RelabelledLength | round.go:50-59 | relabelling keeps the total number of members |
| Rounding.RelabelledAddresses | round.go:50-59 | relabelling keeps every address at its place in concatenated group order |
| Rounding.RelabelledAt | round.go:50-59 | member `j` of group `k` comes out after all members of the earlier groups, with its address and its group's balance |
| Rounding.RelabelledBelow | round.go:54-57 | no balance rises when each group's balance is at most each of its members' balances |
| Rounding.RelabelledBalances | round.go:54-57 | groups of equal sizes relabelled with the same balances yield the same balances |
| Rounding.RoundedLength | round.go:48-61 | the rounded census has one entry per group member |
| Rounding.RoundedIgnoresEmpty | round.go:51-53 | an empty group anywhere in the list contributes nothing to the rounded census |
| Rounding.RoundedSnoc | round.go:50-59 | rounding one more group appends its members, relabelled with its representative |
| Rounding.RoundedAddresses | round.go:50-59 | the k-th address of the rounded census is the k-th member's address in concatenated group order |
| Rounding.RoundedAt | round.go:50-59 | every member of a group comes out with its own address and the group's single representative balance |
| Rounding.RoundedBelow | round.go:54-57 | when every group is sorted no balance is rounded up |
| Rounding.RoundedByBalances | round.go:54-57 | the rounded balances depend only on the groups' balances |
| Accuracy.CalculateAccuracy | round.go:64-74 | the two accumulators are the total of the original list and the total of the same number of leading rounded entries, and the score is `accuracyOf` of the two |
| Accuracy.RelabelledTotal | round.go:65-69 | summing a relabelled census member by member gives the sum over groups of size times balance |
| Accuracy.RoundedTotalIsSum | round.go:65-69 | the member-by-member rounded total equals the group-by-group total |
| Accuracy.GroupsOfSortedAscending | round.go:78-99 | every group cut from a sorted census is sorted |
| Accuracy.GreedyGroupsAscending | round.go:78-99 | every group of the pass over a sorted census is sorted |
| Accuracy.RoundedTotalAtMostOriginal | round.go:65-70 | on a sorted census the rounded total never exceeds the original total, so the lost weight is never negative |
| Outliers.ZScore | round.go:164-179 | the last loop returns the participants that pass the test and those that fail it, each in input order |
| Outliers.PartitionIsComplete | round.go:164-179 | the two lists' lengths sum to the input's, and together they hold exactly the input's participants |
| Outliers.PartitionMultiset | round.go:164-179 | the two lists together are a permutation of the input |
| Outliers.PartitionMembership | round.go:173-177 | a participant is kept exactly when it is in the input and passes the test, and flagged exactly when it is in the input and fails it |
| Outliers.PartitionKeepsOrder | round.go:166-178 | two kept participants keep their relative order |
| Outliers.KeptAt | round.go:174-176 | a kept participant sits right after the participants kept before it |
| Outliers.KeptGrows | round.go:166-178 | a longer prefix of the input keeps at least as many participants |
| Outliers.FlaggedKeepsOrder | round.go:166-178 | two flagged participants keep their relative order in the outlier list |
| Outliers.FlaggedAt | round.go:173-174 | a flagged participant sits right after the participants flagged before it |
| Outliers.FlaggedGrows | round.go:166-178 | a longer prefix of the input flags at least as many participants |
| Search.GroupAndRound | round.go:77-103 | sorts the caller's array in place (a permutation, sorted), and returns the greedy grouping's rounded census and its score |
| Search.ScoreIsAccuracy | round.go:100-102 | the rounded census has one entry per participant, and the score is `accuracyOf` of the original and the rounded totals |
| Search.ScoreOfPermutation | round.go:78 | the score of a threshold does not depend on the order the unstable sort leaves equal balances in |
| Search.ScoresOfPermutation | round.go:117-118 | the scores of a list of thresholds do not depend on which sorted permutation they are computed on |
| Search.SelectedOfPermutation | round.go:117-129 | the threshold the search selects does not depend on which sorted permutation it was selected on, so the final run may use the last sort's order |
| Search.Step | round.go:123-126 | the step is at least 1 |
| Search.ThresholdsShape | round.go:113-128 | the schedule is empty exactly when the start is past the maximum, starts at the start, stays within [start, maximum], advances by `Step`, and the first value past its last entry exceeds the maximum |
| Search.ThresholdsIncrease | round.go:123-127 | the schedule strictly increases |
| Search.ThresholdsStart | round.go:113-117 | from `minPrivacyThreshold` the schedule is empty exactly when it exceeds `len / minPrivacyThreshold`, and otherwise starts there |
| Search.ThresholdsNext | round.go:117-128 | each visited threshold is followed by itself plus `Step`, while that stays within the maximum; after the last one, one step leads past the maximum |
| Search.ScoresAt | round.go:117-118 | the i-th recorded score is the score of the i-th visited threshold |
| Search.EarliestBestUnique | round.go:119-122 | the selection rule picks at most one position |
| Search.EarliestBestStep | round.go:119-122 | a new score takes over exactly when it is strictly above the best so far, which is 0 before any positive score |
| Search.SelectionStep | round.go:119-122 | one comparison either moves the selection to the new threshold with its score, or leaves the selection unchanged |
| Search.SearchStep | round.go:117-118 | re-sorting in a later pass keeps the scores recorded so far, and the new score goes at the end |
| Search.VisitThreshold | round.go:118 | one pass re-sorts the retained participants in place and appends the score of the visited threshold |
| Search.SearchThresholds | round.go:113-128 | the loop visits exactly the schedule and ends with the earliest threshold of strictly greatest positive score, or `minPrivacyThreshold` when no score is positive; when the schedule is empty the array is left untouched |
| Search.RoundedCensusShape | round.go:129 | on a sorted census the rounded census has one entry per participant, each with that participant's address and a balance no larger than theirs |
| Search.OutputKeepsEveryone | round.go:129-130 | the rounded retained participants followed by the outliers have as many entries as the input and exactly the input's addresses |
| Search.GroupAndRoundCensus | round.go:109-135 | the retained participants are those passing the z-score test; the chosen threshold is the selection above; the result is their rounding at it followed by the outliers unchanged; the returned score is that rounding's score; the status is an error exactly when the score is below `minAccuracy`; the output keeps every address and never raises a retained balance |
| Census.TotalAppend | round.go:65-69 | totals add over concatenation |
| Census.TotalMonotone | round.go:65-70 | a total does not shrink when every balance grows |
| Census.TotalByBalances | round.go:65-69 | lists with equal balances have equal totals |
| Census.AscendingUnique | round.go:78 | two ascending lists of the same balances are equal |
| Census.FlattenAt | round.go:50-59 | an element of group `k` sits after all elements of the earlier groups |
| Census.MapPermutation | round.go:78 | projecting two permutations of one another yields permutations of one another |
| Census.BalancesPermutation | round.go:78 | permuting a census permutes its balances |
| Census.AddressesPermutation | round.go:129-130 | permuting a census permutes its addresses |
| Decimal.ParseDigits | round.go:234 | reading back a balance's decimal string, as `SetString(…, 10)` does, gives the balance |
| Decimal.DigitsBounds | round.go:211-214 | a balance of `k` digits lies in [10^(k-1), 10^k) |
| Decimal.DigitsSplit | round.go:232-235 | a balance is its leading digits scaled by a power of ten plus a remainder below that power |
| Decimal.DigitsMonotone | round.go:214 | a larger balance never has fewer digits |
| Decimal.DigitsOfFour | round.go:213 | the decimal string of a four-digit balance has its thousands, hundreds, tens and units digits at positions 0 to 3 |
| Decimal.FewerDigitsSmaller | round.go:214 | a balance with fewer digits is smaller |
| Decimal.ParseAppend | round.go:234 | the value of concatenated digit strings is the first scaled by 10 to the length of the second, plus the second |
| Decimal.Pow10Monotone | round.go:232 | powers of ten grow with their exponent |

## Left out

- The float arithmetic of `calculateAccuracy` (`round.go:70-73`): the `big.Float` difference, the quotient, `Float64` and `100 - x*100` are the parameter `accuracyOf`. Only the two integer totals are computed.
- The statistics of `zScore` (`round.go:144-162`, `round.go:167-173`): the mean, the standard deviation and the z-score with its 2.0 threshold are the predicate `isOutlier`. Whether a balance is an outlier therefore cannot be computed inside the model.
- Outliers.ZScore: requires a non-empty input. `big.Float.Quo` panics on an empty census (`round.go:156`), and also when all balances are equal and the standard deviation is 0 (`round.go:170`). The second panic is not modelled: a non-empty census always passes.
- Search.GroupAndRoundCensus: requires `minPrivacyThreshold >= 1`. Go divides by zero at `round.go:113` otherwise, and a negative value is not modelled.
- Search.GroupAndRoundCensus: requires a non-empty census, because `zScore` panics on an empty one (`round.go:156`).
- Search.GroupAndRoundCensus: does not model the panic when the retained participants' total balance is 0. There `big.Float.Quo` divides 0 by 0 (`round.go:72`) in every search pass (`round.go:118`) and in the final run (`round.go:129`), and Go panics with `ErrNaN`; the model goes on with the value `accuracyOf(0, 0)`. For example, ten balances of 0 and one of 100 retain only the zeros.
- Accuracy.CalculateAccuracy: requires the rounded list to be at least as long as the original. Go would panic on an index otherwise; every caller passes lists of equal length.
- The algorithm of `sort.Sort` (`round.go:78`) is not modelled. An insertion sort built from `Less` and `Swap` stands in for it, and only the library's contract is relied on (sorted by balance, a permutation). The order among equal balances is left open. The scores and the selected threshold are proved not to depend on it (`Search.ScoreOfPermutation`, `Search.SelectedOfPermutation`).
- `ByBalance.Len` (`round.go:43`) is the array length and has no member of its own.
- Pointer identity is not modelled. `roundGroups` builds new `Participant` records that share one `*big.Int` per group, and `zScore` and the sort work on pointers into the caller's list. The model works on values, so aliasing between the output and the input is not captured. The in-place reordering of the retained participants by the sort is kept (an array).
- Go's `int` width (threshold, step, `len / minPrivacyThreshold`) is unbounded here. With a census shorter than 2^63 nothing wraps around.
- `detectLowerOutliers` (`round.go:183-198`): its only call is commented out (`round.go:110`), so it is dead code.
- The doc comments at `round.go:21` and `round.go:47` say that groups round down to their lowest value. The code computes the rightmost-common-digit representative instead, and the model follows the code.
- The test files `round_test.go` and `roundedcensus_test.go`: they do file and JSON I/O, read environment variables and generate random input. They assert nothing and call functions with signatures `round.go` does not have.
- `fmt.Errorf`'s message: the error is the single value `Status.BelowMinimumAccuracy`.
