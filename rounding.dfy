/** `roundToFirstCommonDigit` and `roundGroups`: every member of a group gets one shared
    representative balance. */
module Rounding {
  import opened Census
  import opened Decimal
  import opened Grouping

  /** `sBalances`: the decimal string of every balance, in group order. */
  function Strings(bs: seq<nat>): seq<string>
  {
    seq(|bs|, i requires 0 <= i < |bs| => Digits(bs[i]))
  }

  /** The index of `minBalance`: the first balance whose decimal string is shortest (the
      update uses a strict `<`, so ties go to the earliest). */
  ghost function ShortestIndex(bs: seq<nat>): (i: nat)
    requires |bs| > 0
    ensures i < |bs|
  {
    if |bs| == 1 then 0
    else
      var j := ShortestIndex(bs[..|bs| - 1]);
      if |Digits(bs[|bs| - 1])| < |Digits(bs[j])| then |bs| - 1 else j
  }

  /** The shortest index holds a string no longer than any other, and strictly shorter
      than every one before it. */
  lemma {:induction false} ShortestIndexIsShortest(bs: seq<nat>)
    requires |bs| > 0
    ensures forall k :: 0 <= k < |bs| ==> |Digits(bs[ShortestIndex(bs)])| <= |Digits(bs[k])|
    ensures forall k :: 0 <= k < ShortestIndex(bs) ==> |Digits(bs[ShortestIndex(bs)])| < |Digits(bs[k])|
    decreases |bs|
  {
    if |bs| > 1 {
      var n := |bs| - 1;
      ShortestIndexIsShortest(bs[..n]);
      forall k | 0 <= k < n ensures bs[..n][k] == bs[k] {
      }
    }
  }

  /** Extending the scanned prefix by one balance moves the shortest index only when the new
      balance is strictly shorter. */
  lemma ShortestIndexSnoc(bs: seq<nat>, k: nat)
    requires k < |bs|
    ensures k == 0 ==> ShortestIndex(bs[..1]) == 0
    ensures k > 0 && |Digits(bs[k])| < |Digits(bs[ShortestIndex(bs[..k])])| ==>
              ShortestIndex(bs[..k + 1]) == k
    ensures k > 0 && |Digits(bs[k])| >= |Digits(bs[ShortestIndex(bs[..k])])| ==>
              ShortestIndex(bs[..k + 1]) == ShortestIndex(bs[..k])
  {
    assert bs[..k + 1][..k] == bs[..k];
  }

  /** `minLenght`: the length of the shortest decimal string. */
  ghost function MinLength(bs: seq<nat>): nat
    requires |bs| > 0
  {
    |Digits(bs[ShortestIndex(bs)])|
  }

  /** Every string has the first string's digit at position `i`. */
  ghost predicate AgreeAt(strs: seq<string>, i: int)
    requires |strs| > 0
  {
    0 <= i < |strs[0]| && forall k :: 0 <= k < |strs| ==> i < |strs[k]| && strs[k][i] == strs[0][i]
  }

  /** The rightmost position at or left of `i` where all strings agree, or -1 if there is none. */
  ghost function RightmostAgreement(strs: seq<string>, i: int): (p: int)
    requires |strs| > 0 && i >= -1
    ensures -1 <= p <= i
    decreases i + 1
  {
    if i < 0 then -1
    else if AgreeAt(strs, i) then i
    else RightmostAgreement(strs, i - 1)
  }

  /** The rightmost agreement agrees, and no position right of it (up to `i`) does. */
  lemma {:induction false} RightmostAgreementAgrees(strs: seq<string>, i: int)
    requires |strs| > 0 && i >= -1
    ensures RightmostAgreement(strs, i) >= 0 ==> AgreeAt(strs, RightmostAgreement(strs, i))
    ensures forall q :: RightmostAgreement(strs, i) < q <= i ==> !AgreeAt(strs, q)
    decreases i + 1
  {
    if i >= 0 && !AgreeAt(strs, i) {
      RightmostAgreementAgrees(strs, i - 1);
    }
  }

  /** The balance every member of a group is given. For two or more members: the first
      member's decimal string cut after the rightmost position (within the shortest
      length) where all members have the same digit, then padded with zeros to the
      shortest length; the first shortest balance if no position agrees. */
  ghost function Representative(bs: seq<nat>): nat
  {
    if |bs| == 0 then 0
    else if |bs| == 1 then bs[0]
    else
      var strs := Strings(bs);
      var m := MinLength(bs);
      var p := RightmostAgreement(strs, m - 1);
      ShortestIndexIsShortest(bs);
      if p >= 0 then Mul(Parse(strs[0][..p + 1]), Pow10(m - p - 1))
      else bs[ShortestIndex(bs)]
  }

  /** Digits the representative replaces by zeros: those right of the rightmost agreeing
      position (0 when it is the first shortest balance instead). */
  ghost function DroppedDigits(bs: seq<nat>): nat
  {
    if |bs| < 2 then 0
    else
    var m := MinLength(bs);
    var p := RightmostAgreement(Strings(bs), m - 1);
    if p >= 0 then m - p - 1 else 0
  }

  /** The rightmost agreeing position is the one position that agrees while none right of
      it (within the shortest length) does. */
  lemma RightmostAgreementIs(strs: seq<string>, i: int, p: int)
    requires |strs| > 0 && -1 <= p <= i
    requires p >= 0 ==> AgreeAt(strs, p)
    requires forall q :: p < q <= i ==> !AgreeAt(strs, q)
    ensures RightmostAgreement(strs, i) == p
  {
  }

  /** The downward search of `roundToFirstCommonDigit`: from the last position of the
      shortest string towards the first, compare every string's digit with the first
      string's, stopping at the first position (from the right) where none differs. */
  method LastCommonPosition(strs: seq<string>, minLength: nat) returns (p: int)
    requires |strs| > 0
    requires forall k :: 0 <= k < |strs| ==> minLength <= |strs[k]|
    ensures -1 <= p < minLength
    ensures p == RightmostAgreement(strs, minLength - 1)
  {
    p := minLength - 1;
    while p >= 0
      invariant -1 <= p < minLength
      invariant forall q :: p < q < minLength ==> !AgreeAt(strs, q)
      decreases p + 1
    {
      var commonNumber := true;
      ghost var disagreeing := 0;
      var currentNumber := strs[0][p];
      for x := 1 to |strs|
        invariant forall y :: 1 <= y < x ==> strs[y][p] == currentNumber
      {
        if strs[x][p] != currentNumber {
          commonNumber := false;
          disagreeing := x;
          break;
        }
      }
      if commonNumber {
        RightmostAgreementIs(strs, minLength - 1, p);
        return;
      }
      assert strs[disagreeing][p] != currentNumber;
      p := p - 1;
    }
    RightmostAgreementIs(strs, minLength - 1, p);
  }

  /** The first loop of `roundToFirstCommonDigit`: the decimal string of every balance, and
      the first balance of the fewest digits together with that number of digits. */
  method ScanBalances(group: seq<Participant>) returns (sBalances: seq<string>, minBalance: nat, minLength: nat)
    requires |group| > 0
    ensures sBalances == Strings(Balances(group))
    ensures minBalance == group[ShortestIndex(Balances(group))].balance
    ensures minLength == MinLength(Balances(group))
    ensures forall k :: 0 <= k < |group| ==> minLength <= |sBalances[k]|
  {
    ghost var bs := Balances(group);
    ghost var shortest := 0;
    sBalances := [];
    minBalance := group[0].balance;
    minLength := |Digits(group[0].balance)|;
    for k := 0 to |group|
      invariant |sBalances| == k && forall i :: 0 <= i < k ==> sBalances[i] == Digits(bs[i])
      invariant shortest < |bs| && minBalance == bs[shortest] && minLength == |Digits(minBalance)|
      invariant shortest == if k == 0 then 0 else ShortestIndex(bs[..k])
    {
      ShortestIndexSnoc(bs, k);
      sBalances := sBalances + [Digits(group[k].balance)];
      var l := |Digits(group[k].balance)|;
      if l < minLength {
        minLength := l;
        minBalance := group[k].balance;
        shortest := k;
      }
    }
    assert bs[..|group|] == bs;
    ShortestIndexIsShortest(bs);
  }

  /** Representative read off the results of the two loops of `roundToFirstCommonDigit`. */
  lemma RepresentativeFromScan(bs: seq<nat>, strs: seq<string>, minBalance: nat, m: nat, p: int)
    requires |bs| >= 2 && strs == Strings(bs) && m == MinLength(bs)
    requires minBalance == bs[ShortestIndex(bs)]
    requires p == RightmostAgreement(strs, m - 1)
    ensures p >= 0 ==> p < |strs[0]| && Representative(bs) == Mul(Parse(strs[0][..p + 1]), Pow10(m - (p + 1)))
    ensures p < 0 ==> Representative(bs) == minBalance
  {
    ShortestIndexIsShortest(bs);
  }

  /** `roundToFirstCommonDigit`. */
  method RoundToFirstCommonDigit(group: seq<Participant>) returns (r: nat)
    ensures r == Representative(Balances(group))
    ensures |group| == 0 ==> r == 0
    ensures |group| == 1 ==> r == group[0].balance
  {
    if |group| == 0 {
      return 0;
    }
    if |group| == 1 {
      return group[0].balance;
    }
    var sBalances, minBalance, minLength := ScanBalances(group);
    var firstCommonByte := LastCommonPosition(sBalances, minLength);
    RepresentativeFromScan(Balances(group), sBalances, minBalance, minLength, firstCommonByte);
    if firstCommonByte >= 0 {
      firstCommonByte := firstCommonByte + 1;
      var padding := Pow10(minLength - firstCommonByte);
      var rounded := Parse(sBalances[0][..firstCommonByte]);
      r := Mul(rounded, padding);
      return;
    }
    return minBalance;
  }

  /** A group whose members all hold one balance keeps that balance. */
  lemma RepresentativeOfEqual(bs: seq<nat>)
    requires |bs| > 0 && forall k :: 0 <= k < |bs| ==> bs[k] == bs[0]
    ensures Representative(bs) == bs[0]
  {
    if |bs| >= 2 {
      var strs, m := Strings(bs), MinLength(bs);
      assert m == |strs[0]|;
      RightmostAgreementIs(strs, m - 1, m - 1);
      assert strs[0][..m] == strs[0];
      ParseDigits(bs[0]);
    }
  }

  /** In a group sorted by balance the first balance has the fewest digits, so it is the
      one `minBalance` keeps. */
  lemma ShortestOfAscending(bs: seq<nat>)
    requires |bs| > 0 && Ascending(bs)
    ensures ShortestIndex(bs) == 0
  {
    DigitsMonotone(bs[0], bs[ShortestIndex(bs)]);
  }

  /** The representative never exceeds the first member's balance, sorted or not. */
  lemma RepresentativeAtMostFirst(bs: seq<nat>)
    requires |bs| > 0
    ensures Representative(bs) <= bs[0]
  {
    if |bs| >= 2 {
      var strs, m := Strings(bs), MinLength(bs);
      var p := RightmostAgreement(strs, m - 1);
      var i := ShortestIndex(bs);
      ShortestIndexIsShortest(bs);
      RepresentativeFromScan(bs, strs, bs[i], m, p);
      if p >= 0 {
        CutAtMostFirst(bs[0], m, p);
      } else if i > 0 {
        FewerDigitsSmaller(bs[i], bs[0]);
      }
    }
  }

  /** Cutting the decimal string of `n` after position `p` and padding it with zeros to
      `m <= |Digits(n)|` digits gives at most `n`. */
  lemma CutAtMostFirst(n: nat, m: nat, p: nat)
    requires p < m <= |Digits(n)|
    ensures Mul(Parse(Digits(n)[..p + 1]), Pow10(m - (p + 1))) <= n
  {
    var d := |Digits(n)|;
    DigitsSplit(n, p + 1);
    Pow10Monotone(m - p - 1, d - p - 1);
    MulMonotone(Parse(Digits(n)[..p + 1]), Pow10(m - p - 1), Pow10(d - p - 1));
  }

  /** For a group sorted by balance (as every group of the pass is) the representative is
      a lower bound of the group, and it differs from the least balance only in the digits
      it replaces by zeros. */
  lemma RepresentativeOfAscending(bs: seq<nat>)
    requires |bs| > 0 && Ascending(bs)
    ensures forall k :: 0 <= k < |bs| ==> Representative(bs) <= bs[k]
    ensures bs[0] < Representative(bs) + Pow10(DroppedDigits(bs))
  {
    RepresentativeAtMostFirst(bs);
    RepresentativeNearFirst(bs);
  }

  /** In a sorted group the representative differs from the least balance only in the
      digits it replaces by zeros. */
  lemma RepresentativeNearFirst(bs: seq<nat>)
    requires |bs| > 0 && Ascending(bs)
    ensures bs[0] < Representative(bs) + Pow10(DroppedDigits(bs))
  {
    if |bs| >= 2 {
      var strs, m := Strings(bs), MinLength(bs);
      var p := RightmostAgreement(strs, m - 1);
      ShortestOfAscending(bs);
      if p >= 0 {
        assert strs[0] == Digits(bs[0]) && m == |Digits(bs[0])|;
        var hi, scale := Parse(strs[0][..p + 1]), Pow10(m - (p + 1));
        assert Representative(bs) == Mul(hi, scale) && DroppedDigits(bs) == m - (p + 1);
        DigitsSplit(bs[0], p + 1);
      }
    }
  }

  /** Two balances with strings of one length that agree somewhere: the first is the
      shortest, and the representative is its string cut after the rightmost agreeing
      position and padded back with zeros. */
  lemma RepresentativeOfTwo(a: nat, b: nat, p: int)
    requires |Digits(a)| == |Digits(b)|
    requires p == RightmostAgreement([Digits(a), Digits(b)], |Digits(a)| - 1) >= 0
    ensures Representative([a, b]) == Mul(Parse(Digits(a)[..p + 1]), Pow10(|Digits(a)| - p - 1))
  {
    assert [a, b][..1] == [a];
    assert Strings([a, b]) == [Digits(a), Digits(b)];
  }

  /** Two strings with different digits at `q` do not agree there. */
  lemma Disagree(strs: seq<string>, q: nat)
    requires |strs| == 2 && q < |strs[0]| && q < |strs[1]| && strs[0][q] != strs[1][q]
    ensures !AgreeAt(strs, q)
  {
  }

  /** First worked example of the rule: {1234, 1299} agree last at the second digit, so
      the representative is 12 followed by two zeros. */
  lemma RepresentativeCutsAtAgreement(a: nat, b: nat)
    requires a == 1234 && b == 1299
    ensures Representative([a, b]) == 1200
  {
    AgreementOfCut(a, b);
    RepresentativeOfTwo(a, b, 1);
    ParseDigits(12);
    assert Pow10(2) == 100;
  }

  /** In 1234 and 1299 the last two digits differ and the second agrees. */
  lemma AgreementOfCut(a: nat, b: nat)
    requires a == 1234 && b == 1299
    ensures |Digits(a)| == |Digits(b)| == 4 && Digits(a)[..2] == Digits(12)
    ensures RightmostAgreement([Digits(a), Digits(b)], 3) == 1
  {
    DigitsOfFour(a);
    DigitsOfFour(b);
    var strs := [Digits(a), Digits(b)];
    Disagree(strs, 3);
    Disagree(strs, 2);
    assert AgreeAt(strs, 1);
    RightmostAgreementIs(strs, 3, 1);
  }

  /** Second worked example: {1034, 1134} differ at the second digit but agree at the
      last one, so the representative is 1034, not the common prefix 1000. */
  lemma RepresentativeKeepsLaterAgreement(a: nat, b: nat)
    requires a == 1034 && b == 1134
    ensures Representative([a, b]) == 1034
  {
    DigitsOfFour(a);
    DigitsOfFour(b);
    var strs := [Digits(a), Digits(b)];
    assert AgreeAt(strs, 3);
    RepresentativeOfTwo(a, b, 3);
    assert Digits(a)[..4] == Digits(a);
    ParseDigits(a);
  }

  /** Every member of a group with the balance `b`. */
  function Relabel(g: seq<Participant>, b: nat): (r: seq<Participant>)
    ensures |r| == |g| && forall j :: 0 <= j < |g| ==> r[j] == Participant(g[j].address, b)
  {
    seq(|g|, j requires 0 <= j < |g| => Participant(g[j].address, b))
  }

  /** Relabelling one more member appends it with the balance `b`. */
  lemma RelabelSnoc(g: seq<Participant>, j: nat, b: nat)
    requires j < |g|
    ensures Relabel(g[..j + 1], b) == Relabel(g[..j], b) + [Participant(g[j].address, b)]
  {
  }

  /** A group relabelled with one balance weighs its size times that balance. */
  lemma {:induction false} TotalRelabel(g: seq<Participant>, b: nat)
    ensures Total(Relabel(g, b)) == Mul(|g|, b)
    decreases |g|
  {
    if g != [] {
      var n := |g| - 1;
      assert Relabel(g, b)[..n] == Relabel(g[..n], b);
      TotalRelabel(g[..n], b);
    }
  }

  /** The representative balance of every group, in group order. */
  ghost function Representatives(groups: seq<seq<Participant>>): (reps: seq<nat>)
    ensures |reps| == |groups|
    ensures forall k :: 0 <= k < |groups| ==> reps[k] == Representative(Balances(groups[k]))
  {
    if groups == [] then []
    else
      var n := |groups| - 1;
      Representatives(groups[..n]) + [Representative(Balances(groups[n]))]
  }

  /** Every group relabelled with its own balance from `reps`, laid end to end. */
  function Relabelled(groups: seq<seq<Participant>>, reps: seq<nat>): seq<Participant>
    requires |reps| == |groups|
  {
    if groups == [] then []
    else
      var n := |groups| - 1;
      Relabelled(groups[..n], reps[..n]) + Relabel(groups[n], reps[n])
  }

  /** The output of `roundGroups`: every group relabelled with its representative, the
      groups laid end to end. */
  ghost function Rounded(groups: seq<seq<Participant>>): seq<Participant>
  {
    Relabelled(groups, Representatives(groups))
  }

  /** Relabelling one more group appends it, relabelled with its own balance. */
  lemma RelabelledSnoc(groups: seq<seq<Participant>>, reps: seq<nat>, i: nat)
    requires |reps| == |groups| && i < |groups|
    ensures Relabelled(groups[..i + 1], reps[..i + 1]) == Relabelled(groups[..i], reps[..i]) + Relabel(groups[i], reps[i])
  {
    assert groups[..i + 1][..i] == groups[..i] && reps[..i + 1][..i] == reps[..i];
  }

  /** Relabelling keeps the number of members. */
  lemma {:induction false} RelabelledLength(groups: seq<seq<Participant>>, reps: seq<nat>)
    requires |reps| == |groups|
    ensures |Relabelled(groups, reps)| == |Flatten(groups)|
    decreases |groups|
  {
    if groups != [] {
      var n := |groups| - 1;
      assert groups == groups[..n] + [groups[n]];
      FlattenSnoc(groups[..n], groups[n]);
      RelabelledLength(groups[..n], reps[..n]);
    }
  }

  /** Relabelling keeps every address, in order. */
  lemma {:induction false} RelabelledAddresses(groups: seq<seq<Participant>>, reps: seq<nat>)
    requires |reps| == |groups|
    ensures Addresses(Relabelled(groups, reps)) == Addresses(Flatten(groups))
    decreases |groups|
  {
    if groups != [] {
      var n := |groups| - 1;
      assert groups == groups[..n] + [groups[n]];
      FlattenSnoc(groups[..n], groups[n]);
      RelabelledAddresses(groups[..n], reps[..n]);
      AddressesAppend(Relabelled(groups[..n], reps[..n]), Relabel(groups[n], reps[n]));
      AddressesAppend(Flatten(groups[..n]), groups[n]);
    }
  }

  /** The inner loop of `roundGroups`: every member of `group` is appended to `census`
      with its own address and the balance `b`. */
  method AppendRelabelled(census: seq<Participant>, group: seq<Participant>, b: nat)
    returns (r: seq<Participant>)
    ensures r == census + Relabel(group, b)
  {
    r := census;
    for j := 0 to |group|
      invariant r == census + Relabel(group[..j], b)
    {
      RelabelSnoc(group, j, b);
      r := r + [Participant(group[j].address, b)];
    }
    assert group[..|group|] == group;
  }

  /** Member `j` of group `k` comes out at its place in the flattened census, with its own
      address and its group's balance from `reps`. */
  lemma {:induction false} RelabelledAt(groups: seq<seq<Participant>>, reps: seq<nat>, k: nat, j: nat)
    requires |reps| == |groups| && k < |groups| && j < |groups[k]|
    ensures |Flatten(groups[..k])| + j < |Relabelled(groups, reps)|
    ensures Relabelled(groups, reps)[|Flatten(groups[..k])| + j] == Participant(groups[k][j].address, reps[k])
    decreases |groups|
  {
    var n := |groups| - 1;
    var init := groups[..n];
    RelabelledLength(init, reps[..n]);
    if k < n {
      assert init[..k] == groups[..k] && init[k] == groups[k] && reps[..n][k] == reps[k];
      RelabelledAt(init, reps[..n], k, j);
    } else {
      assert groups[..k] == init;
    }
  }

  /** Position by position, no balance of `a` exceeds that of `b`. */
  ghost predicate BalancesBelow(a: seq<Participant>, b: seq<Participant>)
  {
    |a| == |b| && forall i :: 0 <= i < |a| ==> a[i].balance <= b[i].balance
  }

  lemma BalancesBelowAppend(a1: seq<Participant>, b1: seq<Participant>, a2: seq<Participant>, b2: seq<Participant>)
    requires BalancesBelow(a1, b1) && BalancesBelow(a2, b2)
    ensures BalancesBelow(a1 + a2, b1 + b2)
  {
    forall i | 0 <= i < |a1 + a2| ensures (a1 + a2)[i].balance <= (b1 + b2)[i].balance {
      if i >= |a1| {
        assert (a1 + a2)[i] == a2[i - |a1|] && (b1 + b2)[i] == b2[i - |b1|];
      }
    }
  }

  /** Relabelling never raises a balance when every group's balance is at most each of its
      members' balances. */
  lemma {:induction false} RelabelledBelow(groups: seq<seq<Participant>>, reps: seq<nat>)
    requires |reps| == |groups|
    requires forall k, j :: 0 <= k < |groups| && 0 <= j < |groups[k]| ==> reps[k] <= groups[k][j].balance
    ensures BalancesBelow(Relabelled(groups, reps), Flatten(groups))
    decreases |groups|
  {
    if groups != [] {
      var n := |groups| - 1;
      var init, last := groups[..n], groups[n];
      assert groups == init + [last];
      FlattenSnoc(init, last);
      forall k, j | 0 <= k < n && 0 <= j < |init[k]| ensures reps[..n][k] <= init[k][j].balance {
        assert init[k] == groups[k];
      }
      RelabelledBelow(init, reps[..n]);
      BalancesBelowAppend(Relabelled(init, reps[..n]), Flatten(init), Relabel(last, reps[n]), last);
    }
  }

  /** Relabelling groups of the same sizes with the same balances gives the same balances. */
  lemma {:induction false} RelabelledBalances(g1: seq<seq<Participant>>, g2: seq<seq<Participant>>, reps: seq<nat>)
    requires |g1| == |g2| == |reps|
    requires forall k :: 0 <= k < |g1| ==> |g1[k]| == |g2[k]|
    ensures Balances(Relabelled(g1, reps)) == Balances(Relabelled(g2, reps))
    decreases |g1|
  {
    if g1 != [] {
      var n := |g1| - 1;
      RelabelledBalances(g1[..n], g2[..n], reps[..n]);
      BalancesAppend(Relabelled(g1[..n], reps[..n]), Relabel(g1[n], reps[n]));
      BalancesAppend(Relabelled(g2[..n], reps[..n]), Relabel(g2[n], reps[n]));
      assert Balances(Relabel(g1[n], reps[n])) == Balances(Relabel(g2[n], reps[n]));
    }
  }

  /** Rounding keeps every address, in order. */
  lemma RoundedAddresses(groups: seq<seq<Participant>>)
    ensures Addresses(Rounded(groups)) == Addresses(Flatten(groups))
  {
    RelabelledAddresses(groups, Representatives(groups));
  }

  /** `roundGroups`. */
  method RoundGroups(groups: seq<seq<Participant>>) returns (roundedCensus: seq<Participant>)
    ensures roundedCensus == Rounded(groups)
  {
    ghost var reps := Representatives(groups);
    roundedCensus := [];
    for i := 0 to |groups|
      invariant roundedCensus == Relabelled(groups[..i], reps[..i])
    {
      var group := groups[i];
      RelabelledSnoc(groups, reps, i);
      if |group| == 0 {
        continue;
      }
      var lowestBalance := RoundToFirstCommonDigit(group);
      assert reps[i] == lowestBalance;
      roundedCensus := AppendRelabelled(roundedCensus, group, lowestBalance);
    }
    assert groups[..|groups|] == groups && reps[..|groups|] == reps;
  }

  /** Rounding keeps the number of members. */
  lemma RoundedLength(groups: seq<seq<Participant>>)
    ensures |Rounded(groups)| == |Flatten(groups)|
  {
    RelabelledLength(groups, Representatives(groups));
  }

  /** An empty group adds nothing to the output, wherever it stands. */
  lemma {:induction false} RoundedIgnoresEmpty(a: seq<seq<Participant>>, b: seq<seq<Participant>>)
    ensures Rounded(a + [[]] + b) == Rounded(a + b)
    decreases |b|
  {
    if b == [] {
      var g := a + [[]];
      assert a + [[]] + b == g && a + b == a;
      RoundedSnoc(g);
      assert g[..|a|] == a;
    } else {
      var n := |b| - 1;
      var x, y := a + [[]] + b, a + b;
      RoundedSnoc(x);
      RoundedSnoc(y);
      assert x[..|x| - 1] == a + [[]] + b[..n] && x[|x| - 1] == b[n];
      assert y[..|y| - 1] == a + b[..n] && y[|y| - 1] == b[n];
      RoundedIgnoresEmpty(a, b[..n]);
    }
  }

  /** Rounding one more group appends it, relabelled with its representative. */
  lemma RoundedSnoc(groups: seq<seq<Participant>>)
    requires groups != []
    ensures Rounded(groups) == Rounded(groups[..|groups| - 1])
                               + Relabel(groups[|groups| - 1], Representative(Balances(groups[|groups| - 1])))
  {
  }

  /** Member `j` of group `k` comes out at its place in the flattened census, with its own
      address and its group's representative balance. */
  lemma RoundedAt(groups: seq<seq<Participant>>, k: nat, j: nat)
    requires k < |groups| && j < |groups[k]|
    ensures |Flatten(groups[..k])| + j < |Rounded(groups)|
    ensures Rounded(groups)[|Flatten(groups[..k])| + j] ==
            Participant(groups[k][j].address, Representative(Balances(groups[k])))
  {
    RelabelledAt(groups, Representatives(groups), k, j);
  }

  /** When every group is sorted by balance, nobody's balance is rounded up. */
  lemma RoundedBelow(groups: seq<seq<Participant>>)
    requires forall k :: 0 <= k < |groups| ==> Ascending(Balances(groups[k]))
    ensures |Rounded(groups)| == |Flatten(groups)|
    ensures forall i :: 0 <= i < |Rounded(groups)| ==> Rounded(groups)[i].balance <= Flatten(groups)[i].balance
  {
    var reps := Representatives(groups);
    forall k, j | 0 <= k < |groups| && 0 <= j < |groups[k]| ensures reps[k] <= groups[k][j].balance {
      RepresentativeOfAscending(Balances(groups[k]));
      assert Balances(groups[k])[j] == groups[k][j].balance;
    }
    RelabelledBelow(groups, reps);
    RelabelledLength(groups, reps);
  }

  /** The rounded balances depend on the balances of the groups only. */
  lemma RoundedByBalances(g1: seq<seq<Participant>>, g2: seq<seq<Participant>>)
    requires GroupBalances(g1) == GroupBalances(g2)
    ensures Balances(Rounded(g1)) == Balances(Rounded(g2))
  {
    forall k | 0 <= k < |g1| ensures Balances(g1[k]) == Balances(g2[k]) && |g1[k]| == |g2[k]| {
      assert GroupBalances(g1)[k] == GroupBalances(g2)[k];
    }
    assert Representatives(g1) == Representatives(g2);
    RelabelledBalances(g1, g2, Representatives(g1));
  }
}
