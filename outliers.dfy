/** The partition step of `zScore`: every participant is kept or flagged as an outlier.
    The statistics behind the test (mean, standard deviation, z-score against the 2.0
    threshold) are floating point; `isOutlier` is that test, already fixed to the
    population's mean and deviation, applied to one balance. */
module Outliers {
  import opened Census

  /** The participants that pass the test, in input order (`newParticipants`). */
  function Kept(s: seq<Participant>, isOutlier: nat -> bool): seq<Participant>
  {
    if s == [] then []
    else
      var n := |s| - 1;
      Kept(s[..n], isOutlier) + (if isOutlier(s[n].balance) then [] else [s[n]])
  }

  /** The participants the test flags, in input order (`outliers`). */
  function Flagged(s: seq<Participant>, isOutlier: nat -> bool): seq<Participant>
  {
    if s == [] then []
    else
      var n := |s| - 1;
      Flagged(s[..n], isOutlier) + (if isOutlier(s[n].balance) then [s[n]] else [])
  }

  /** The last loop of `zScore`. */
  method ZScore(participants: seq<Participant>, isOutlier: nat -> bool)
    returns (newParticipants: seq<Participant>, outliers: seq<Participant>)
    requires |participants| > 0
    ensures newParticipants == Kept(participants, isOutlier)
    ensures outliers == Flagged(participants, isOutlier)
  {
    outliers := [];
    newParticipants := [];
    for i := 0 to |participants|
      invariant newParticipants == Kept(participants[..i], isOutlier)
      invariant outliers == Flagged(participants[..i], isOutlier)
    {
      assert participants[..i + 1][..i] == participants[..i];
      var p := participants[i];
      if isOutlier(p.balance) {
        outliers := outliers + [p];
      } else {
        newParticipants := newParticipants + [p];
      }
    }
    assert participants[..|participants|] == participants;
  }

  /** Nobody is lost or duplicated: the two lists together hold exactly the input. */
  lemma PartitionIsComplete(s: seq<Participant>, isOutlier: nat -> bool)
    ensures |Kept(s, isOutlier)| + |Flagged(s, isOutlier)| == |s|
    ensures multiset(Kept(s, isOutlier)) + multiset(Flagged(s, isOutlier)) == multiset(s)
  {
    PartitionMultiset(s, isOutlier);
    assert |multiset(Kept(s, isOutlier)) + multiset(Flagged(s, isOutlier))| == |multiset(s)|;
  }

  lemma {:induction false} PartitionMultiset(s: seq<Participant>, isOutlier: nat -> bool)
    ensures multiset(Kept(s, isOutlier)) + multiset(Flagged(s, isOutlier)) == multiset(s)
    decreases |s|
  {
    if s != [] {
      var n := |s| - 1;
      var init, x := s[..n], s[n];
      PartitionMultiset(init, isOutlier);
      assert s == init + [x];
      var kept, flagged := Kept(init, isOutlier), Flagged(init, isOutlier);
      if isOutlier(x.balance) {
        assert Kept(s, isOutlier) == kept && Flagged(s, isOutlier) == flagged + [x];
        SplitSnoc(flagged, kept, init, x);
      } else {
        assert Kept(s, isOutlier) == kept + [x] && Flagged(s, isOutlier) == flagged;
        SplitSnoc(kept, flagged, init, x);
      }
    }
  }

  /** Two lists that split `init` between them split `init + [x]` once `x` joins either. */
  lemma SplitSnoc<T>(grown: seq<T>, other: seq<T>, init: seq<T>, x: T)
    requires multiset(grown) + multiset(other) == multiset(init)
    ensures multiset(grown + [x]) + multiset(other) == multiset(init + [x])
  {
  }

  /** A participant is kept exactly when it is in the input and passes the test, and
      flagged exactly when it is in the input and fails it. */
  lemma {:induction false} PartitionMembership(s: seq<Participant>, isOutlier: nat -> bool, p: Participant)
    ensures p in Kept(s, isOutlier) <==> p in s && !isOutlier(p.balance)
    ensures p in Flagged(s, isOutlier) <==> p in s && isOutlier(p.balance)
    decreases |s|
  {
    if s != [] {
      var n := |s| - 1;
      PartitionMembership(s[..n], isOutlier, p);
      assert s == s[..n] + [s[n]];
    }
  }

  /** The kept list keeps the input order: two kept participants keep their relative
      positions (`FlaggedKeepsOrder` states the same of the flagged list). */
  lemma {:induction false} PartitionKeepsOrder(s: seq<Participant>, isOutlier: nat -> bool, i: nat, j: nat)
    requires i < j < |s| && !isOutlier(s[i].balance) && !isOutlier(s[j].balance)
    ensures |Kept(s[..i], isOutlier)| < |Kept(s[..j], isOutlier)| < |Kept(s, isOutlier)|
    ensures Kept(s, isOutlier)[|Kept(s[..i], isOutlier)|] == s[i]
    ensures Kept(s, isOutlier)[|Kept(s[..j], isOutlier)|] == s[j]
  {
    KeptAt(s, isOutlier, i);
    KeptAt(s, isOutlier, j);
    KeptGrows(s, isOutlier, i + 1, j);
    assert s[..i + 1][..i] == s[..i];
  }

  /** A kept participant sits in the kept list right after those kept before it. */
  lemma {:induction false} KeptAt(s: seq<Participant>, isOutlier: nat -> bool, i: nat)
    requires i < |s| && !isOutlier(s[i].balance)
    ensures |Kept(s[..i], isOutlier)| < |Kept(s, isOutlier)|
    ensures Kept(s, isOutlier)[|Kept(s[..i], isOutlier)|] == s[i]
    decreases |s|
  {
    var n := |s| - 1;
    assert s[..n + 1] == s;
    if i < n {
      assert s[..n][..i] == s[..i];
      KeptAt(s[..n], isOutlier, i);
    } else {
      assert s[..i] == s[..n];
    }
  }

  /** A longer prefix keeps at least as many participants as a shorter one. */
  lemma {:induction false} KeptGrows(s: seq<Participant>, isOutlier: nat -> bool, i: nat, j: nat)
    requires i <= j <= |s|
    ensures |Kept(s[..i], isOutlier)| <= |Kept(s[..j], isOutlier)|
    decreases j - i
  {
    if i < j {
      KeptGrows(s, isOutlier, i, j - 1);
      assert s[..j][..j - 1] == s[..j - 1];
    }
  }

  /** The flagged list keeps the input order too: two flagged participants keep their
      relative positions. */
  lemma {:induction false} FlaggedKeepsOrder(s: seq<Participant>, isOutlier: nat -> bool, i: nat, j: nat)
    requires i < j < |s| && isOutlier(s[i].balance) && isOutlier(s[j].balance)
    ensures |Flagged(s[..i], isOutlier)| < |Flagged(s[..j], isOutlier)| < |Flagged(s, isOutlier)|
    ensures Flagged(s, isOutlier)[|Flagged(s[..i], isOutlier)|] == s[i]
    ensures Flagged(s, isOutlier)[|Flagged(s[..j], isOutlier)|] == s[j]
  {
    FlaggedAt(s, isOutlier, i);
    FlaggedAt(s, isOutlier, j);
    FlaggedGrows(s, isOutlier, i + 1, j);
    assert s[..i + 1][..i] == s[..i];
  }

  /** A flagged participant sits in the flagged list right after those flagged before it. */
  lemma {:induction false} FlaggedAt(s: seq<Participant>, isOutlier: nat -> bool, i: nat)
    requires i < |s| && isOutlier(s[i].balance)
    ensures |Flagged(s[..i], isOutlier)| < |Flagged(s, isOutlier)|
    ensures Flagged(s, isOutlier)[|Flagged(s[..i], isOutlier)|] == s[i]
    decreases |s|
  {
    var n := |s| - 1;
    assert s[..n + 1] == s;
    if i < n {
      assert s[..n][..i] == s[..i];
      FlaggedAt(s[..n], isOutlier, i);
    } else {
      assert s[..i] == s[..n];
    }
  }

  /** A longer prefix flags at least as many participants as a shorter one. */
  lemma {:induction false} FlaggedGrows(s: seq<Participant>, isOutlier: nat -> bool, i: nat, j: nat)
    requires i <= j <= |s|
    ensures |Flagged(s[..i], isOutlier)| <= |Flagged(s[..j], isOutlier)|
    decreases j - i
  {
    if i < j {
      FlaggedGrows(s, isOutlier, i, j - 1);
      assert s[..j][..j - 1] == s[..j - 1];
    }
  }
}
