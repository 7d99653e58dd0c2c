/** `ByBalance`, the `sort.Interface` of round.go, and the in-place sort it drives. */
module Sorting {
  import opened Census

  /** `ByBalance.Less`: ordered by balance alone, addresses are never compared. */
  predicate Less(p: Participant, q: Participant)
  {
    p.balance < q.balance
  }

  /** Less is a strict weak order whose ties are exactly the equal balances, which is
      what `sort.Sort` needs of it. */
  lemma LessIsStrictWeakOrder(p: Participant, q: Participant, r: Participant)
    ensures !Less(p, p)
    ensures Less(p, q) && Less(q, r) ==> Less(p, r)
    ensures !Less(p, q) && !Less(q, p) <==> p.balance == q.balance
  {
  }

  /** No element is Less than one before it. */
  ghost predicate SortedByBalance(s: seq<Participant>)
  {
    forall i, j {:trigger Less(s[j], s[i])} :: 0 <= i < j < |s| ==> !Less(s[j], s[i])
  }

  /** `ByBalance.Swap`. */
  method Swap(a: array<Participant>, i: nat, j: nat)
    requires i < a.Length && j < a.Length
    modifies a
    ensures a[i] == old(a[j]) && a[j] == old(a[i])
    ensures forall k :: 0 <= k < a.Length && k != i && k != j ==> a[k] == old(a[k])
    ensures multiset(a[..]) == old(multiset(a[..]))
  {
    a[i], a[j] := a[j], a[i];
  }

  /** `sort.Sort(ByBalance(a))`: the array ends up ascending by balance and holds the
      same participants. The library's algorithm is not stable and its order among
      equal balances is not part of its contract, so only this contract is relied on;
      the body is an insertion sort built from Less and Swap. */
  method SortByBalance(a: array<Participant>)
    modifies a
    ensures SortedByBalance(a[..])
    ensures multiset(a[..]) == old(multiset(a[..]))
  {
    var i := 0;
    while i < a.Length
      invariant 0 <= i <= a.Length
      invariant forall k, l :: 0 <= k < l < i ==> a[k].balance <= a[l].balance
      invariant multiset(a[..]) == old(multiset(a[..]))
    {
      Insert(a, i);
      i := i + 1;
    }
  }

  /** One pass of the insertion sort: `a[i]` is swapped down past the larger balances
      before it, so the ascending prefix grows by one. */
  method Insert(a: array<Participant>, i: nat)
    requires i < a.Length
    requires forall k, l :: 0 <= k < l < i ==> a[k].balance <= a[l].balance
    modifies a
    ensures forall k, l :: 0 <= k < l <= i ==> a[k].balance <= a[l].balance
    ensures a[i + 1..] == old(a[i + 1..])
    ensures multiset(a[..]) == old(multiset(a[..]))
  {
    var j := i;
    while j > 0 && Less(a[j], a[j - 1])
      invariant 0 <= j <= i
      invariant forall k, l :: 0 <= k < l <= i && k != j && l != j ==> a[k].balance <= a[l].balance
      invariant forall l :: j < l <= i ==> a[j].balance <= a[l].balance
      invariant a[i + 1..] == old(a[i + 1..])
      invariant multiset(a[..]) == old(multiset(a[..]))
    {
      Swap(a, j - 1, j);
      j := j - 1;
    }
  }

  /** Balances of a sorted sequence are ascending. */
  lemma SortedAscending(s: seq<Participant>)
    requires SortedByBalance(s)
    ensures Ascending(Balances(s))
  {
    forall i, j | 0 <= i < j < |s| ensures Balances(s)[i] <= Balances(s)[j] {
      assert !Less(s[j], s[i]);
    }
  }

  /** Any two sorted permutations of one census carry the same balances position by
      position: they differ at most in the order of equal balances. */
  lemma SortedPermutationsAgree(s1: seq<Participant>, s2: seq<Participant>)
    requires SortedByBalance(s1) && SortedByBalance(s2)
    requires multiset(s1) == multiset(s2)
    ensures Balances(s1) == Balances(s2)
  {
    BalancesPermutation(s1, s2);
    SortedAscending(s1);
    SortedAscending(s2);
    AscendingUnique(Balances(s1), Balances(s2));
  }
}
