/** The census records and the sequence functions every stage of the rounding shares. */
module Census {

  /** A census entry (`Participant` in round.go): an address that is never interpreted
      and a non-negative balance of arbitrary precision. */
  datatype Participant = Participant(address: string, balance: nat)

  function BalanceOf(p: Participant): nat { p.balance }

  function AddressOf(p: Participant): string { p.address }

  /** `f` applied to every element, in order. */
  function Map<T, U>(s: seq<T>, f: T -> U): (r: seq<U>)
    ensures |r| == |s| && forall i :: 0 <= i < |s| ==> r[i] == f(s[i])
  {
    seq(|s|, i requires 0 <= i < |s| => f(s[i]))
  }

  /** Every member's balance, in order. */
  function Balances(s: seq<Participant>): (r: seq<nat>)
    ensures |r| == |s| && forall i :: 0 <= i < |s| ==> r[i] == s[i].balance
  {
    seq(|s|, i requires 0 <= i < |s| => s[i].balance)
  }

  /** Every member's address, in order. */
  function Addresses(s: seq<Participant>): (r: seq<string>)
    ensures |r| == |s| && forall i :: 0 <= i < |s| ==> r[i] == s[i].address
  {
    seq(|s|, i requires 0 <= i < |s| => s[i].address)
  }

  /** The total balance of a list of participants (the `big.Int` accumulators of
      calculateAccuracy). */
  function Total(s: seq<Participant>): nat
  {
    if s == [] then 0 else Total(s[..|s| - 1]) + s[|s| - 1].balance
  }

  /** Counting one more member adds its balance. */
  lemma TotalSnoc(s: seq<Participant>, i: nat)
    requires i < |s|
    ensures Total(s[..i + 1]) == Total(s[..i]) + s[i].balance
  {
    assert s[..i + 1][..i] == s[..i];
  }

  /** Totals add up over concatenation. */
  lemma {:induction false} TotalAppend(a: seq<Participant>, b: seq<Participant>)
    ensures Total(a + b) == Total(a) + Total(b)
    decreases |b|
  {
    if b != [] {
      var n := |b| - 1;
      var ab := a + b;
      assert ab[..|ab| - 1] == a + b[..n] && ab[|ab| - 1] == b[n];
      TotalAppend(a, b[..n]);
      assert Total(ab) == Total(a + b[..n]) + b[n].balance;
    } else {
      assert a + b == a;
    }
  }

  /** Lists carrying the same balances position by position have the same total. */
  lemma TotalByBalances(s1: seq<Participant>, s2: seq<Participant>)
    requires Balances(s1) == Balances(s2)
    ensures Total(s1) == Total(s2)
  {
    forall k | 0 <= k < |s1| ensures s1[k].balance == s2[k].balance {
      assert Balances(s1)[k] == Balances(s2)[k];
    }
    TotalMonotone(s1, s2);
    TotalMonotone(s2, s1);
  }

  /** Balances in ascending order. */
  ghost predicate Ascending(bs: seq<nat>)
  {
    forall i, j :: 0 <= i < j < |bs| ==> bs[i] <= bs[j]
  }

  /** The groups laid end to end. */
  function Flatten<T>(groups: seq<seq<T>>): seq<T>
  {
    if groups == [] then [] else groups[0] + Flatten(groups[1..])
  }

  lemma {:induction false} FlattenAppend<T>(a: seq<seq<T>>, b: seq<seq<T>>)
    ensures Flatten(a + b) == Flatten(a) + Flatten(b)
  {
    if a == [] {
      assert a + b == b;
    } else {
      assert (a + b)[1..] == a[1..] + b;
      FlattenAppend(a[1..], b);
    }
  }

  lemma FlattenSnoc<T>(groups: seq<seq<T>>, g: seq<T>)
    ensures Flatten(groups + [g]) == Flatten(groups) + g
  {
    FlattenAppend(groups, [g]);
    assert [g][1..] == [];
  }

  /** Element `j` of group `k` sits after all elements of the groups before it. */
  lemma {:induction false} FlattenAt<T>(groups: seq<seq<T>>, k: nat, j: nat)
    requires k < |groups| && j < |groups[k]|
    ensures |Flatten(groups[..k])| + j < |Flatten(groups)|
    ensures Flatten(groups)[|Flatten(groups[..k])| + j] == groups[k][j]
    decreases k
  {
    var rest := groups[1..];
    if k == 0 {
      assert groups[..0] == [];
    } else {
      assert groups[..k][0] == groups[0] && groups[..k][1..] == rest[..k - 1];
      assert rest[k - 1] == groups[k];
      FlattenAt(rest, k - 1, j);
    }
  }

  lemma MapAppend<T, U>(a: seq<T>, b: seq<T>, f: T -> U)
    ensures Map(a + b, f) == Map(a, f) + Map(b, f)
  {
  }

  /** Projecting two permutations of one another gives two permutations of one another. */
  lemma {:induction false} MapPermutation<T, U>(s1: seq<T>, s2: seq<T>, f: T -> U)
    requires multiset(s1) == multiset(s2)
    ensures multiset(Map(s1, f)) == multiset(Map(s2, f))
    decreases |s1|
  {
    if s1 == [] {
      assert |s2| == |multiset(s2)| == 0;
    } else {
      var n := |s1| - 1;
      var x := s1[n];
      assert s1 == s1[..n] + [x];
      assert x in multiset(s2);
      var i :| 0 <= i < |s2| && s2[i] == x;
      var rest := s2[..i] + s2[i + 1..];
      assert s2 == s2[..i] + [x] + s2[i + 1..];
      assert multiset(rest) == multiset(s2) - multiset{x};
      assert multiset(s1[..n]) == multiset(s1) - multiset{x};
      MapPermutation(s1[..n], rest, f);
      MapAppend(s1[..n], [x], f);
      MapAppend(s2[..i], [x], f);
      MapAppend(s2[..i] + [x], s2[i + 1..], f);
      MapAppend(s2[..i], s2[i + 1..], f);
    }
  }

  lemma BalancesAppend(a: seq<Participant>, b: seq<Participant>)
    ensures Balances(a + b) == Balances(a) + Balances(b)
  {
  }

  lemma AddressesAppend(a: seq<Participant>, b: seq<Participant>)
    ensures Addresses(a + b) == Addresses(a) + Addresses(b)
  {
  }

  /** Permuting a census permutes its balances. */
  lemma BalancesPermutation(s1: seq<Participant>, s2: seq<Participant>)
    requires multiset(s1) == multiset(s2)
    ensures multiset(Balances(s1)) == multiset(Balances(s2))
  {
    MapPermutation(s1, s2, BalanceOf);
    assert Balances(s1) == Map(s1, BalanceOf) && Balances(s2) == Map(s2, BalanceOf);
  }

  /** Permuting a census permutes its addresses. */
  lemma AddressesPermutation(s1: seq<Participant>, s2: seq<Participant>)
    requires multiset(s1) == multiset(s2)
    ensures multiset(Addresses(s1)) == multiset(Addresses(s2))
  {
    MapPermutation(s1, s2, AddressOf);
    assert Addresses(s1) == Map(s1, AddressOf) && Addresses(s2) == Map(s2, AddressOf);
  }

  lemma AscendingTail(x: seq<nat>)
    requires Ascending(x) && x != []
    ensures Ascending(x[1..])
  {
    forall a, b | 0 <= a < b < |x| - 1 ensures x[1..][a] <= x[1..][b] {
      assert x[1..][a] == x[a + 1] && x[1..][b] == x[b + 1];
    }
  }

  /** The first element of an ascending sequence is the least of its multiset. */
  lemma AscendingHeadIsLeast(x: seq<nat>, v: nat)
    requires Ascending(x) && v in multiset(x)
    ensures x[0] <= v
  {
    var i :| 0 <= i < |x| && x[i] == v;
  }

  lemma {:induction false} MultisetTail<T>(x: seq<T>)
    requires x != []
    ensures multiset(x[1..]) == multiset(x) - multiset{x[0]}
  {
    assert x == [x[0]] + x[1..];
  }

  /** Two ascending sequences holding the same balances are equal: the order a sort
      produces is unique up to elements of equal balance. */
  lemma {:induction false} AscendingUnique(x: seq<nat>, y: seq<nat>)
    requires Ascending(x) && Ascending(y) && multiset(x) == multiset(y)
    ensures x == y
    decreases |x|
  {
    if x == [] {
      assert |y| == |multiset(y)| == 0;
    } else {
      AscendingUniqueStep(x, y);
      AscendingUnique(x[1..], y[1..]);
      HeadTailEqual(x, y);
    }
  }

  /** Two non-empty ascending sequences with the same elements start alike, and their tails
      are again ascending with the same elements. */
  lemma AscendingUniqueStep(x: seq<nat>, y: seq<nat>)
    requires Ascending(x) && Ascending(y) && multiset(x) == multiset(y) && x != []
    ensures y != [] && x[0] == y[0]
    ensures Ascending(x[1..]) && Ascending(y[1..]) && multiset(x[1..]) == multiset(y[1..])
  {
    assert |y| == |multiset(y)| == |x|;
    assert y[0] in multiset(x) && x[0] in multiset(y);
    AscendingHeadIsLeast(x, y[0]);
    AscendingHeadIsLeast(y, x[0]);
    MultisetTail(x);
    MultisetTail(y);
    AscendingTail(x);
    AscendingTail(y);
  }

  lemma HeadTailEqual<T>(x: seq<T>, y: seq<T>)
    requires x != [] && y != [] && x[0] == y[0] && x[1..] == y[1..]
    ensures x == y
  {
    assert x == [x[0]] + x[1..] && y == [y[0]] + y[1..];
  }

  /** A total never shrinks when each member's balance grows. */
  lemma {:induction false} TotalMonotone(small: seq<Participant>, big: seq<Participant>)
    requires |small| == |big|
    requires forall k :: 0 <= k < |small| ==> small[k].balance <= big[k].balance
    ensures Total(small) <= Total(big)
    decreases |small|
  {
    if small != [] {
      TotalMonotone(small[..|small| - 1], big[..|big| - 1]);
    }
  }
}
