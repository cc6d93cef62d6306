/** Small facts about sequences that every other module uses. */
module Seqs {

  ghost predicate Distinct<T>(s: seq<T>) {
    forall i, j :: 0 <= i < j < |s| ==> s[i] != s[j]
  }

  /** `s` without the element at position `k`. */
  function RemoveAt<T>(s: seq<T>, k: nat): (r: seq<T>)
    requires k < |s|
    ensures |r| == |s| - 1
  {
    s[..k] + s[k + 1..]
  }

  lemma RemoveAtMembers<T>(s: seq<T>, k: nat)
    requires k < |s| && Distinct(s)
    ensures Distinct(RemoveAt(s, k))
    ensures forall x :: x in RemoveAt(s, k) <==> x in s && x != s[k]
  {
    var r := RemoveAt(s, k);
    forall x | x in s && x != s[k]
      ensures x in r
    {
      var i :| 0 <= i < |s| && s[i] == x;
      assert r[if i < k then i else i - 1] == x;
    }
  }

  lemma {:induction false} DistinctCounts<T>(s: seq<T>)
    requires Distinct(s)
    ensures forall x :: x in s ==> multiset(s)[x] == 1
  {
    if s != [] {
      var t, e := s[..|s| - 1], s[|s| - 1];
      DistinctCounts(t);
      assert s == t + [e] && multiset(s) == multiset(t) + multiset{e};
      assert e !in t;
    }
  }

  /** The first position of `x` in `s`, or `|s|` when it is absent. */
  function IndexOf<T(==)>(s: seq<T>, x: T): (i: nat)
    ensures i <= |s|
    ensures i < |s| ==> s[i] == x
    ensures x in s <==> i < |s|
    ensures forall j :: 0 <= j < i ==> s[j] != x
  {
    if s == [] then 0
    else if s[0] == x then 0
    else 1 + IndexOf(s[1..], x)
  }

  /** `s` without its first `x`, if it has one. */
  function Without<T(==)>(s: seq<T>, x: T): seq<T> {
    if x in s then RemoveAt(s, IndexOf(s, x)) else s
  }

  function Sum(s: seq<nat>): nat {
    if s == [] then 0 else Sum(s[..|s| - 1]) + s[|s| - 1]
  }

  /** Adding one to slot `k` adds one to exactly the prefix sums that reach past `k`. */
  lemma {:induction false} SumBump(s: seq<nat>, k: nat, n: nat)
    requires k < |s| && n <= |s|
    ensures Sum(s[k := s[k] + 1][..n]) == Sum(s[..n]) + if k < n then 1 else 0
  {
    if n > 0 {
      SumBump(s, k, n - 1);
      var t := s[k := s[k] + 1];
      assert t[..n][..n - 1] == t[..n - 1];
      assert s[..n][..n - 1] == s[..n - 1];
    }
  }

  lemma {:induction false} SumZeros(n: nat, m: nat)
    requires n <= m
    ensures Sum(seq(m, _ => 0)[..n]) == 0
  {
    if n > 0 {
      SumZeros(n - 1, m);
      assert seq(m, _ => 0)[..n][..n - 1] == seq(m, _ => 0)[..n - 1];
    }
  }

  lemma {:induction false} SumPrefixMonotone(s: seq<nat>, i: nat, j: nat)
    requires i <= j <= |s|
    ensures Sum(s[..i]) <= Sum(s[..j])
    decreases j
  {
    if i < j {
      SumPrefixMonotone(s, i, j - 1);
      assert s[..j][..j - 1] == s[..j - 1];
    }
  }

  lemma {:induction false} SumAppend(s: seq<nat>, n: nat)
    requires n < |s|
    ensures Sum(s[..n + 1]) == Sum(s[..n]) + s[n]
  {
    assert s[..n + 1][..n] == s[..n];
  }
}
