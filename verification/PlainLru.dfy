/**
 * A plain LRU cache of keys: the reference every cache of the library is measured
 * against.  The list runs from the least to the most recently used key, as
 * `lru_.next .. lru_.prev` does.
 */
module PlainLru {
  import opened Seqs

  /** The `c` most recent entries. */
  function Newest<K>(l: seq<K>, c: nat): (r: seq<K>)
    ensures |r| == if |l| <= c then |l| else c
  {
    if |l| <= c then l else l[|l| - c..]
  }

  /** `k` moved, or added, to the newest end. */
  function Moved<K(==)>(l: seq<K>, k: K): seq<K> {
    Without(l, k) + [k]
  }

  /** One access: `k` becomes the newest key and whatever exceeds the capacity is evicted. */
  function Touch<K(==)>(l: seq<K>, k: K, c: nat): seq<K> {
    Newest(Moved(l, k), c)
  }

  function LruRun<K(==)>(trace: seq<K>, c: nat): seq<K> {
    if trace == [] then [] else Touch(LruRun(trace[..|trace| - 1], c), trace[|trace| - 1], c)
  }

  lemma TouchDistinct<K>(l: seq<K>, k: K, c: nat)
    requires Distinct(l)
    ensures Distinct(Touch(l, k, c)) && |Touch(l, k, c)| <= c
    ensures c > 0 ==> |Touch(l, k, c)| > 0 && Touch(l, k, c)[|Touch(l, k, c)| - 1] == k
    ensures forall x :: x in Touch(l, k, c) ==> x == k || x in l
  {
    var w := Without(l, k);
    assert k !in w && Distinct(w) && forall x :: x in w ==> x in l;
    var t := w + [k];
    assert Distinct(t);
    assert forall x :: x in Newest(t, c) ==> x in t;
  }

  /** A key outside the newest `c` can be removed without the newest `c` noticing. */
  lemma NewestIgnoresOlder<K>(l: seq<K>, c: nat, m: nat)
    requires c <= m
    ensures Newest(Newest(l, m), c) == Newest(l, c)
  {
  }

  lemma WithoutAt<K>(l: seq<K>, k: K, i: nat)
    requires Distinct(l) && i < |l| && l[i] == k
    ensures Without(l, k) == RemoveAt(l, i)
  {
    assert IndexOf(l, k) == i;
  }

  lemma DropRemove<K>(l: seq<K>, off: nat, i: nat)
    requires off <= i < |l|
    ensures RemoveAt(l[off..], i - off) == RemoveAt(l, i)[off..]
  {
    var a, b := RemoveAt(l[off..], i - off), RemoveAt(l, i)[off..];
    assert |a| == |b|;
    forall j | 0 <= j < |a|
      ensures a[j] == b[j]
    {
    }
  }

  lemma DropAppend<K>(l: seq<K>, off: nat, k: K)
    requires off <= |l|
    ensures l[off..] + [k] == (l + [k])[off..]
  {
  }

  lemma NewestOfSuffix<K>(l: seq<K>, off: nat, c: nat)
    requires off <= |l| && (off == 0 || |l| - off >= c)
    ensures Newest(l[off..], c) == Newest(l, c)
  {
  }

  lemma RemoveFromNewest<K>(l: seq<K>, k: K, c: nat, i: nat)
    requires |l| - |Newest(l, c)| <= i < |l|
    ensures Newest(RemoveAt(Newest(l, c), i - (|l| - |Newest(l, c)|)) + [k], c)
         == Newest(RemoveAt(l, i) + [k], c)
  {
    hide RemoveAt;
    var off := |l| - |Newest(l, c)|;
    assert Newest(l, c) == l[off..];
    DropRemove(l, off, i);
    DropAppend(RemoveAt(l, i), off, k);
    hide Newest;
    NewestOfSuffix(RemoveAt(l, i) + [k], off, c);
  }

  lemma InclusionNear<K>(l: seq<K>, k: K, c: nat)
    requires Distinct(l) && k in Newest(l, c)
    ensures Touch(Newest(l, c), k, c) == Newest(Moved(l, k), c)
  {
    hide RemoveAt, IndexOf;
    var n := Newest(l, c);
    var j := IndexOf(n, k);
    var off := |l| - |n|;
    assert n == l[off..] && l[off + j] == k;
    assert Distinct(n);
    WithoutAt(n, k, j);
    WithoutAt(l, k, off + j);
    RemoveFromNewest(l, k, c, off + j);
  }

  lemma InclusionFar<K>(l: seq<K>, k: K, c: nat)
    requires Distinct(l) && k !in Newest(l, c)
    ensures Touch(Newest(l, c), k, c) == Newest(Moved(l, k), c)
  {
    var n, w := Newest(l, c), Without(l, k);
    var off := |w| - |n|;
    if k in l {
      var i := IndexOf(l, k);
      assert n == l[|l| - |n|..];
      assert i < |l| - |n|;
    }
    assert w[off..] == n;
    assert n + [k] == (w + [k])[off..];
  }

  lemma TouchNewest<K>(l: seq<K>, k: K, c: nat)
    requires Distinct(l)
    ensures Touch(Newest(l, c), k, c) == Newest(Moved(l, k), c)
  {
    if k in Newest(l, c) {
      InclusionNear(l, k, c);
    } else {
      InclusionFar(l, k, c);
    }
  }

  /**
   * The stack property, one step: a smaller LRU cache always holds the newest part
   * of a larger one, in the same order.
   */
  lemma Inclusion<K>(l: seq<K>, k: K, c: nat, m: nat)
    requires c <= m && Distinct(l)
    ensures Touch(Newest(l, c), k, c) == Newest(Touch(l, k, m), c)
  {
    TouchNewest(l, k, c);
    NewestIgnoresOlder(Moved(l, k), c, m);
  }

  lemma {:induction false} RunDistinct<K>(trace: seq<K>, c: nat)
    ensures Distinct(LruRun(trace, c)) && |LruRun(trace, c)| <= c
    ensures forall x :: x in LruRun(trace, c) ==> x in trace
  {
    if trace != [] {
      var t := trace[..|trace| - 1];
      RunDistinct(t, c);
      TouchDistinct(LruRun(t, c), trace[|trace| - 1], c);
    }
  }

  /**
   * The stack property over whole runs: after any trace, a cache of capacity `c` holds
   * exactly the `c` most recent keys of any cache at least as large, in the same order.
   */
  lemma {:induction false} RunInclusion<K>(trace: seq<K>, c: nat, m: nat)
    requires c <= m
    ensures LruRun(trace, c) == Newest(LruRun(trace, m), c)
  {
    if trace != [] {
      var t := trace[..|trace| - 1];
      RunInclusion(t, c, m);
      RunDistinct(t, m);
      Inclusion(LruRun(t, m), trace[|trace| - 1], c, m);
    }
  }

  /** In MRU distance: `k` hits a cache of capacity `c` iff fewer than `c` other keys are newer. */
  lemma HitIffNear<K>(l: seq<K>, k: K, c: nat)
    requires Distinct(l) && k in l
    ensures k in Newest(l, c) <==> |l| - 1 - IndexOf(l, k) < c
  {
    var i := IndexOf(l, k);
    var n := Newest(l, c);
    var off := |l| - |n|;
    if off <= i {
      assert n[i - off] == k;
    }
  }

  /** Accessing distinct new keys one by one in order rebuilds a list, cut to the capacity. */
  lemma {:induction false} RunOfDistinct<K>(trace: seq<K>, c: nat)
    requires Distinct(trace)
    ensures LruRun(trace, c) == Newest(trace, c)
  {
    if trace != [] {
      var t := trace[..|trace| - 1];
      var k := trace[|trace| - 1];
      RunOfDistinct(t, c);
      RunDistinct(t, c);
      assert k !in t;
      AppendNewest(t, k, c);
      assert t + [k] == trace;
    }
  }

  lemma AppendNewest<K>(t: seq<K>, k: K, c: nat)
    ensures Newest(Newest(t, c) + [k], c) == Newest(t + [k], c)
  {
  }
}
