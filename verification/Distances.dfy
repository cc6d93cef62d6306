/**
 * How one access moves the nodes of the list, measured from the newest end, and which
 * nodes change their size class.
 */
module Distances {
  import opened Seqs
  import opened Buckets
  import Spec = LruSpec

  /** The node at distance `d` from the newest end. */
  function At<N>(l: seq<N>, d: nat): N
    requires d < |l|
  {
    l[|l| - 1 - d]
  }

  /**
   * `l'` arises from `l` by an access that pushes every node closer than `reach` one step
   * back, puts the accessed node in front and leaves the rest alone.
   */
  ghost predicate Pushed<N>(l: seq<N>, l': seq<N>, reach: nat) {
    && reach < |l'|
    && |l| <= |l'| <= |l| + 1
    && reach <= |l|
    && (reach + 1 < |l'| ==> |l| == |l'|)
    && (forall d {:trigger At(l', d)} :: 1 <= d <= reach ==> At(l', d) == At(l, d - 1))
    && (forall d {:trigger At(l', d)} :: reach < d < |l'| ==> At(l', d) == At(l, d))
  }

  function SlotsOf<S, K>(s: seq<Spec.Entry<S, K>>): (r: seq<S>)
    ensures |r| == |s|
    ensures forall i :: 0 <= i < |s| ==> r[i] == s[i].slot
  {
    if s == [] then [] else SlotsOf(s[..|s| - 1]) + [s[|s| - 1].slot]
  }

  /** How far an insertion reaches: to the key's old place, or through the whole new list. */
  function Reach<S, K(==)>(st: Spec.State<S, K>, k: K): nat {
    var i := Spec.Find(st.lru, k);
    if i < |st.lru| then |st.lru| - 1 - i
    else if st.free != [] then |st.lru|
    else if st.lru == [] then 0
    else |st.lru| - 1
  }

  lemma HitPushes<S, K>(st: Spec.State<S, K>, i: nat)
    requires i < |st.lru|
    ensures var l, l' := SlotsOf(st.lru), SlotsOf(Spec.Refresh(st, i).lru);
            Pushed(l, l', |l| - 1 - i) && At(l', 0) == l[i]
  {
    var l, l' := SlotsOf(st.lru), SlotsOf(Spec.Refresh(st, i).lru);
    var r := RemoveAt(st.lru, i) + [st.lru[i]];
    assert l' == RemoveAt(l, i) + [l[i]] by {
      assert forall m :: 0 <= m < |l| ==> l'[m] == r[m].slot;
    }
  }

  lemma MissPushes<S, K>(st: Spec.State<S, K>, slot: S, k: K)
    ensures var l, l' := SlotsOf(st.lru), SlotsOf(st.lru + [Spec.Entry(slot, k, 1)]);
            Pushed(l, l', |l|) && At(l', 0) == slot
  {
  }

  lemma EvictionPushes<S, K>(st: Spec.State<S, K>, k: K)
    requires st.lru != []
    ensures var e := Spec.Entry(st.lru[0].slot, k, 1);
            var l, l' := SlotsOf(st.lru), SlotsOf(RemoveAt(st.lru, 0) + [e]);
            Pushed(l, l', |l| - 1) && At(l', 0) == st.lru[0].slot
  {
  }

  /** Every unpinned insertion is a push, as far as `Reach` says. */
  lemma InsertPushes<S, K>(st: Spec.State<S, K>, k: K)
    requires Spec.Inv(st) && st.inUse == [] && Spec.Capacity(st) > 0
    ensures Pushed(SlotsOf(st.lru), SlotsOf(Spec.Insert(st, k, false).lru), Reach(st, k))
    ensures var l, l' := SlotsOf(st.lru), SlotsOf(Spec.Insert(st, k, false).lru);
            Spec.Idle(st, k) ==> Reach(st, k) < |l| && At(l', 0) == At(l, Reach(st, k))
    ensures !Spec.Idle(st, k) ==> Reach(st, k) + 1 == |Spec.Insert(st, k, false).lru|
    ensures var t := Spec.Insert(st, k, false);
            |t.lru| == if Spec.Idle(st, k) || st.free == [] then |st.lru| else |st.lru| + 1
  {
    hide Pushed, SlotsOf, Spec.Find, Spec.Inv;
    var i := Spec.Find(st.lru, k);
    if i < |st.lru| {
      HitPushes(st, i);
    } else if st.free != [] {
      MissPushes(st, st.free[0], k);
    } else {
      EvictionPushes(st, k);
    }
  }

  /** The node that follows a present key is one step closer to the newest end. */
  lemma ReachOfPresent<S, K>(st: Spec.State<S, K>, k: K)
    requires Spec.Idle(st, k)
    ensures var i := Spec.Find(st.lru, k);
            && Reach(st, k) == |st.lru| - 1 - i
            && (i + 1 < |st.lru| ==> Reach(st, k) > 0 && st.lru[i + 1].slot == At(SlotsOf(st.lru), Reach(st, k) - 1))
            && (i + 1 == |st.lru| ==> Reach(st, k) == 0)
  {
  }

  // --- size classes ---

  /**
   * The size class of a node now at distance `d` while the boundaries numbered from `lo`
   * up to `hi` are still to be advanced: the node on such a boundary lags one behind.
   */
  function Lagging(c: Config, d: nat, lo: nat, hi: nat): nat
    requires c.tick > 0
  {
    var b := Bucket(c, d);
    if b > 0 && SizeOf(c, b - 1) == d && lo <= b - 1 < hi then b - 1 else b
  }

  /** Before any boundary has been advanced, every pushed node still has its old class. */
  lemma LagStart(c: Config, d: nat, reach: nat)
    requires c.tick > 0 && d > 0
    ensures Lagging(c, d, 0, Bucket(c, reach)) == Bucket(c, if d <= reach then d - 1 else d)
  {
    var b := Bucket(c, d);
    BucketIsLeast(c, d);
    BucketIsLeast(c, reach);
    if b > 0 {
      BucketIffWithin(c, reach, b - 1);
      if SizeOf(c, b - 1) == d {
        if d <= reach {
          if b > 1 {
            SizeOfMonotone(c, b - 2, b - 1);
          }
          BucketUnique(c, d - 1, b - 1);
        }
      } else if d <= reach {
        BucketUnique(c, d - 1, b);
      }
    } else if d <= reach {
      BucketUnique(c, d - 1, 0);
    }
  }

  /** Advancing boundary `i` catches up exactly the node on it. */
  lemma LagStep(c: Config, d: nat, i: nat, hi: nat)
    requires c.tick > 0 && i < hi
    ensures Lagging(c, d, i + 1, hi) == Lagging(c, d, i, hi) + if d == SizeOf(c, i) then 1 else 0
    ensures d == SizeOf(c, i) ==> Lagging(c, d, i, hi) == i
  {
    var b := Bucket(c, d);
    BucketIsLeast(c, d);
    if d == SizeOf(c, i) {
      SizeOfMonotone(c, i, i + 1);
      BucketUnique(c, d, i + 1);
    } else if b > 0 && SizeOf(c, b - 1) == d {
      if b - 1 < i {
        SizeOfMonotone(c, b - 1, i);
      } else if i < b - 1 {
        SizeOfMonotone(c, i, b - 1);
      }
    }
  }

  lemma LagEnd(c: Config, d: nat, hi: nat)
    requires c.tick > 0
    ensures Lagging(c, d, hi, hi) == Bucket(c, d)
  {
  }
}
