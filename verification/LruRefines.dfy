/** Without pins the cache is the plain LRU list of `PlainLru`. */
module LruRefines {
  import opened Seqs
  import opened PlainLru
  import Spec = LruSpec

  lemma KeysOfRemove<S, K>(s: seq<Spec.Entry<S, K>>, i: nat)
    requires i < |s|
    ensures Spec.KeysOf(RemoveAt(s, i)) == RemoveAt(Spec.KeysOf(s), i)
  {
    hide Spec.KeysOf;
    var a, b := Spec.KeysOf(RemoveAt(s, i)), RemoveAt(Spec.KeysOf(s), i);
    forall j | 0 <= j < |a|
      ensures a[j] == b[j]
    {
      assert a[j] == RemoveAt(s, i)[j].key;
    }
  }

  lemma KeysOfAppend<S, K>(s: seq<Spec.Entry<S, K>>, e: Spec.Entry<S, K>)
    ensures Spec.KeysOf(s + [e]) == Spec.KeysOf(s) + [e.key]
  {
  }

  /** Finding an entry is finding its key. */
  lemma FindIsIndexOf<S, K>(s: seq<Spec.Entry<S, K>>, k: K)
    ensures Spec.Find(s, k) == IndexOf(Spec.KeysOf(s), k)
    ensures Spec.Has(s, k) <==> k in Spec.KeysOf(s)
  {
    var ks := Spec.KeysOf(s);
    var i, j := Spec.Find(s, k), IndexOf(ks, k);
    assert i < |s| ==> ks[i] == k;
    assert j < |s| ==> s[j].key == k;
    assert k in ks <==> j < |ks|;
  }

  lemma KeysDistinctAgree<S, K>(s: seq<Spec.Entry<S, K>>)
    ensures Spec.KeysDistinct(s) ==> Distinct(Spec.KeysOf(s))
  {
  }

  /** The slots that pinned keys leave to the others. */
  function Room<S, K>(st: Spec.State<S, K>): nat {
    |st.lru| + |st.free|
  }

  /**
   * Whatever is pinned, the unpinned keys behave as a plain LRU list in the room left to them:
   * inserting a key that is not pinned is one access of that list, with the same victim.
   */
  lemma AccessIsTouch<S, K>(st: Spec.State<S, K>, k: K)
    requires !Spec.Pinned(st, k)
    ensures var t := Spec.Insert(st, k, false);
            && Spec.KeysOf(t.lru) == Touch(Spec.KeysOf(st.lru), k, Room(st))
            && t.inUse == st.inUse && t.erased == st.erased && Room(t) == Room(st)
  {
    hide Spec.KeysOf, Spec.Find, Spec.Add;
    FindIsIndexOf(st.lru, k);
    if Spec.Idle(st, k) {
      var i := Spec.Find(st.lru, k);
      KeysOfRemove(st.lru, i);
      KeysOfAppend(RemoveAt(st.lru, i), st.lru[i]);
    } else {
      InsertAbsentIsTouch(st, k);
    }
  }

  lemma InsertAbsentIsTouch<S, K>(st: Spec.State<S, K>, k: K)
    requires !Spec.Present(st, k) && k !in Spec.KeysOf(st.lru)
    ensures var t := Spec.Insert(st, k, false);
            && Spec.KeysOf(t.lru) == Touch(Spec.KeysOf(st.lru), k, Room(st))
            && t.inUse == st.inUse && t.erased == st.erased && Room(t) == Room(st)
  {
    hide Spec.KeysOf, Spec.Find, Spec.Present;
    var l := Spec.KeysOf(st.lru);
    if st.free != [] {
      KeysOfAppend(st.lru, Spec.Entry(st.free[0], k, 1));
    } else if st.lru != [] {
      KeysOfRemove(st.lru, 0);
      KeysOfAppend(RemoveAt(st.lru, 0), Spec.Entry(st.lru[0].slot, k, 1));
      assert Newest(l + [k], |l|) == RemoveAt(l, 0) + [k];
    }
  }

  /** In a cache that holds no pins at all, every slot is in play. */
  lemma InsertIsTouch<S, K>(st: Spec.State<S, K>, k: K)
    requires Spec.Inv(st) && st.inUse == [] && Spec.Capacity(st) > 0
    ensures var t := Spec.Insert(st, k, false);
            && Spec.KeysOf(t.lru) == Touch(Spec.KeysOf(st.lru), k, Spec.Capacity(st))
            && t.inUse == [] && t.erased == st.erased && Spec.Capacity(t) == Spec.Capacity(st)
  {
    hide Spec.KeysOf, Spec.Insert;
    AccessIsTouch(st, k);
  }

  /** The accessed key is the newest one afterwards. */
  lemma InsertedIsNewest<S, K>(st: Spec.State<S, K>, k: K)
    requires Spec.Inv(st) && st.inUse == [] && Spec.Capacity(st) > 0
    ensures var t := Spec.Insert(st, k, false);
            t.lru != [] && t.lru[|t.lru| - 1].key == k
  {
    hide Spec.KeysOf, Spec.Insert, Touch;
    var t := Spec.Insert(st, k, false);
    InsertIsTouch(st, k);
    KeysDistinctAgree(st.lru);
    TouchDistinct(Spec.KeysOf(st.lru), k, Spec.Capacity(st));
    assert t.lru != [] ==> Spec.KeysOf(t.lru)[|t.lru| - 1] == t.lru[|t.lru| - 1].key;
  }
}
