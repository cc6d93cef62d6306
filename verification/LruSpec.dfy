/**
 * What the LRU cache with pins does, on values.  A slot is the long-lived piece of cache
 * space a node stands for; an entry is a slot currently holding a key.
 */
module LruSpec {
  import opened Seqs

  datatype Entry<S, K> = Entry(slot: S, key: K, refs: nat)

  /** Each list runs from its oldest to its newest member. */
  datatype State<S, K> = State(
    lru: seq<Entry<S, K>>, inUse: seq<Entry<S, K>>, free: seq<S>, erased: seq<S>)

  /** The position of the first entry for `k`, or the length when there is none. */
  function Find<S, K(==)>(s: seq<Entry<S, K>>, k: K): (i: nat)
    ensures i <= |s|
    ensures i < |s| ==> s[i].key == k
    ensures forall j :: 0 <= j < i ==> s[j].key != k
  {
    if s == [] || s[0].key == k then 0 else 1 + Find(s[1..], k)
  }

  predicate Has<S, K(==)>(s: seq<Entry<S, K>>, k: K) {
    Find(s, k) < |s|
  }

  predicate Idle<S, K(==)>(st: State<S, K>, k: K) {
    Has(st.lru, k)
  }

  predicate Pinned<S, K(==)>(st: State<S, K>, k: K) {
    Has(st.inUse, k)
  }

  predicate Present<S, K(==)>(st: State<S, K>, k: K) {
    Idle(st, k) || Pinned(st, k)
  }

  function Size<S, K>(st: State<S, K>): nat {
    |st.lru| + |st.inUse|
  }

  function Capacity<S, K>(st: State<S, K>): nat {
    Size(st) + |st.free|
  }

  ghost predicate KeysDistinct<S, K>(s: seq<Entry<S, K>>) {
    forall i, j :: 0 <= i < j < |s| ==> s[i].key != s[j].key
  }

  /** No key is held twice, idle entries carry one reference, pinned entries at least two. */
  ghost predicate Inv<S, K>(st: State<S, K>) {
    && KeysDistinct(st.lru)
    && KeysDistinct(st.inUse)
    && (forall i :: 0 <= i < |st.lru| ==> st.lru[i].refs == 1 && !Has(st.inUse, st.lru[i].key))
    && (forall j :: 0 <= j < |st.inUse| ==> st.inUse[j].refs >= 2 && !Has(st.lru, st.inUse[j].key))
  }

  function KeysOf<S, K>(s: seq<Entry<S, K>>): (ks: seq<K>)
    ensures |ks| == |s|
    ensures forall i :: 0 <= i < |s| ==> ks[i] == s[i].key
  {
    if s == [] then [] else KeysOf(s[..|s| - 1]) + [s[|s| - 1].key]
  }

  // --- the operations ---

  /** Moves an idle entry to the newest end. */
  function Refresh<S, K>(st: State<S, K>, i: nat): State<S, K>
    requires i < |st.lru|
  {
    st.(lru := RemoveAt(st.lru, i) + [st.lru[i]])
  }

  /** One more reference; the first one takes the entry out of eviction's reach. */
  function Pin<S, K(==)>(st: State<S, K>, k: K): State<S, K> {
    var i := Find(st.lru, k);
    var j := Find(st.inUse, k);
    if i < |st.lru| then
      st.(lru := RemoveAt(st.lru, i), inUse := st.inUse + [st.lru[i].(refs := 2)])
    else if j < |st.inUse| then
      st.(inUse := st.inUse[j := st.inUse[j].(refs := st.inUse[j].refs + 1)])
    else st
  }

  function Lookup<S, K(==)>(st: State<S, K>, k: K, pin: bool): State<S, K> {
    if pin then Pin(st, k)
    else if Idle(st, k) then Refresh(st, Find(st.lru, k))
    else st
  }

  /** One reference less of the `j`-th pinned entry; the last one makes it the newest idle one. */
  function Released<S, K>(st: State<S, K>, j: nat): State<S, K>
    requires j < |st.inUse| && st.inUse[j].refs > 0
  {
    if st.inUse[j].refs == 2 then
      st.(inUse := RemoveAt(st.inUse, j), lru := st.lru + [st.inUse[j].(refs := 1)])
    else
      st.(inUse := st.inUse[j := st.inUse[j].(refs := st.inUse[j].refs - 1)])
  }

  function Release<S, K(==)>(st: State<S, K>, k: K): State<S, K> {
    var j := Find(st.inUse, k);
    if j == |st.inUse| || st.inUse[j].refs < 2 then st else Released(st, j)
  }

  /** Nothing can be allocated: no free slot and no idle entry. */
  predicate Full<S, K>(st: State<S, K>) {
    st.free == [] && st.lru == []
  }

  /** The slot the next allocation hands out: a free one, else the oldest idle entry's. */
  function NextSlot<S, K>(st: State<S, K>): S
    requires !Full(st)
  {
    if st.free != [] then st.free[0] else st.lru[0].slot
  }

  function Alloc<S, K>(st: State<S, K>): State<S, K>
    requires !Full(st)
  {
    if st.free != [] then st.(free := RemoveAt(st.free, 0)) else st.(lru := RemoveAt(st.lru, 0))
  }

  /** What an allocation leaves of the lookup table. */
  function AllocMap<S, K(==)>(st: State<S, K>, m: map<K, S>): map<K, S>
    requires !Full(st)
  {
    if st.free != [] then m else m - {st.lru[0].key}
  }

  function Add<S, K>(st: State<S, K>, slot: S, k: K, pin: bool): State<S, K> {
    if pin then st.(inUse := st.inUse + [Entry(slot, k, 2)])
    else st.(lru := st.lru + [Entry(slot, k, 1)])
  }

  function Insert<S, K(==)>(st: State<S, K>, k: K, pin: bool): State<S, K> {
    if Present(st, k) then Lookup(st, k, pin)
    else if Full(st) then st
    else Add(Alloc(st), NextSlot(st), k, pin)
  }

  /** Takes an idle entry out of circulation; pinned entries stay. */
  function Erase<S, K(==)>(st: State<S, K>, k: K): State<S, K> {
    var i := Find(st.lru, k);
    if i == |st.lru| then st
    else st.(lru := RemoveAt(st.lru, i), erased := st.erased + [st.lru[i].slot])
  }

  /** Adds an entry in an erased slot, or in the brand-new `spare` when there is none. */
  function Install<S, K>(st: State<S, K>, k: K, spare: S): State<S, K> {
    if st.erased == [] then Add(st, spare, k, false)
    else Add(st.(erased := RemoveAt(st.erased, 0)), st.erased[0], k, false)
  }

  /** What an insertion leaves of the lookup table. */
  function InsertMap<S, K(==)>(st: State<S, K>, m: map<K, S>, k: K): map<K, S> {
    if Present(st, k) || Full(st) then m else AllocMap(st, m)[k := NextSlot(st)]
  }

  /** Gives a slot away for good. */
  function Preempt<S, K>(st: State<S, K>): State<S, K> {
    if Full(st) then st else Alloc(st)
  }

  /** Receives a slot. */
  function Assign<S, K>(st: State<S, K>, slot: S): State<S, K> {
    st.(free := st.free + [slot])
  }

  // --- looking up after a change ---

  lemma FindIs<S, K>(s: seq<Entry<S, K>>, i: nat)
    requires KeysDistinct(s) && i < |s|
    ensures Find(s, s[i].key) == i
  {
  }

  lemma HasAppend<S, K>(s: seq<Entry<S, K>>, e: Entry<S, K>)
    ensures forall k :: Has(s + [e], k) <==> Has(s, k) || k == e.key
    ensures KeysDistinct(s) && !Has(s, e.key) ==> KeysDistinct(s + [e])
  {
    forall k
      ensures Has(s + [e], k) <==> Has(s, k) || k == e.key
    {
      var t := s + [e];
      if Has(s, k) {
        assert t[Find(s, k)].key == k;
      } else if k == e.key {
        assert t[|s|].key == k;
      }
    }
  }

  lemma HasRemove<S, K>(s: seq<Entry<S, K>>, i: nat)
    requires KeysDistinct(s) && i < |s|
    ensures forall k :: Has(RemoveAt(s, i), k) <==> Has(s, k) && k != s[i].key
    ensures KeysDistinct(RemoveAt(s, i))
  {
    var r := RemoveAt(s, i);
    forall k
      ensures Has(r, k) <==> Has(s, k) && k != s[i].key
    {
      var j := Find(s, k);
      if j < |s| && k != s[i].key {
        assert r[if j < i then j else j - 1].key == k;
      }
      var m := Find(r, k);
      if m < |r| {
        assert s[if m < i then m else m + 1].key == k;
      }
    }
  }

  lemma HasUpdate<S, K>(s: seq<Entry<S, K>>, i: nat, e: Entry<S, K>)
    requires i < |s| && e.key == s[i].key
    ensures forall k :: Has(s[i := e], k) <==> Has(s, k)
    ensures KeysDistinct(s) ==> KeysDistinct(s[i := e])
  {
    forall k
      ensures Has(s[i := e], k) <==> Has(s, k)
    {
      var t := s[i := e];
      if Has(s, k) {
        assert t[Find(s, k)].key == k;
      }
      if Has(t, k) {
        assert s[Find(t, k)].key == k;
      }
    }
  }

  // --- what every operation keeps ---

  /**
   * The lookup table `m` sends the keys of `st` to their slots, and none of the slots in
   * `own` to anything else.  Other keys of `m` belong to other caches on the same table.
   */
  ghost predicate Maps<S, K>(st: State<S, K>, own: set<S>, m: map<K, S>) {
    && (forall i :: 0 <= i < |st.lru| ==> st.lru[i].key in m && m[st.lru[i].key] == st.lru[i].slot)
    && (forall j :: 0 <= j < |st.inUse| ==> st.inUse[j].key in m && m[st.inUse[j].key] == st.inUse[j].slot)
    && (forall k :: k in m && m[k] in own ==> Present(st, k))
  }

  lemma EmptyState<S, K>(pool: seq<S>, own: set<S>)
    ensures var st: State<S, K> := State([], [], pool, []);
            Inv(st) && Maps(st, own, map[]) && Size(st) == 0 && Capacity(st) == |pool|
  {
  }

  /** Neither condition looks at the slots that hold no key. */
  lemma IdleSlotsIrrelevant<S, K>(st: State<S, K>, own: set<S>, m: map<K, S>, free: seq<S>, erased: seq<S>)
    requires Inv(st)
    ensures Inv(st.(free := free, erased := erased))
    ensures Maps(st, own, m) ==> Maps(st.(free := free, erased := erased), own, m)
  {
  }

  lemma MapsIdle<S, K>(st: State<S, K>, own: set<S>, m: map<K, S>, i: nat)
    requires Maps(st, own, m) && i < |st.lru|
    ensures st.lru[i].key in m && m[st.lru[i].key] == st.lru[i].slot
  {
  }

  lemma MapsPinned<S, K>(st: State<S, K>, own: set<S>, m: map<K, S>, j: nat)
    requires Maps(st, own, m) && j < |st.inUse|
    ensures st.inUse[j].key in m && m[st.inUse[j].key] == st.inUse[j].slot
  {
  }

  /** A slot that no key of the table leads to may be owned or not. */
  lemma MapsOwner<S, K>(st: State<S, K>, own: set<S>, m: map<K, S>, slot: S)
    requires Maps(st, own, m) && forall k :: k in m ==> m[k] != slot
    ensures Maps(st, own + {slot}, m)
  {
  }

  lemma MapsFewer<S, K>(st: State<S, K>, own: set<S>, m: map<K, S>, less: set<S>)
    requires Maps(st, own, m) && less <= own
    ensures Maps(st, less, m)
  {
  }

  /** Two tables that differ at most in keys held in the slots of `mine`. */
  ghost predicate AgreeOutside<S, K>(mine: set<S>, m: map<K, S>, m': map<K, S>) {
    && (forall k :: k in m && m[k] !in mine ==> k in m' && m'[k] == m[k])
    && (forall k :: k in m' && m'[k] !in mine ==> k in m && m[k] == m'[k])
  }

  /** What happens in the slots of others is no concern of `st`. */
  lemma MapsElsewhere<S, K>(st: State<S, K>, own: set<S>, mine: set<S>, m: map<K, S>, m': map<K, S>)
    requires Maps(st, own, m) && AgreeOutside(mine, m, m') && own !! mine
    requires forall i :: 0 <= i < |st.lru| ==> st.lru[i].slot in own
    requires forall j :: 0 <= j < |st.inUse| ==> st.inUse[j].slot in own
    ensures Maps(st, own, m')
  {
    hide Present;
  }

  lemma MapsOnly<S, K>(st: State<S, K>, own: set<S>, m: map<K, S>, k: K)
    requires Maps(st, own, m) && k in m && m[k] in own
    ensures Present(st, k)
  {
  }

  lemma RefsOf<S, K>(st: State<S, K>)
    requires Inv(st)
    ensures forall i :: 0 <= i < |st.lru| ==> st.lru[i].refs == 1
    ensures forall j :: 0 <= j < |st.inUse| ==> st.inUse[j].refs >= 2
  {
  }

  lemma EvictKeeps<S, K>(st: State<S, K>, own: set<S>, m: map<K, S>)
    requires Inv(st) && st.lru != []
    ensures var t := st.(lru := RemoveAt(st.lru, 0));
            Inv(t) && (Maps(st, own, m) ==> Maps(t, own, m - {st.lru[0].key}))
  {
    EraseKeeps(st, own, m, 0);

  }

  lemma AddIdleKeeps<S, K>(st: State<S, K>, own: set<S>, m: map<K, S>, slot: S, k: K)
    requires Inv(st) && !Present(st, k)
    ensures Inv(Add(st, slot, k, false))
    ensures Maps(st, own, m) && k !in m ==> Maps(Add(st, slot, k, false), own, m[k := slot])
    ensures Add(st, slot, k, false) == st.(lru := st.lru + [Entry(slot, k, 1)])
  {
    HasAppend(st.lru, Entry(slot, k, 1));
  }

  lemma AddPinnedKeeps<S, K>(st: State<S, K>, own: set<S>, m: map<K, S>, slot: S, k: K)
    requires Inv(st) && !Present(st, k)
    ensures Inv(Add(st, slot, k, true))
    ensures Maps(st, own, m) && k !in m ==> Maps(Add(st, slot, k, true), own, m[k := slot])
    ensures Add(st, slot, k, true) == st.(inUse := st.inUse + [Entry(slot, k, 2)])
  {
    HasAppend(st.inUse, Entry(slot, k, 2));
  }

  lemma AddKeeps<S, K>(st: State<S, K>, own: set<S>, m: map<K, S>, slot: S, k: K, pin: bool)
    requires Inv(st) && Maps(st, own, m) && k !in m
    ensures var t := Add(st, slot, k, pin);
            Inv(t) && Maps(t, own, m[k := slot]) && Size(t) == Size(st) + 1 && Capacity(t) == Capacity(st) + 1
  {
    hide Inv;
    if pin {
      AddPinnedKeeps(st, own, m, slot, k);
    } else {
      AddIdleKeeps(st, own, m, slot, k);
    }
  }

  lemma RefreshKeeps<S, K>(st: State<S, K>, own: set<S>, m: map<K, S>, i: nat)
    requires Inv(st) && i < |st.lru|
    ensures Inv(Refresh(st, i)) && (Maps(st, own, m) ==> Maps(Refresh(st, i), own, m))
  {
    HasRemove(st.lru, i);
    HasAppend(RemoveAt(st.lru, i), st.lru[i]);
  }

  lemma PinIdleKeeps<S, K>(st: State<S, K>, own: set<S>, m: map<K, S>, i: nat)
    requires Inv(st) && i < |st.lru|
    ensures var k := st.lru[i].key;
            var t := st.(lru := RemoveAt(st.lru, i), inUse := st.inUse + [st.lru[i].(refs := 2)]);
            Pin(st, k) == t && Inv(t) && (Maps(st, own, m) ==> Maps(t, own, m))
  {
    FindIs(st.lru, i);
    HasRemove(st.lru, i);
    HasAppend(st.inUse, st.lru[i].(refs := 2));
  }

  lemma RepinKeeps<S, K>(st: State<S, K>, own: set<S>, m: map<K, S>, j: nat, n: nat)
    requires Inv(st) && j < |st.inUse| && n >= 2
    ensures var k := st.inUse[j].key;
            var t := st.(inUse := st.inUse[j := st.inUse[j].(refs := n)]);
            && Inv(t) && (Maps(st, own, m) ==> Maps(t, own, m))
            && (n == st.inUse[j].refs + 1 ==> Pin(st, k) == t)
            && (n == st.inUse[j].refs - 1 ==> Release(st, k) == t)
  {
    FindIs(st.inUse, j);
    HasUpdate(st.inUse, j, st.inUse[j].(refs := n));
  }

  lemma LastReleaseKeeps<S, K>(st: State<S, K>, own: set<S>, m: map<K, S>, j: nat)
    requires Inv(st) && j < |st.inUse|
    ensures var k := st.inUse[j].key;
            var t := st.(inUse := RemoveAt(st.inUse, j), lru := st.lru + [st.inUse[j].(refs := 1)]);
            Inv(t) && (Maps(st, own, m) ==> Maps(t, own, m)) && (st.inUse[j].refs == 2 ==> Release(st, k) == t)
  {
    FindIs(st.inUse, j);
    HasRemove(st.inUse, j);
    HasAppend(st.lru, st.inUse[j].(refs := 1));
  }

  lemma ReleasedKeeps<S, K>(st: State<S, K>, own: set<S>, m: map<K, S>, j: nat)
    requires Inv(st) && Maps(st, own, m) && j < |st.inUse| && st.inUse[j].refs > 1
    ensures var t := Released(st, j);
            && Release(st, st.inUse[j].key) == t
            && Inv(t) && Maps(t, own, m) && Size(t) == Size(st) && Capacity(t) == Capacity(st)
  {
    hide Inv, Maps, Find, Release;
    if st.inUse[j].refs == 2 {
      LastReleaseKeeps(st, own, m, j);
    } else {
      RepinKeeps(st, own, m, j, st.inUse[j].refs - 1);
    }
  }

  lemma EraseMisses<S, K>(st: State<S, K>, k: K)
    requires !Idle(st, k)
    ensures Erase(st, k) == st
  {
  }

  lemma EraseKeeps<S, K>(st: State<S, K>, own: set<S>, m: map<K, S>, i: nat)
    requires Inv(st) && i < |st.lru|
    ensures var k := st.lru[i].key;
            var t := st.(lru := RemoveAt(st.lru, i), erased := st.erased + [st.lru[i].slot]);
            Erase(st, k) == t && Inv(t) && (Maps(st, own, m) ==> Maps(t, own, m - {k}))
  {
    FindIs(st.lru, i);
    HasRemove(st.lru, i);
  }

  lemma RefreshNewest<S, K>(st: State<S, K>, i: nat)
    requires i < |st.lru| && i + 1 == |st.lru|
    ensures Refresh(st, i) == st
  {
    assert RemoveAt(st.lru, i) + [st.lru[i]] == st.lru;
  }

  lemma AppendThenUpdate<S, K>(s: seq<Entry<S, K>>, e: Entry<S, K>, n: nat)
    ensures (s + [e])[|s| := e.(refs := n)] == s + [e.(refs := n)]
  {
  }

  lemma UpdateThenRemove<S, K>(s: seq<Entry<S, K>>, j: nat, e: Entry<S, K>)
    requires j < |s|
    ensures RemoveAt(s[j := e], j) == RemoveAt(s, j)
  {
  }
}
