/**
 * Where each operation of the LRU cache puts keys and slots, entry by entry: the order of the
 * unpinned keys, the slot each key occupies, and the slots held in reserve.
 */
module LruOrder {
  import opened Seqs
  import opened LruSpec
  import opened LruTheorems
  import Refines = LruRefines

  // --- the order of the unpinned keys ---

  /** The entries of other keys. */
  function Rest<S, K(==)>(s: seq<Entry<S, K>>, k: K): seq<Entry<S, K>> {
    if Has(s, k) then RemoveAt(s, Find(s, k)) else s
  }

  function Others<S, K(==)>(st: State<S, K>, op: Op<S, K>): seq<Entry<S, K>> {
    if OnKey(op) then Rest(st.lru, op.key) else st.lru
  }

  /** The slot a key occupies. */
  function PlaceOf<S, K(==)>(st: State<S, K>, k: K): S
    requires Present(st, k)
  {
    if Idle(st, k) then st.lru[Find(st.lru, k)].slot else st.inUse[Find(st.inUse, k)].slot
  }

  /** The operation needs a slot, and only an unpinned key can provide it. */
  predicate Evicts<S, K(==)>(st: State<S, K>, op: Op<S, K>) {
    (op.DoPreempt? || (op.DoInsert? && !Present(st, op.key))) && st.free == [] && st.lru != []
  }

  /** The operation leaves its own key unpinned. */
  predicate EndsIdle<S, K(==)>(st: State<S, K>, op: Op<S, K>) {
    match op
    case DoInsert(k, pin) => !pin && (if Present(st, k) then Idle(st, k) else st.free != [] || st.lru != [])
    case DoLookup(k, pin) => !pin && Idle(st, k)
    case DoRelease(k) => Pins(st, k) == 1
    case DoInstall(_, _) => true
    case _ => false
  }

  /** The operation brings its key into the cache. */
  predicate Admits<S, K(==)>(st: State<S, K>, op: Op<S, K>) {
    op.DoInstall? || (op.DoInsert? && !Present(st, op.key) && (st.free != [] || st.lru != []))
  }

  /** The slot it then gets. */
  function Granted<S, K(==)>(st: State<S, K>, op: Op<S, K>): S
    requires Admits(st, op)
  {
    if op.DoInstall? then if st.erased != [] then st.erased[0] else op.spare
    else if st.free != [] then st.free[0] else st.lru[0].slot
  }

  /** The slot the operation's own key ends up in. */
  function Place<S, K(==)>(st: State<S, K>, op: Op<S, K>): S
    requires Admits(st, op) || (OnKey(op) && Present(st, op.key))
  {
    if Admits(st, op) then Granted(st, op) else PlaceOf(st, op.key)
  }

  /** An installed key is the newest; nothing else changes but the slot it takes. */
  lemma InstallIsNewest<S, K>(st: State<S, K>, k: K, spare: S)
    ensures var t := Install(st, k, spare);
            && t.lru == st.lru + [Entry(if st.erased != [] then st.erased[0] else spare, k, 1)]
            && KeysOf(t.lru) == KeysOf(st.lru) + [k]
            && t.inUse == st.inUse && t.free == st.free
            && t.erased == if st.erased != [] then st.erased[1..] else []
  {
    Refines.KeysOfAppend(st.lru, Entry(if st.erased != [] then st.erased[0] else spare, k, 1));
    assert st.erased != [] ==> RemoveAt(st.erased, 0) == st.erased[1..];
  }

  /** A pinned insertion costs the list of unpinned keys at most its oldest, and moves none. */
  lemma PinnedInsertKeepsOrder<S, K>(st: State<S, K>, k: K)
    requires !Present(st, k)
    ensures KeysOf(Insert(st, k, true).lru)
         == if st.free == [] && st.lru != [] then KeysOf(st.lru)[1..] else KeysOf(st.lru)
  {
    hide KeysOf;
    if st.free == [] && st.lru != [] {
      Refines.KeysOfRemove(st.lru, 0);
    }
  }

  lemma InsertOrder<S, K>(st: State<S, K>, k: K, pin: bool)
    requires !Present(st, k)
    ensures var t := Insert(st, k, pin);
            if st.free == [] && st.lru == [] then t == st
            else
              var slot := if st.free != [] then st.free[0] else st.lru[0].slot;
              && t.free == (if st.free != [] then st.free[1..] else []) && t.erased == st.erased
              && t.lru == st.lru[if st.free == [] then 1 else 0..] + (if pin then [] else [Entry(slot, k, 1)])
              && t.inUse == st.inUse + if pin then [Entry(slot, k, 2)] else []
  {
    assert st.lru[0..] == st.lru;
  }

  lemma LookupOrder<S, K>(st: State<S, K>, k: K, pin: bool)
    requires Inv(st)
    ensures Lookup(st, k, pin).lru
         == Rest(st.lru, k) + if !pin && Idle(st, k) then [Entry(PlaceOf(st, k), k, 1)] else []
    ensures Lookup(st, k, pin).free == st.free && Lookup(st, k, pin).erased == st.erased
  {
    RefsOf(st);
    assert Rest(st.lru, k) + [] == Rest(st.lru, k);
  }

  lemma ReleaseOrder<S, K(!new)>(st: State<S, K>, k: K)
    requires Inv(st) && Pinned(st, k)
    ensures Release(st, k).lru
         == Rest(st.lru, k) + if Pins(st, k) == 1 then [Entry(PlaceOf(st, k), k, 1)] else []
  {
    LastReleaseIsNewest(st, k);
    hide Find;
    assert Rest(st.lru, k) + [] == Rest(st.lru, k);
  }

  /**
   * For every operation: the unpinned keys other than its own keep their entries and their
   * order, except that the oldest goes when a slot is needed and none is free; its own key, if
   * it ends up unpinned, is the newest.
   */
  lemma StepOrder<S, K(!new)>(st: State<S, K>, op: Op<S, K>)
    requires Inv(st) && Legal(st, op)
    ensures EndsIdle(st, op) ==> OnKey(op) && (Admits(st, op) || Present(st, op.key))
    ensures Evicts(st, op) ==> Others(st, op) == st.lru != []
    ensures Step(st, op).lru
         == Others(st, op)[if Evicts(st, op) then 1 else 0..]
            + if EndsIdle(st, op) then [Entry(Place(st, op), op.key, 1)] else []
  {
    hide Inv, Find, Insert, Lookup, Release, Install, AllSlots, Pins, Capacity;
    assert Others(st, op)[0..] == Others(st, op);
    match op
    case DoInsert(k, pin) =>
      if Present(st, k) {
        InsertIsLookup(st, k, pin);
        LookupOrder(st, k, pin);
      } else {
        InsertOrder(st, k, pin);
      }
    case DoLookup(k, pin) => LookupOrder(st, k, pin);
    case DoPin(k) =>
      PinIsLookup(st, k);
      LookupOrder(st, k, true);
    case DoRelease(k) =>
      PinnedHere(st, k);
      ReleaseOrder(st, k);
    case DoErase(k) => assert Rest(st.lru, k) + [] == Rest(st.lru, k);
    case DoInstall(k, spare) => InstallIsNewest(st, k, spare);
    case DoPreempt => assert st.lru + [] == st.lru;
    case DoAssign(_) =>
  }

  lemma InsertIsLookup<S, K>(st: State<S, K>, k: K, pin: bool)
    requires Present(st, k)
    ensures Insert(st, k, pin) == Lookup(st, k, pin)
  {
  }

  lemma PinnedHere<S, K>(st: State<S, K>, k: K)
    requires Pinned(st, k)
    ensures Present(st, k)
  {
  }

  // --- eviction over whole runs ---

  /**
   * When `k` was last used: the number of operations up to and including its last one, or its
   * old place in the list, counted back from zero.
   */
  function LastUse<S, K(==)>(st: State<S, K>, ops: seq<Op<S, K>>, k: K): (n: int)
    ensures n <= |ops|
  {
    if ops == [] then Find(st.lru, k) - |st.lru|
    else
      var op := ops[|ops| - 1];
      if OnKey(op) && op.key == k then |ops| else LastUse(st, ops[..|ops| - 1], k)
  }

  ghost predicate Ordered<S, K(!new)>(st: State<S, K>, ops: seq<Op<S, K>>, s: seq<Entry<S, K>>) {
    forall i, j :: 0 <= i < j < |s| ==> LastUse(st, ops, s[i].key) < LastUse(st, ops, s[j].key)
  }

  lemma RestKeys<S, K>(s: seq<Entry<S, K>>, k: K)
    requires KeysDistinct(s)
    ensures forall i :: 0 <= i < |Rest(s, k)| ==> Rest(s, k)[i].key != k
  {
    hide Find;
  }

  lemma RestOrdered<S, K(!new)>(st: State<S, K>, ops: seq<Op<S, K>>, s: seq<Entry<S, K>>, k: K)
    requires Ordered(st, ops, s)
    ensures Ordered(st, ops, Rest(s, k))
  {
    hide LastUse, Find;
    var r := Rest(s, k);
    forall i, j | 0 <= i < j < |r|
      ensures LastUse(st, ops, r[i].key) < LastUse(st, ops, r[j].key)
    {
      if Has(s, k) {
        var n := Find(s, k);
        assert r[i] == s[if i < n then i else i + 1] && r[j] == s[if j < n then j else j + 1];
      }
    }
  }

  /** Entries of other keys keep their times; the operation's own key gets the latest of all. */
  lemma OrderedNext<S, K(!new)>(
    st: State<S, K>, ops: seq<Op<S, K>>, op: Op<S, K>, s: seq<Entry<S, K>>, n: nat, last: seq<Entry<S, K>>)
    requires Ordered(st, ops, s) && n <= |s| && |last| <= 1
    requires OnKey(op) ==> forall i :: 0 <= i < |s| ==> s[i].key != op.key
    requires last != [] ==> OnKey(op) && last[0].key == op.key
    ensures Ordered(st, ops + [op], s[n..] + last)
  {
    var t := s[n..] + last;
    assert (ops + [op])[..|ops|] == ops;
    forall i, j | 0 <= i < j < |t|
      ensures LastUse(st, ops + [op], t[i].key) < LastUse(st, ops + [op], t[j].key)
    {
      assert t[i] == s[i + n];
      assert j < |s| - n ==> t[j] == s[j + n];
      assert j >= |s| - n ==> t[j] == last[0];
    }
  }

  lemma IdleKeysDistinct<S, K>(st: State<S, K>)
    requires Inv(st)
    ensures KeysDistinct(st.lru)
  {
  }

  lemma StepOrdered<S, K(!new)>(st: State<S, K>, ops: seq<Op<S, K>>, t: State<S, K>, op: Op<S, K>)
    requires Inv(t) && Legal(t, op) && Ordered(st, ops, t.lru)
    ensures Ordered(st, ops + [op], Step(t, op).lru)
  {
    hide Inv, Find, Step, LastUse, Ordered, Legal, Rest, Evicts, EndsIdle, Admits, Present, KeysDistinct, Place;
    StepOrder(t, op);
    IdleKeysDistinct(t);
    if OnKey(op) {
      RestKeys(t.lru, op.key);
      RestOrdered(st, ops, t.lru, op.key);
    }
    OrderedNext(st, ops, op, Others(t, op), if Evicts(t, op) then 1 else 0,
                if EndsIdle(t, op) then [Entry(Place(t, op), op.key, 1)] else []);
  }

  /**
   * After any legal run, from any state, whatever is pinned and whichever slots come and go: the
   * unpinned keys stand in the order of their last use.
   */
  lemma {:induction false} RunOrder<S, K(!new)>(st: State<S, K>, ops: seq<Op<S, K>>)
    requires Inv(st) && LegalRun(st, ops)
    ensures Inv(Run(st, ops)) && Ordered(st, ops, Run(st, ops).lru)
  {
    hide Inv, Step, Legal;
    if ops == [] {
      StartsOrdered(st);
    } else {
      var before, op := ops[..|ops| - 1], ops[|ops| - 1];
      RunOrder(st, before);
      StepKeepsInv(Run(st, before), op);
      StepOrdered(st, before, Run(st, before), op);
      assert before + [op] == ops;
    }
  }

  lemma StartsOrdered<S, K(!new)>(st: State<S, K>)
    requires Inv(st)
    ensures Ordered(st, [], st.lru)
  {
    hide Find;
    forall i | 0 <= i < |st.lru|
      ensures LastUse(st, [], st.lru[i].key) == i - |st.lru|
    {
      FindIs(st.lru, i);
    }
  }

  /** So whatever an operation evicts, at any point of any run, is the unpinned key unused for longest. */
  lemma VictimIsLeastRecent<S, K(!new)>(st: State<S, K>, ops: seq<Op<S, K>>, op: Op<S, K>, x: K)
    requires Inv(st) && LegalRun(st, ops + [op]) && Evicts(Run(st, ops), op)
    ensures var t, r := Run(st, ops), Run(st, ops + [op]);
            var victim := t.lru[0].key;
            && Idle(t, victim) && !Present(r, victim)
            && (Idle(t, x) && x != victim ==> LastUse(st, ops, victim) < LastUse(st, ops, x) && Present(r, x))
  {
    hide LastUse, Inv;
    var t := Run(st, ops);
    assert (ops + [op])[..|ops|] == ops;
    RunOrder(st, ops);
    EvictionCost(t, op, x);
    IdleKeysDistinct(t);
    FindIs(t.lru, 0);
  }

  lemma EvictionCost<S, K(!new)>(t: State<S, K>, op: Op<S, K>, x: K)
    requires Inv(t) && Evicts(t, op)
    ensures !Present(Step(t, op), t.lru[0].key)
    ensures Idle(t, x) && x != t.lru[0].key ==> Present(Step(t, op), x)
  {
    hide Inv, Find, Insert, Preempt;
    if op.DoInsert? {
      InsertCostsOldest(t, op.key, op.pin);
      FirstPresent(t);
    } else {
      PreemptKeys(t);
    }
  }

  lemma FirstPresent<S, K>(t: State<S, K>)
    requires t.lru != []
    ensures Present(t, t.lru[0].key)
  {
  }

  // --- who occupies which slot ---

  ghost predicate In<S, K>(s: seq<Entry<S, K>>, k: K, slot: S) {
    exists i :: 0 <= i < |s| && s[i].key == k && s[i].slot == slot
  }

  /** `k` is held, pinned or not, in `slot`. */
  ghost predicate Occupies<S, K>(st: State<S, K>, k: K, slot: S) {
    In(st.lru, k, slot) || In(st.inUse, k, slot)
  }

  lemma InAppend<S, K>(s: seq<Entry<S, K>>, e: Entry<S, K>)
    ensures forall k, x :: In(s + [e], k, x) <==> In(s, k, x) || (k == e.key && x == e.slot)
  {
    forall k, x
      ensures In(s + [e], k, x) <==> In(s, k, x) || (k == e.key && x == e.slot)
    {
      var t := s + [e];
      assert t[|s|] == e;
      if i :| 0 <= i < |s| && s[i].key == k && s[i].slot == x {
        assert t[i].key == k && t[i].slot == x;
      }
    }
  }

  lemma InRemove<S, K>(s: seq<Entry<S, K>>, n: nat)
    requires KeysDistinct(s) && n < |s|
    ensures forall k, x :: In(RemoveAt(s, n), k, x) <==> In(s, k, x) && k != s[n].key
  {
    forall k, x
      ensures In(RemoveAt(s, n), k, x) <==> In(s, k, x) && k != s[n].key
    {
      var r := RemoveAt(s, n);
      if i :| 0 <= i < |s| && s[i].key == k && s[i].slot == x && k != s[n].key {
        assert r[if i < n then i else i - 1] == s[i];
      }
      if i :| 0 <= i < |r| && r[i].key == k && r[i].slot == x {
        assert s[if i < n then i else i + 1] == r[i];
      }
    }
  }

  lemma InUpdate<S, K>(s: seq<Entry<S, K>>, n: nat, refs: nat)
    requires n < |s|
    ensures forall k, x :: In(s[n := s[n].(refs := refs)], k, x) <==> In(s, k, x)
  {
    forall k, x
      ensures In(s[n := s[n].(refs := refs)], k, x) <==> In(s, k, x)
    {
      var t := s[n := s[n].(refs := refs)];
      if i :| 0 <= i < |s| && s[i].key == k && s[i].slot == x {
        assert t[i].key == k && t[i].slot == x;
      }
      if i :| 0 <= i < |t| && t[i].key == k && t[i].slot == x {
        assert s[i].key == k && s[i].slot == x;
      }
    }
  }

  lemma InAt<S, K>(s: seq<Entry<S, K>>, n: nat)
    requires KeysDistinct(s) && n < |s|
    ensures forall x :: In(s, s[n].key, x) <==> x == s[n].slot
  {
  }

  lemma BothDistinct<S, K>(st: State<S, K>)
    requires Inv(st)
    ensures KeysDistinct(st.lru) && KeysDistinct(st.inUse)
  {
  }

  lemma PinPlaces<S, K>(st: State<S, K>, k: K)
    requires Inv(st)
    ensures forall x, slot :: Occupies(Pin(st, k), x, slot) <==> Occupies(st, x, slot)
  {
    hide Inv, In, Find, KeysDistinct;
    var i, j := Find(st.lru, k), Find(st.inUse, k);
    BothDistinct(st);
    if i < |st.lru| {
      InRemove(st.lru, i);
      InAppend(st.inUse, st.lru[i].(refs := 2));
      InAt(st.lru, i);
    } else if j < |st.inUse| {
      InUpdate(st.inUse, j, st.inUse[j].refs + 1);
    }
  }

  lemma LookupPlaces<S, K>(st: State<S, K>, k: K, pin: bool)
    requires Inv(st)
    ensures forall x, slot :: Occupies(Lookup(st, k, pin), x, slot) <==> Occupies(st, x, slot)
  {
    hide Inv, In, Find, KeysDistinct, Pin;
    PinPlaces(st, k);
    if !pin && Idle(st, k) {
      var i := Find(st.lru, k);
      BothDistinct(st);
      InRemove(st.lru, i);
      InAppend(RemoveAt(st.lru, i), st.lru[i]);
      InAt(st.lru, i);
    }
  }

  lemma ReleasePlaces<S, K>(st: State<S, K>, k: K)
    requires Inv(st)
    ensures forall x, slot :: Occupies(Release(st, k), x, slot) <==> Occupies(st, x, slot)
  {
    hide Inv, In, Find, KeysDistinct;
    var j := Find(st.inUse, k);
    BothDistinct(st);
    if j < |st.inUse| && st.inUse[j].refs >= 2 {
      InRemove(st.inUse, j);
      InAppend(st.lru, st.inUse[j].(refs := 1));
      InAt(st.inUse, j);
      InUpdate(st.inUse, j, st.inUse[j].refs - 1);
    }
  }

  lemma InsertPlaces<S, K>(st: State<S, K>, k: K, pin: bool)
    requires Inv(st) && !Present(st, k) && (st.free != [] || st.lru != [])
    ensures var slot := if st.free != [] then st.free[0] else st.lru[0].slot;
            forall x, p :: Occupies(Insert(st, k, pin), x, p) <==>
              (x == k && p == slot) || (Occupies(st, x, p) && (st.free != [] || x != st.lru[0].key))
  {
    hide Inv, In, Find, KeysDistinct, Insert, Present;
    var slot := if st.free != [] then st.free[0] else st.lru[0].slot;
    InsertOrder(st, k, pin);
    BothDistinct(st);
    var rest := if st.free != [] then st.lru else RemoveAt(st.lru, 0);
    assert rest == st.lru[if st.free == [] then 1 else 0..] && rest + [] == rest && st.inUse + [] == st.inUse;
    InAppend(rest, Entry(slot, k, 1));
    InAppend(st.inUse, Entry(slot, k, 2));
    if st.free == [] {
      InRemove(st.lru, 0);
      FirstNotPinned(st);
    }
  }

  lemma FirstNotPinned<S, K>(st: State<S, K>)
    requires Inv(st) && st.lru != []
    ensures forall p :: !In(st.inUse, st.lru[0].key, p)
  {
    assert !Has(st.inUse, st.lru[0].key);
    NotHas(st.inUse, st.lru[0].key);
  }

  lemma NotHas<S, K>(s: seq<Entry<S, K>>, k: K)
    requires !Has(s, k)
    ensures forall p :: !In(s, k, p)
  {
  }

  lemma ErasePlaces<S, K>(st: State<S, K>, k: K)
    requires Inv(st)
    ensures forall x, p :: Occupies(Erase(st, k), x, p) <==> Occupies(st, x, p) && !(x == k && Idle(st, k))
  {
    hide In;
    var i := Find(st.lru, k);
    if i < |st.lru| {
      InRemove(st.lru, i);
      NotHas(st.inUse, k);
    }
  }

  lemma PreemptPlaces<S, K>(st: State<S, K>)
    requires Inv(st)
    ensures forall x, p :: Occupies(Preempt(st), x, p) <==>
              Occupies(st, x, p) && !(st.free == [] && st.lru != [] && x == st.lru[0].key)
  {
    hide In;
    if st.free == [] && st.lru != [] {
      InRemove(st.lru, 0);
      FirstNotPinned(st);
    }
  }

  /** The key an operation removes from the cache, if any. */
  ghost predicate Loses<S, K>(st: State<S, K>, op: Op<S, K>, k: K) {
    (Evicts(st, op) && k == st.lru[0].key) || (op.DoErase? && k == op.key && Idle(st, k))
  }

  /**
   * No operation ever moves a key to another slot: exactly the victim or the erased key leaves
   * its slot, and exactly a key brought in enters one, the oldest of those it may take.
   */
  lemma StepPlaces<S, K(!new)>(st: State<S, K>, op: Op<S, K>)
    requires Inv(st) && Legal(st, op)
    ensures forall k, p :: Occupies(Step(st, op), k, p) <==>
              (Admits(st, op) && k == op.key && p == Granted(st, op)) || (Occupies(st, k, p) && !Loses(st, op, k))
  {
    hide Inv, Occupies, Insert, Lookup, Pin, Release, Install, Erase, Preempt, Present, Idle, AllSlots, Capacity;
    match op
    case DoInsert(k, pin) =>
      if Present(st, k) {
        InsertIsLookup(st, k, pin);
        LookupPlaces(st, k, pin);
      } else if st.free == [] && st.lru == [] {
        InsertOrder(st, k, pin);
      } else {
        InsertPlaces(st, k, pin);
      }
    case DoLookup(k, pin) => LookupPlaces(st, k, pin);
    case DoPin(k) => PinPlaces(st, k);
    case DoRelease(k) => ReleasePlaces(st, k);
    case DoErase(k) => ErasePlaces(st, k);
    case DoInstall(k, spare) => InstallPlaces(st, k, spare);
    case DoPreempt => PreemptPlaces(st);
    case DoAssign(spare) => AssignPlaces(st, spare);
  }

  /** Neither evicted nor erased at any point of the run. */
  ghost predicate NeverLost<S, K>(st: State<S, K>, ops: seq<Op<S, K>>, k: K) {
    ops == [] || (var n := |ops| - 1; NeverLost(st, ops[..n], k) && !Loses(Run(st, ops[..n]), ops[n], k))
  }

  /** A key that is never lost is still in the slot it was in, pinned or not: its value stays its own. */
  lemma {:induction false} RunPlaces<S, K(!new)>(st: State<S, K>, ops: seq<Op<S, K>>, k: K, p: S)
    requires Inv(st) && LegalRun(st, ops) && Occupies(st, k, p) && NeverLost(st, ops, k)
    ensures Inv(Run(st, ops)) && Occupies(Run(st, ops), k, p)
  {
    hide Inv, Step, Legal, Occupies, Loses;
    if ops != [] {
      var n := |ops| - 1;
      RunPlaces(st, ops[..n], k, p);
      StepKeepsInv(Run(st, ops[..n]), ops[n]);
      StepPlaces(Run(st, ops[..n]), ops[n]);
    }
  }

  lemma InstallPlaces<S, K>(st: State<S, K>, k: K, spare: S)
    ensures var slot := if st.erased != [] then st.erased[0] else spare;
            forall x, p :: Occupies(Install(st, k, spare), x, p) <==> Occupies(st, x, p) || (x == k && p == slot)
  {
    hide In, Install;
    InstallIsNewest(st, k, spare);
    InAppend(st.lru, Entry(if st.erased != [] then st.erased[0] else spare, k, 1));
  }

  lemma AssignPlaces<S, K>(st: State<S, K>, spare: S)
    ensures forall x, p :: Occupies(Assign(st, spare), x, p) <==> Occupies(st, x, p)
  {
  }

  // --- the reserves ---

  /**
   * The free and the erased slots are two queues: an operation that needs a slot takes the
   * oldest free one, an installation the oldest erased one; a slot received joins the first at
   * its end, an erased key's slot the second.
   */
  lemma StepReserves<S, K(!new)>(st: State<S, K>, op: Op<S, K>)
    requires Inv(st) && Legal(st, op)
    ensures Step(st, op).free
         == if op.DoAssign? then st.free + [op.spare]
            else if st.free != [] && (op.DoPreempt? || (op.DoInsert? && !Present(st, op.key))) then st.free[1..]
            else st.free
    ensures Step(st, op).erased
         == if op.DoErase? && Idle(st, op.key) then st.erased + [PlaceOf(st, op.key)]
            else if op.DoInstall? && st.erased != [] then st.erased[1..]
            else st.erased
  {
    hide Inv, Find, Insert, Lookup, Install, AllSlots, Capacity;
    match op
    case DoInsert(k, pin) =>
      if Present(st, k) {
        InsertIsLookup(st, k, pin);
        LookupOrder(st, k, pin);
      } else {
        InsertOrder(st, k, pin);
      }
    case DoLookup(k, pin) => LookupOrder(st, k, pin);
    case DoPin(k) =>
    case DoRelease(k) =>
    case DoErase(k) =>
    case DoInstall(k, spare) => InstallIsNewest(st, k, spare);
    case DoPreempt =>
    case DoAssign(_) =>
  }
}
