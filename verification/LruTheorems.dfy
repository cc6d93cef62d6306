/** What whole runs of the LRU cache with pins keep: slots, pins and recency. */
module LruTheorems {
  import opened Seqs
  import opened LruSpec

  datatype Op<S, K> =
    | DoInsert(key: K, pin: bool)
    | DoLookup(key: K, pin: bool)
    | DoPin(key: K)
    | DoRelease(key: K)
    | DoErase(key: K)
    | DoInstall(key: K, spare: S)
    | DoPreempt
    | DoAssign(spare: S)

  predicate OnKey<S, K>(op: Op<S, K>) {
    !op.DoPreempt? && !op.DoAssign?
  }

  /** What the library leaves to its callers. */
  ghost predicate Legal<S, K>(st: State<S, K>, op: Op<S, K>) {
    match op
    case DoInsert(_, _) => Capacity(st) > 0
    case DoLookup(_, _) => true
    case DoPin(k) => Present(st, k)
    case DoRelease(k) => Pinned(st, k)
    case DoErase(k) => Present(st, k)
    case DoInstall(k, spare) => !Present(st, k) && (st.erased == [] ==> AllSlots(st)[spare] == 0)
    case DoPreempt => true
    case DoAssign(spare) => AllSlots(st)[spare] == 0
  }

  function Step<S, K(==)>(st: State<S, K>, op: Op<S, K>): State<S, K> {
    match op
    case DoInsert(k, pin) => Insert(st, k, pin)
    case DoLookup(k, pin) => Lookup(st, k, pin)
    case DoPin(k) => Pin(st, k)
    case DoRelease(k) => Release(st, k)
    case DoErase(k) => Erase(st, k)
    case DoInstall(k, spare) => Install(st, k, spare)
    case DoPreempt => Preempt(st)
    case DoAssign(spare) => Assign(st, spare)
  }

  function Run<S, K(==)>(st: State<S, K>, ops: seq<Op<S, K>>): State<S, K> {
    if ops == [] then st else Step(Run(st, ops[..|ops| - 1]), ops[|ops| - 1])
  }

  ghost predicate LegalRun<S, K>(st: State<S, K>, ops: seq<Op<S, K>>) {
    ops == [] || (LegalRun(st, ops[..|ops| - 1]) && Legal(Run(st, ops[..|ops| - 1]), ops[|ops| - 1]))
  }

  // --- slots are neither lost nor duplicated ---

  function SlotBag<S, K>(s: seq<Entry<S, K>>): multiset<S> {
    if s == [] then multiset{} else SlotBag(s[..|s| - 1]) + multiset{s[|s| - 1].slot}
  }

  function AllSlots<S, K>(st: State<S, K>): multiset<S> {
    SlotBag(st.lru) + SlotBag(st.inUse) + multiset(st.free) + multiset(st.erased)
  }

  /** No two entries share a slot, and no slot in use is also free or erased. */
  ghost predicate SlotsDistinct<S, K>(st: State<S, K>) {
    forall s :: s in AllSlots(st) ==> AllSlots(st)[s] == 1
  }

  lemma BagAppend<S, K>(s: seq<Entry<S, K>>, e: Entry<S, K>)
    ensures SlotBag(s + [e]) == SlotBag(s) + multiset{e.slot}
  {
    assert (s + [e])[..|s|] == s;
  }

  lemma BagEmpty<S, K>(s: seq<Entry<S, K>>)
    requires s == []
    ensures SlotBag(s) == multiset{}
  {
  }

  lemma {:induction false} BagConcat<S, K>(s: seq<Entry<S, K>>, t: seq<Entry<S, K>>)
    ensures SlotBag(s + t) == SlotBag(s) + SlotBag(t)
    decreases |t|
  {
    hide SlotBag;
    if t == [] {
      BagEmpty(t);
      assert s + t == s;
    } else {
      var u, e := t[..|t| - 1], t[|t| - 1];
      BagConcat(s, u);
      assert t == u + [e] && s + t == (s + u) + [e];
      BagAppend(u, e);
      BagAppend(s + u, e);
    }
  }

  lemma BagRemove<S, K>(s: seq<Entry<S, K>>, i: nat)
    requires i < |s|
    ensures SlotBag(s) == SlotBag(RemoveAt(s, i)) + multiset{s[i].slot}
  {
    hide SlotBag;
    var a, b := s[..i], s[i + 1..];
    SplitAt(s, i);
    BagConcat(a + [s[i]], b);
    BagAppend(a, s[i]);
    BagConcat(a, b);
  }

  lemma SplitAt<E>(s: seq<E>, i: nat)
    requires i < |s|
    ensures s == (s[..i] + [s[i]]) + s[i + 1..]
    ensures RemoveAt(s, i) == s[..i] + s[i + 1..]
  {
  }

  lemma BagUpdate<S, K>(s: seq<Entry<S, K>>, i: nat, e: Entry<S, K>)
    requires i < |s| && e.slot == s[i].slot
    ensures SlotBag(s[i := e]) == SlotBag(s)
  {
    hide SlotBag;
    BagRemove(s, i);
    BagRemove(s[i := e], i);
    assert RemoveAt(s[i := e], i) == RemoveAt(s, i);
  }

  lemma RemoveFirst<S>(s: seq<S>)
    requires s != []
    ensures multiset(s) == multiset(RemoveAt(s, 0)) + multiset{s[0]}
  {
    assert s == [s[0]] + RemoveAt(s, 0);
  }

  lemma AddAllocated<S, K>(st: State<S, K>, k: K, pin: bool)
    requires !Full(st)
    ensures AllSlots(Add(Alloc(st), NextSlot(st), k, pin)) == AllSlots(st)
  {
    hide SlotBag;
    var a := Alloc(st);
    if st.free != [] {
      RemoveFirst(st.free);
    } else {
      BagRemove(st.lru, 0);
    }
    BagAppend(a.lru, Entry(NextSlot(st), k, 1));
    BagAppend(a.inUse, Entry(NextSlot(st), k, 2));
  }

  lemma PinSlots<S, K>(st: State<S, K>, k: K)
    ensures AllSlots(Pin(st, k)) == AllSlots(st)
  {
    hide SlotBag;
    var i, j := Find(st.lru, k), Find(st.inUse, k);
    if i < |st.lru| {
      BagRemove(st.lru, i);
      BagAppend(st.inUse, st.lru[i].(refs := 2));
    } else if j < |st.inUse| {
      BagUpdate(st.inUse, j, st.inUse[j].(refs := st.inUse[j].refs + 1));
    }
  }

  lemma LookupSlots<S, K>(st: State<S, K>, k: K, pin: bool)
    ensures AllSlots(Lookup(st, k, pin)) == AllSlots(st)
  {
    hide SlotBag;
    PinSlots(st, k);
    var i := Find(st.lru, k);
    if i < |st.lru| {
      BagRemove(st.lru, i);
      BagAppend(RemoveAt(st.lru, i), st.lru[i]);
    }
  }

  lemma ReleaseSlots<S, K>(st: State<S, K>, k: K)
    ensures AllSlots(Release(st, k)) == AllSlots(st)
  {
    hide SlotBag;
    var j := Find(st.inUse, k);
    if j < |st.inUse| && st.inUse[j].refs == 2 {
      BagRemove(st.inUse, j);
      BagAppend(st.lru, st.inUse[j].(refs := 1));
    } else if j < |st.inUse| && st.inUse[j].refs > 2 {
      BagUpdate(st.inUse, j, st.inUse[j].(refs := st.inUse[j].refs - 1));
    }
  }

  lemma EraseSlots<S, K>(st: State<S, K>, k: K)
    ensures AllSlots(Erase(st, k)) == AllSlots(st)
  {
    hide SlotBag;
    var i := Find(st.lru, k);
    if i < |st.lru| {
      BagRemove(st.lru, i);
    }
  }

  lemma InstallSlots<S, K>(st: State<S, K>, k: K, spare: S)
    ensures AllSlots(Install(st, k, spare))
         == AllSlots(st) + if st.erased == [] then multiset{spare} else multiset{}
  {
    hide SlotBag;
    if st.erased == [] {
      BagAppend(st.lru, Entry(spare, k, 1));
    } else {
      RemoveFirst(st.erased);
      BagAppend(st.lru, Entry(st.erased[0], k, 1));
    }
  }

  lemma InsertSlots<S, K>(st: State<S, K>, k: K, pin: bool)
    ensures AllSlots(Insert(st, k, pin)) == AllSlots(st)
  {
    hide AllSlots, Lookup, Alloc, Add, NextSlot;
    LookupSlots(st, k, pin);
    if !Full(st) {
      AddAllocated(st, k, pin);
    }
  }

  lemma PreemptSlots<S, K>(st: State<S, K>)
    requires !Full(st)
    ensures AllSlots(st) == AllSlots(Preempt(st)) + multiset{NextSlot(st)}
  {
    hide SlotBag;
    if st.free != [] {
      RemoveFirst(st.free);
    } else {
      BagRemove(st.lru, 0);
    }
  }

  lemma AssignSlots<S, K>(st: State<S, K>, slot: S)
    ensures AllSlots(Assign(st, slot)) == AllSlots(st) + multiset{slot}
  {
  }

  /** The slot an operation gives away for good. */
  function Given<S, K>(st: State<S, K>, op: Op<S, K>): multiset<S> {
    if op.DoPreempt? && !Full(st) then multiset{NextSlot(st)} else multiset{}
  }

  /** The slot an operation receives, or allocates because no erased one can be reused. */
  function Taken<S, K>(st: State<S, K>, op: Op<S, K>): multiset<S> {
    if op.DoAssign? || (op.DoInstall? && st.erased == []) then multiset{op.spare} else multiset{}
  }

  /** No operation loses or duplicates a slot. */
  lemma {:induction false} StepSlots<S, K>(st: State<S, K>, op: Op<S, K>)
    ensures AllSlots(Step(st, op)) + Given(st, op) == AllSlots(st) + Taken(st, op)
  {
    hide AllSlots, Lookup, Pin, Release, Erase, Install, Insert, NextSlot, Full, Preempt, Assign;
    match op
    case DoInsert(k, pin) => InsertSlots(st, k, pin);
    case DoLookup(k, pin) => LookupSlots(st, k, pin);
    case DoPin(k) => PinSlots(st, k);
    case DoRelease(k) => ReleaseSlots(st, k);
    case DoErase(k) => EraseSlots(st, k);
    case DoInstall(k, spare) => InstallSlots(st, k, spare);
    case DoPreempt =>
      if Full(st) {
        FullGivesNothing(st);
      } else {
        PreemptSlots(st);
      }
    case DoAssign(spare) => AssignSlots(st, spare);
  }

  lemma FullGivesNothing<S, K>(st: State<S, K>)
    requires Full(st)
    ensures Preempt(st) == st
  {
  }

  // --- the invariant over runs ---

  lemma LookupKeepsInv<S, K>(st: State<S, K>, k: K, pin: bool)
    requires Inv(st)
    ensures Inv(Lookup(st, k, pin))
  {
    hide Inv;
    var i, j := Find(st.lru, k), Find(st.inUse, k);
    if i < |st.lru| {
      PinIdleKeeps(st, {}, map[], i);
      RefreshKeeps(st, {}, map[], i);
    } else if j < |st.inUse| {
      RepinUp(st, j);
    }
  }

  lemma RepinUp<S, K>(st: State<S, K>, j: nat)
    requires Inv(st) && j < |st.inUse|
    ensures Inv(st.(inUse := st.inUse[j := st.inUse[j].(refs := st.inUse[j].refs + 1)]))
  {
    RepinKeeps(st, {}, map[], j, st.inUse[j].refs + 1);
  }

  lemma InsertAbsentKeepsInv<S, K>(st: State<S, K>, k: K, pin: bool)
    requires Inv(st) && !Present(st, k) && !Full(st)
    ensures Inv(Add(Alloc(st), NextSlot(st), k, pin))
  {
    hide Inv, Add;
    if st.free != [] {
      IdleSlotsIrrelevant(st, {}, map[], RemoveAt(st.free, 0), st.erased);
    } else {
      EvictKeeps(st, {}, map[]);
      EvictedStaysAbsent(st, k);
    }
    AddIdleKeeps(Alloc(st), {}, map[], NextSlot(st), k);
    AddPinnedKeeps(Alloc(st), {}, map[], NextSlot(st), k);
  }

  lemma EvictedStaysAbsent<S, K>(st: State<S, K>, k: K)
    requires Inv(st) && st.lru != [] && !Present(st, k)
    ensures !Present(st.(lru := RemoveAt(st.lru, 0)), k)
  {
    HasRemove(st.lru, 0);
  }

  lemma ReleaseKeepsInv<S, K>(st: State<S, K>, k: K)
    requires Inv(st)
    ensures Inv(Release(st, k))
  {
    var j := Find(st.inUse, k);
    if j < |st.inUse| {
      if st.inUse[j].refs == 2 {
        LastReleaseKeeps(st, {}, map[], j);
      } else {
        RepinKeeps(st, {}, map[], j, st.inUse[j].refs - 1);
      }
    }
  }

  lemma EraseKeepsInv<S, K>(st: State<S, K>, k: K)
    requires Inv(st)
    ensures Inv(Erase(st, k))
  {
    var i := Find(st.lru, k);
    if i < |st.lru| {
      EraseKeeps(st, {}, map[], i);
    }
  }

  lemma InstallKeepsInv<S, K>(st: State<S, K>, k: K, spare: S)
    requires Inv(st) && !Present(st, k)
    ensures Inv(Install(st, k, spare))
  {
    hide Inv;
    if st.erased == [] {
      AddIdleKeeps(st, {}, map[], spare, k);
    } else {
      IdleSlotsIrrelevant(st, {}, map[], st.free, RemoveAt(st.erased, 0));
      AddIdleKeeps(st.(erased := RemoveAt(st.erased, 0)), {}, map[], st.erased[0], k);
    }
  }

  lemma PreemptKeepsInv<S, K>(st: State<S, K>)
    requires Inv(st)
    ensures Inv(Preempt(st))
  {
    hide Inv;
    if st.free != [] {
      IdleSlotsIrrelevant(st, {}, map[], RemoveAt(st.free, 0), st.erased);
    } else if st.lru != [] {
      EvictKeeps(st, {}, map[]);
    }
  }

  lemma StepKeepsInv<S, K>(st: State<S, K>, op: Op<S, K>)
    requires Inv(st) && Legal(st, op)
    ensures Inv(Step(st, op))
  {
    hide Inv, Present, Lookup, Pin, Release, Erase, Install, Add, Alloc, NextSlot, AllSlots, Preempt;
    match op
    case DoInsert(k, pin) =>
      LookupKeepsInv(st, k, pin);
      if !Present(st, k) && !Full(st) {
        InsertAbsentKeepsInv(st, k, pin);
      }
    case DoLookup(k, pin) => LookupKeepsInv(st, k, pin);
    case DoPin(k) => PinKeepsInv(st, k);
    case DoRelease(k) => ReleaseKeepsInv(st, k);
    case DoErase(k) => EraseKeepsInv(st, k);
    case DoInstall(k, spare) => InstallKeepsInv(st, k, spare);
    case DoPreempt => PreemptKeepsInv(st);
    case DoAssign(spare) => IdleSlotsIrrelevant(st, {}, map[], st.free + [spare], st.erased);
  }

  lemma PinKeepsInv<S, K>(st: State<S, K>, k: K)
    requires Inv(st)
    ensures Inv(Pin(st, k))
  {
    hide Inv, Pin;
    LookupKeepsInv(st, k, true);
  }

  /** In every reachable state: keys held once, counts fitting the list, and no slot shared. */
  lemma {:induction false} RunKeepsInv<S, K>(st: State<S, K>, ops: seq<Op<S, K>>)
    requires Inv(st) && SlotsDistinct(st) && LegalRun(st, ops)
    ensures Inv(Run(st, ops)) && SlotsDistinct(Run(st, ops))
  {
    if ops != [] {
      var t, op := Run(st, ops[..|ops| - 1]), ops[|ops| - 1];
      RunKeepsInv(st, ops[..|ops| - 1]);
      StepKeepsInv(t, op);
      SlotsStayDistinct(t, op);
    }
  }

  lemma SlotsStayDistinct<S, K>(t: State<S, K>, op: Op<S, K>)
    requires SlotsDistinct(t) && Legal(t, op)
    ensures SlotsDistinct(Step(t, op))
  {
    StepSlots(t, op);
    hide Step, AllSlots;
    forall s | s in AllSlots(Step(t, op))
      ensures AllSlots(Step(t, op))[s] == 1
    {
      assert AllSlots(t)[s] <= 1;
      assert AllSlots(Step(t, op))[s] <= (AllSlots(t) + Taken(t, op))[s];
    }
  }

  // --- pins ---

  function Pins<S, K(==)>(st: State<S, K>, k: K): nat {
    var j := Find(st.inUse, k);
    if j < |st.inUse| && st.inUse[j].refs > 0 then st.inUse[j].refs - 1 else 0
  }

  /** The slot of a pinned key. */
  function HeldSlot<S, K(==)>(st: State<S, K>, k: K): S
    requires Pinned(st, k)
  {
    st.inUse[Find(st.inUse, k)].slot
  }

  /** What an operation, as its caller sees it return, does to the pins of `k`. */
  function PinChange<S, K(==)>(st: State<S, K>, op: Op<S, K>, k: K): int {
    match op
    case DoInsert(x, pin) => if x == k && pin && (Present(st, k) || !Full(st)) then 1 else 0
    case DoLookup(x, pin) => if x == k && pin && Present(st, k) then 1 else 0
    case DoPin(x) => if x == k then 1 else 0
    case DoRelease(x) => if x == k then -1 else 0
    case DoErase(_) => 0
    case DoInstall(_, _) => 0
    case DoPreempt => 0
    case DoAssign(_) => 0
  }

  lemma EntryAppend<S, K(!new)>(s: seq<Entry<S, K>>, e: Entry<S, K>, k: K)
    ensures Find(s + [e], k) == if Has(s, k) then Find(s, k) else if e.key == k then |s| else |s| + 1
  {
    var t := s + [e];
    var i := Find(t, k);
    assert forall m :: 0 <= m < |s| ==> t[m] == s[m];
    assert t[|s|] == e;
    NotBefore(s, k);
    assert i < |s| ==> s[i].key == k;
  }

  lemma NotBefore<S, K(!new)>(s: seq<Entry<S, K>>, k: K)
    ensures forall m :: 0 <= m < Find(s, k) ==> s[m].key != k
  {
  }

  lemma EntryRemove<S, K(!new)>(s: seq<Entry<S, K>>, i: nat, k: K)
    requires KeysDistinct(s) && i < |s|
    ensures k == s[i].key ==> !Has(RemoveAt(s, i), k)
    ensures k != s[i].key ==> (Has(RemoveAt(s, i), k) <==> Has(s, k))
    ensures k != s[i].key && Has(s, k) ==> RemoveAt(s, i)[Find(RemoveAt(s, i), k)] == s[Find(s, k)]
  {
    hide Find, KeysDistinct, RemoveAt;
    HasRemove(s, i);
    var r := RemoveAt(s, i);
    if k != s[i].key && Has(s, k) {
      var j := Find(s, k);
      var m := Shifted(s, i, j);
      FindIs(r, m);
    }
  }

  lemma Shifted<E>(s: seq<E>, i: nat, j: nat) returns (m: nat)
    requires i < |s| && j < |s| && i != j
    ensures m < |s| - 1 && RemoveAt(s, i)[m] == s[j]
  {
    m := if j < i then j else j - 1;
  }

  lemma EntryUpdate<S, K(!new)>(s: seq<Entry<S, K>>, i: nat, e: Entry<S, K>, k: K)
    requires i < |s| && e.key == s[i].key
    ensures Find(s[i := e], k) == Find(s, k)
  {
    var t := s[i := e];
    assert forall m :: 0 <= m < |s| ==> t[m].key == s[m].key;
    NotBefore(s, k);
    NotBefore(t, k);
  }

  /** `st'` has the pins of `st`, except for `d` more of `k`, and holds pinned keys in place. */
  ghost predicate PinsMove<S, K(!new)>(st: State<S, K>, st': State<S, K>, x: K, d: int) {
    && (forall k :: Pins(st', k) == Pins(st, k) + if k == x then d else 0)
    && (forall k :: Pinned(st, k) && Pinned(st', k) ==> HeldSlot(st', k) == HeldSlot(st, k))
  }

  lemma UnpinnedHasNone<S, K(!new)>(st: State<S, K>, k: K)
    requires Inv(st)
    ensures Pins(st, k) > 0 <==> Pinned(st, k)
  {
  }

  lemma PinMoves<S, K(!new)>(st: State<S, K>, x: K)
    requires Inv(st)
    ensures PinsMove(st, Pin(st, x), x, if Present(st, x) then 1 else 0)
  {
    hide Find, Inv, KeysDistinct;
    var i, j := Find(st.lru, x), Find(st.inUse, x);
    var t := Pin(st, x);
    IdleNotPinned(st, x);
    forall k
      ensures Pins(t, k) == Pins(st, k) + if k == x && Present(st, x) then 1 else 0
      ensures Pinned(st, k) && Pinned(t, k) ==> HeldSlot(t, k) == HeldSlot(st, k)
    {
      if i < |st.lru| {
        EntryAppend(st.inUse, st.lru[i].(refs := 2), k);
      } else if j < |st.inUse| {
        EntryUpdate(st.inUse, j, st.inUse[j].(refs := st.inUse[j].refs + 1), k);
      }
    }
  }

  lemma IdleNotPinned<S, K(!new)>(st: State<S, K>, x: K)
    requires Inv(st)
    ensures Idle(st, x) ==> !Pinned(st, x)
    ensures Pinned(st, x) ==> st.inUse[Find(st.inUse, x)].refs >= 2
  {
  }

  lemma PinnedDistinct<S, K(!new)>(st: State<S, K>)
    requires Inv(st)
    ensures KeysDistinct(st.inUse)
  {
  }

  lemma ReleaseMoves<S, K(!new)>(st: State<S, K>, x: K)
    requires Inv(st) && Pinned(st, x)
    ensures PinsMove(st, Release(st, x), x, -1)
  {
    hide Find, Inv, KeysDistinct;
    var j := Find(st.inUse, x);
    var t := Release(st, x);
    IdleNotPinned(st, x);
    PinnedDistinct(st);
    forall k
      ensures Pins(t, k) == Pins(st, k) + if k == x then -1 else 0
      ensures Pinned(st, k) && Pinned(t, k) ==> HeldSlot(t, k) == HeldSlot(st, k)
    {
      if st.inUse[j].refs == 2 {
        EntryRemove(st.inUse, j, k);
      } else {
        EntryUpdate(st.inUse, j, st.inUse[j].(refs := st.inUse[j].refs - 1), k);
      }
    }
  }

  lemma AddMoves<S, K(!new)>(st: State<S, K>, slot: S, x: K, pin: bool)
    requires Inv(st) && !Present(st, x)
    ensures PinsMove(st, Add(st, slot, x, pin), x, if pin then 1 else 0)
  {
    var t := Add(st, slot, x, pin);
    forall k
      ensures Pins(t, k) == Pins(st, k) + if k == x && pin then 1 else 0
      ensures Pinned(st, k) && Pinned(t, k) ==> HeldSlot(t, k) == HeldSlot(st, k)
    {
      EntryAppend(st.inUse, Entry(slot, x, 2), k);
    }
  }

  lemma SamePins<S, K(!new)>(st: State<S, K>, st': State<S, K>, x: K)
    requires st'.inUse == st.inUse
    ensures PinsMove(st, st', x, 0)
  {
  }

  /**
   * Pins change exactly as callers take and release them, for the operation's own key alone,
   * and a pinned key keeps its slot.
   */
  lemma {:induction false} StepPins<S, K(!new)>(st: State<S, K>, op: Op<S, K>, k: K)
    requires Inv(st) && Legal(st, op)
    ensures Pins(Step(st, op), k) == Pins(st, k) + PinChange(st, op, k)
    ensures Pinned(st, k) && Pinned(Step(st, op), k) ==> HeldSlot(Step(st, op), k) == HeldSlot(st, k)
  {
    hide Inv, Present, Pin, Release, AllSlots, Pinned, Idle, Pins, HeldSlot, Full, Alloc, Assign, Preempt;
    match op
    case DoInsert(x, pin) => InsertMoves(st, x, pin);
    case DoLookup(x, pin) => LookupMoves(st, x, pin);
    case DoPin(x) => PinMoves(st, x);
    case DoRelease(x) => ReleaseMoves(st, x);
    case DoErase(x) => SamePins(st, Erase(st, x), k);
    case DoInstall(x, spare) => SamePins(st, Install(st, x, spare), k);
    case DoPreempt => PreemptPins(st, k);
    case DoAssign(spare) => AssignPins(st, spare, k);
  }

  lemma AssignPins<S, K(!new)>(st: State<S, K>, slot: S, k: K)
    ensures PinsMove(st, Assign(st, slot), k, 0)
  {
    hide PinsMove;
    SamePins(st, Assign(st, slot), k);
  }

  lemma PreemptPins<S, K(!new)>(st: State<S, K>, k: K)
    ensures PinsMove(st, Preempt(st), k, 0)
  {
    hide PinsMove;
    SamePins(st, Preempt(st), k);
  }

  lemma LookupMoves<S, K(!new)>(st: State<S, K>, k: K, pin: bool)
    requires Inv(st)
    ensures PinsMove(st, Lookup(st, k, pin), k, if pin && Present(st, k) then 1 else 0)
  {
    hide Inv, Present, PinsMove, Pin;
    PinMoves(st, k);
    if !pin {
      SamePins(st, Lookup(st, k, pin), k);
    }
  }

  lemma InsertMoves<S, K(!new)>(st: State<S, K>, k: K, pin: bool)
    requires Inv(st)
    ensures PinsMove(st, Insert(st, k, pin), k, if pin && (Present(st, k) || !Full(st)) then 1 else 0)
  {
    hide Inv, Present, PinsMove, Pin, Add, Lookup;
    LookupMoves(st, k, pin);
    if !Present(st, k) {
      if Full(st) {
        SamePins(st, st, k);
      } else {
        AllocKeeps(st, k);
        AddMoves(Alloc(st), NextSlot(st), k, pin);
        MoveThrough(st, Alloc(st), Insert(st, k, pin), k, if pin then 1 else 0);
      }
    }
  }

  lemma AllocKeeps<S, K(!new)>(st: State<S, K>, k: K)
    requires Inv(st) && !Present(st, k) && !Full(st)
    ensures Inv(Alloc(st)) && !Present(Alloc(st), k) && Alloc(st).inUse == st.inUse
  {
    if st.free != [] {
      IdleSlotsIrrelevant(st, {}, map[], RemoveAt(st.free, 0), st.erased);
    } else {
      EvictKeeps(st, {}, map[]);
      EvictedStaysAbsent(st, k);
    }
  }

  lemma MoveThrough<S, K(!new)>(a: State<S, K>, b: State<S, K>, c: State<S, K>, x: K, d: int)
    requires a.inUse == b.inUse && PinsMove(b, c, x, d)
    ensures PinsMove(a, c, x, d)
  {
    assert forall k :: Pins(a, k) == Pins(b, k);
    assert forall k :: Pinned(a, k) == Pinned(b, k);
  }

  // --- pins over runs ---

  /** The pins of `k` taken and not yet released along a run. */
  function Balance<S, K(==)>(st: State<S, K>, ops: seq<Op<S, K>>, k: K): int {
    if ops == [] then 0
    else
      var t, op := Run(st, ops[..|ops| - 1]), ops[|ops| - 1];
      Balance(st, ops[..|ops| - 1], k) + PinChange(t, op, k)
  }

  /** `k` is pinned after every prefix of the run. */
  ghost predicate PinnedThroughout<S, K(!new)>(st: State<S, K>, ops: seq<Op<S, K>>, k: K) {
    && Pins(st, k) + Balance(st, ops, k) > 0
    && (ops == [] || PinnedThroughout(st, ops[..|ops| - 1], k))
  }

  /** The pins a key has are exactly those taken and not released. */
  lemma {:induction false} PinsAreBalanced<S, K(!new)>(st: State<S, K>, ops: seq<Op<S, K>>, k: K)
    requires Inv(st) && LegalRun(st, ops)
    ensures Inv(Run(st, ops)) && Pins(Run(st, ops), k) == Pins(st, k) + Balance(st, ops, k)
  {
    if ops != [] {
      var t, op := Run(st, ops[..|ops| - 1]), ops[|ops| - 1];
      PinsAreBalanced(st, ops[..|ops| - 1], k);
      StepKeepsInv(t, op);
      StepPins(t, op, k);
      hide Step, Pins, Inv, PinChange;
    }
  }

  /**
   * Whatever else happens, a key whose pins do not balance to zero stays in the cache and in
   * its slot.
   */
  lemma {:induction false} PinnedKeyStays<S, K(!new)>(st: State<S, K>, ops: seq<Op<S, K>>, k: K)
    requires Inv(st) && LegalRun(st, ops) && PinnedThroughout(st, ops, k)
    ensures Pinned(st, k) && Pinned(Run(st, ops), k) && HeldSlot(Run(st, ops), k) == HeldSlot(st, k)
  {
    PinsAreBalanced(st, ops, k);
    UnpinnedHasNone(Run(st, ops), k);
    if ops != [] {
      var t, op := Run(st, ops[..|ops| - 1]), ops[|ops| - 1];
      PinnedKeyStays(st, ops[..|ops| - 1], k);
      PinsAreBalanced(st, ops[..|ops| - 1], k);
      StepPins(t, op, k);
    }
  }

  // --- eviction and recency ---

  /**
   * Inserting an absent key costs nothing while a slot is free; otherwise it costs exactly the
   * least recently used unpinned key.  With neither, nothing changes.
   */
  lemma InsertCostsOldest<S, K(!new)>(st: State<S, K>, k: K, pin: bool)
    requires Inv(st) && !Present(st, k)
    ensures var t := Insert(st, k, pin);
            if Full(st) then t == st
            else forall x :: Present(t, x) <==>
                   x == k || (Present(st, x) && (st.free != [] || x != st.lru[0].key))
  {
    if !Full(st) {
      var a := Alloc(st);
      AllocPresent(st);
      hide Alloc, Has, KeysDistinct;
      HasAppend(a.lru, Entry(NextSlot(st), k, 1));
      HasAppend(a.inUse, Entry(NextSlot(st), k, 2));
    }
  }

  lemma AllocPresent<S, K(!new)>(st: State<S, K>)
    requires Inv(st) && !Full(st)
    ensures Alloc(st).inUse == st.inUse
    ensures forall x :: Present(Alloc(st), x) <==> Present(st, x) && (st.free != [] || x != st.lru[0].key)
  {
    hide Has;
    if st.free == [] {
      HasRemove(st.lru, 0);
    }
  }

  /** A key becomes evictable with its last release only, and is then the last in line. */
  lemma LastReleaseIsNewest<S, K(!new)>(st: State<S, K>, k: K)
    requires Inv(st) && Pinned(st, k)
    ensures var t := Release(st, k);
            if Pins(st, k) == 1 then t.lru == st.lru + [Entry(HeldSlot(st, k), k, 1)] && !Pinned(t, k)
            else t.lru == st.lru && Pinned(t, k)
  {
    var j := Find(st.inUse, k);
    EntryRemove(st.inUse, j, k);
    if st.inUse[j].refs > 2 {
      EntryUpdate(st.inUse, j, st.inUse[j].(refs := st.inUse[j].refs - 1), k);
    }
  }

  // --- which keys come and go ---

  /** Looking up moves no key in or out, and between the lists only the key it pins. */
  lemma LookupKeys<S, K(!new)>(st: State<S, K>, k: K, pin: bool)
    requires Inv(st)
    ensures forall x :: Present(Lookup(st, k, pin), x) <==> Present(st, x)
    ensures forall x :: Pinned(Lookup(st, k, pin), x) <==> Pinned(st, x) || (pin && x == k && Present(st, k))
    ensures forall x :: Idle(Lookup(st, k, pin), x) <==> Idle(st, x) && !(pin && x == k)
  {
    var i, j := Find(st.lru, k), Find(st.inUse, k);
    hide Find, KeysDistinct;
    if i < |st.lru| {
      HasRemove(st.lru, i);
      HasAppend(RemoveAt(st.lru, i), st.lru[i]);
      HasAppend(st.inUse, st.lru[i].(refs := 2));
    } else if j < |st.inUse| {
      HasUpdate(st.inUse, j, st.inUse[j].(refs := st.inUse[j].refs + 1));
    }
    hide Has;
  }

  lemma ReleaseKeys<S, K(!new)>(st: State<S, K>, k: K)
    requires Inv(st)
    ensures forall x :: Present(Release(st, k), x) <==> Present(st, x)
  {
    var j := Find(st.inUse, k);
    hide Find, KeysDistinct;
    if j < |st.inUse| {
      HasRemove(st.inUse, j);
      HasAppend(st.lru, st.inUse[j].(refs := 1));
      HasUpdate(st.inUse, j, st.inUse[j].(refs := st.inUse[j].refs - 1));
    }
    hide Has;
  }

  /** Erasing removes an unpinned key and nothing else. */
  lemma EraseKeys<S, K(!new)>(st: State<S, K>, k: K)
    requires Inv(st)
    ensures forall x :: Present(Erase(st, k), x) <==> Present(st, x) && (x != k || Pinned(st, k))
  {
    var i := Find(st.lru, k);
    hide Find, KeysDistinct;
    if i < |st.lru| {
      HasRemove(st.lru, i);
    }
  }

  lemma InstallKeys<S, K(!new)>(st: State<S, K>, k: K, spare: S)
    ensures forall x :: Present(Install(st, k, spare), x) <==> Present(st, x) || x == k
  {
    hide Find, Has, KeysDistinct;
    HasAppend(st.lru, Entry(spare, k, 1));
    if st.erased != [] {
      HasAppend(st.lru, Entry(st.erased[0], k, 1));
    }
  }

  /** No operation brings in a key other than its own. */
  lemma OnlyOwnKey<S, K(!new)>(st: State<S, K>, op: Op<S, K>, x: K)
    requires Inv(st) && Legal(st, op) && Present(Step(st, op), x)
    ensures Present(st, x) || (OnKey(op) && x == op.key)
  {
    hide Inv, Present, Lookup, Pin, Release, Erase, Install, Add, Alloc, NextSlot, AllSlots, Full, Preempt, Assign;
    match op
    case DoInsert(k, pin) =>
      LookupKeys(st, k, pin);
      if !Present(st, k) {
        InsertCostsOldest(st, k, pin);
      }
    case DoLookup(k, pin) => LookupKeys(st, k, pin);
    case DoPin(k) => PinIsLookup(st, k);
    case DoRelease(k) => ReleaseKeys(st, k);
    case DoErase(k) => EraseKeys(st, k);
    case DoInstall(k, spare) => InstallKeys(st, k, spare);
    case DoPreempt => PreemptKeys(st);
    case DoAssign(spare) => AssignKeys(st, spare);
  }

  /** Giving a slot away costs no key while one is free, else exactly the oldest unpinned one. */
  lemma PreemptKeys<S, K(!new)>(st: State<S, K>)
    requires Inv(st)
    ensures forall x :: Present(Preempt(st), x) <==>
              Present(st, x) && (st.free != [] || st.lru == [] || x != st.lru[0].key)
  {
    hide Inv, Present, Alloc;
    if !Full(st) {
      AllocPresent(st);
    }
  }

  lemma AssignKeys<S, K(!new)>(st: State<S, K>, slot: S)
    ensures forall x :: Present(Assign(st, slot), x) <==> Present(st, x)
  {
  }

  lemma PinIsLookup<S, K(!new)>(st: State<S, K>, k: K)
    requires Inv(st)
    ensures Pin(st, k) == Lookup(st, k, true)
    ensures forall x :: Present(Pin(st, k), x) <==> Present(st, x)
  {
    hide Inv, Present, Pin;
    LookupKeys(st, k, true);
  }

  /** Installing and receiving add one slot, erasing and giving away cost one; nothing else counts. */
  lemma StepCapacity<S, K(!new)>(st: State<S, K>, op: Op<S, K>)
    ensures Capacity(Step(st, op)) == Capacity(st) + (
              if op.DoInstall? || op.DoAssign? then 1
              else if (op.DoErase? && Idle(st, op.key)) || (op.DoPreempt? && !Full(st)) then -1 else 0)
  {
    hide Find;
  }
}
