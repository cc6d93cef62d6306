/** Several tenants, each an LRU cache, that share one lookup table and trade cache slots. */
module SharedSpec {
  import opened Seqs
  import opened Words
  import Spec = LruSpec
  import Lru = LruTheorems
  import opened Distances

  type Tenants<T, S, K> = map<T, Spec.State<S, K>>

  ghost predicate Held<T, S, K>(m: Tenants<T, S, K>, k: K) {
    exists t :: t in m && Spec.Present(m[t], k)
  }

  /** The tenant that holds `k`. */
  ghost function Home<T, S, K>(m: Tenants<T, S, K>, k: K): (t: T)
    requires Held(m, k)
    ensures t in m && Spec.Present(m[t], k)
  {
    var t :| t in m && Spec.Present(m[t], k);
    t
  }

  /** Each tenant is in order, and no key is held by two of them. */
  ghost predicate Inv<T, S, K(!new)>(m: Tenants<T, S, K>) {
    && (forall t :: t in m ==> Spec.Inv(m[t]))
    && (forall t, u, k :: t in m && u in m && Spec.Present(m[t], k) && Spec.Present(m[u], k) ==> t == u)
  }

  lemma HomeIs<T, S, K(!new)>(m: Tenants<T, S, K>, k: K, t: T)
    requires Inv(m) && t in m && Spec.Present(m[t], k)
    ensures Held(m, k) && Home(m, k) == t
  {
  }

  // --- the operations ---

  ghost function Lookup<T, S, K>(m: Tenants<T, S, K>, k: K, pin: bool): Tenants<T, S, K> {
    if Held(m, k) then m[Home(m, k) := Spec.Lookup(m[Home(m, k)], k, pin)] else m
  }

  /** A key is looked up wherever it is; only when it is nowhere is it inserted at `t`. */
  ghost function Insert<T, S, K>(m: Tenants<T, S, K>, t: T, k: K, pin: bool): Tenants<T, S, K>
    requires t in m
  {
    if Held(m, k) then Lookup(m, k, pin) else m[t := Spec.Insert(m[t], k, pin)]
  }

  ghost function Pin<T, S, K>(m: Tenants<T, S, K>, k: K): Tenants<T, S, K> {
    if Held(m, k) then m[Home(m, k) := Spec.Pin(m[Home(m, k)], k)] else m
  }

  ghost function Release<T, S, K>(m: Tenants<T, S, K>, k: K): Tenants<T, S, K> {
    if Held(m, k) then m[Home(m, k) := Spec.Release(m[Home(m, k)], k)] else m
  }

  ghost function Erase<T, S, K>(m: Tenants<T, S, K>, k: K): Tenants<T, S, K> {
    if Held(m, k) then m[Home(m, k) := Spec.Erase(m[Home(m, k)], k)] else m
  }

  function Install<T, S, K>(m: Tenants<T, S, K>, t: T, k: K, spare: S): Tenants<T, S, K>
    requires t in m
  {
    m[t := Spec.Install(m[t], k, spare)]
  }

  /** One slot changes hands, if `src` has one to give. */
  function Move<T, S, K>(m: Tenants<T, S, K>, src: T, dst: T): Tenants<T, S, K>
    requires src in m && dst in m
  {
    if Spec.Full(m[src]) then m
    else
      var given := m[src := Spec.Preempt(m[src])];
      given[dst := Spec.Assign(given[dst], Spec.NextSlot(m[src]))]
  }

  function Relocate<T, S, K>(m: Tenants<T, S, K>, src: T, dst: T, n: nat): (r: Tenants<T, S, K>)
    requires src in m && dst in m
    ensures r.Keys == m.Keys
  {
    if n == 0 then m else Move(Relocate(m, src, dst, n - 1), src, dst)
  }

  /** How many of `n` attempts succeed. */
  function Relocated<T, S, K>(m: Tenants<T, S, K>, src: T, dst: T, n: nat): nat
    requires src in m && dst in m
  {
    if n == 0 then 0
    else Relocated(m, src, dst, n - 1) + if Spec.Full(Relocate(m, src, dst, n - 1)[src]) then 0 else 1
  }

  /** Once nothing is left to give, nothing more happens. */
  lemma {:induction false} RelocateStuck<T, S, K>(m: Tenants<T, S, K>, src: T, dst: T, i: nat, n: nat)
    requires src in m && dst in m && i <= n && Spec.Full(Relocate(m, src, dst, i)[src])
    ensures Relocate(m, src, dst, n) == Relocate(m, src, dst, i)
    ensures Relocated(m, src, dst, n) == Relocated(m, src, dst, i)
    decreases n
  {
    if i < n {
      RelocateStuck(m, src, dst, i, n - 1);
    }
  }

  // --- relocation ---

  /** What is left of `a` once it has given away `f` free slots and its `e` oldest idle entries. */
  function Giver<S, K>(a: Spec.State<S, K>, f: nat, e: nat): Spec.State<S, K>
    requires f <= |a.free| && e <= |a.lru|
  {
    a.(free := a.free[f..], lru := a.lru[e..])
  }

  /** What `b` is once it has received them. */
  function Taker<S, K>(b: Spec.State<S, K>, a: Spec.State<S, K>, f: nat, e: nat): Spec.State<S, K>
    requires f <= |a.free| && e <= |a.lru|
  {
    b.(free := b.free + a.free[..f] + SlotsOf(a.lru[..e]))
  }

  lemma SlotsOfOneMore<S, K>(l: seq<Spec.Entry<S, K>>, e: nat)
    requires e < |l|
    ensures SlotsOf(l[..e + 1]) == SlotsOf(l[..e]) + [l[e].slot]
  {
    assert l[..e + 1][..e] == l[..e];
  }

  lemma MoveOne<S, K>(a: Spec.State<S, K>, b: Spec.State<S, K>, f: nat, e: nat)
    requires f <= |a.free| && e <= |a.lru| && (f < |a.free| ==> e == 0)
    requires f + e < |a.free| + |a.lru|
    ensures var g := Giver(a, f, e);
            var (f', e') := if f < |a.free| then (f + 1, 0) else (f, e + 1);
            && !Spec.Full(g)
            && Spec.Preempt(g) == Giver(a, f', e')
            && Spec.Assign(Taker(b, a, f, e), Spec.NextSlot(g)) == Taker(b, a, f', e')
  {
    var g := Giver(a, f, e);
    if f < |a.free| {
      assert RemoveAt(g.free, 0) == a.free[f + 1..];
      assert b.free + a.free[..f] + [] + [a.free[f]] == b.free + a.free[..f + 1] + [];
    } else {
      assert RemoveAt(g.lru, 0) == a.lru[e + 1..];
      SlotsOfOneMore(a.lru, e);
    }
  }

  /** The tenants after `f` free slots and the `e` oldest idle entries of `src` went to `dst`. */
  function After<T, S, K>(m: Tenants<T, S, K>, src: T, dst: T, f: nat, e: nat): Tenants<T, S, K>
    requires src in m && dst in m && f <= |m[src].free| && e <= |m[src].lru|
  {
    m[src := Giver(m[src], f, e)][dst := Taker(m[dst], m[src], f, e)]
  }

  lemma AfterNone<T, S, K>(m: Tenants<T, S, K>, src: T, dst: T)
    requires src in m && dst in m && src != dst
    ensures After(m, src, dst, 0, 0) == m
  {
    var a, b := m[src], m[dst];
    assert b.free + a.free[..0] + SlotsOf(a.lru[..0]) == b.free;
  }

  lemma MoveAfter<T, S, K>(m: Tenants<T, S, K>, src: T, dst: T, f: nat, e: nat)
    requires src in m && dst in m && src != dst
    requires f <= |m[src].free| && e <= |m[src].lru| && (f < |m[src].free| ==> e == 0)
    ensures var p := After(m, src, dst, f, e);
            && p.Keys == m.Keys
            && (Spec.Full(p[src]) <==> f == |m[src].free| && e == |m[src].lru|)
            && (f < |m[src].free| ==> Move(p, src, dst) == After(m, src, dst, f + 1, 0))
            && (f == |m[src].free| && e < |m[src].lru| ==> Move(p, src, dst) == After(m, src, dst, f, e + 1))
  {
    var a, b := m[src], m[dst];
    if f + e < |a.free| + |a.lru| {
      MoveOne(a, b, f, e);
    }
    hide Spec.Preempt, Spec.Assign, Spec.NextSlot, Taker;
  }

  /** How many of `n` slots come from the free list, and how many from evictions. */
  function FromFree<S, K>(a: Spec.State<S, K>, n: nat): nat {
    Min(n, |a.free|)
  }

  function FromIdle<S, K>(a: Spec.State<S, K>, n: nat): nat {
    Min(n - FromFree(a, n), |a.lru|)
  }

  /**
   * Between two different tenants exactly as many slots move as asked for and available: the
   * oldest free ones first, then those of the least recently used unpinned keys.
   */
  lemma {:induction false} RelocateIs<T, S, K>(m: Tenants<T, S, K>, src: T, dst: T, n: nat)
    requires src in m && dst in m && src != dst
    ensures var a := m[src];
            && Relocated(m, src, dst, n) == FromFree(a, n) + FromIdle(a, n) == Min(n, |a.free| + |a.lru|)
            && Relocate(m, src, dst, n) == After(m, src, dst, FromFree(a, n), FromIdle(a, n))
  {
    hide Relocate, Relocated, Move, After, Spec.Full;
    if n == 0 {
      RelocateNone(m, src, dst);
      AfterNone(m, src, dst);
    } else {
      RelocateIs(m, src, dst, n - 1);
      MoveAfter(m, src, dst, FromFree(m[src], n - 1), FromIdle(m[src], n - 1));
      RelocateStep(m, src, dst, n);
    }
  }

  lemma RelocateNone<T, S, K>(m: Tenants<T, S, K>, src: T, dst: T)
    requires src in m && dst in m
    ensures Relocate(m, src, dst, 0) == m && Relocated(m, src, dst, 0) == 0
  {
  }

  lemma RelocateStep<T, S, K>(m: Tenants<T, S, K>, src: T, dst: T, n: nat)
    requires src in m && dst in m && n > 0
    ensures var p := Relocate(m, src, dst, n - 1);
            && Relocate(m, src, dst, n) == Move(p, src, dst)
            && Relocated(m, src, dst, n) == Relocated(m, src, dst, n - 1) + (if Spec.Full(p[src]) then 0 else 1)
            && (Spec.Full(p[src]) ==> Relocate(m, src, dst, n) == p)
  {
  }

  /**
   * In terms of keys and capacities: `src` loses exactly its oldest unpinned keys, as many as
   * its free slots did not cover; its pinned keys, and everything `dst` holds, stay as they are.
   */
  lemma {:induction false} RelocateMoves<T, S, K>(m: Tenants<T, S, K>, src: T, dst: T, n: nat)
    requires src in m && dst in m && src != dst
    ensures var (a, b) := (m[src], m[dst]);
            var r := Relocate(m, src, dst, n);
            var q := Min(n, |a.free| + |a.lru|);
            && Relocated(m, src, dst, n) == q
            && Spec.Capacity(r[src]) == Spec.Capacity(a) - q
            && Spec.Capacity(r[dst]) == Spec.Capacity(b) + q
            && r[src].lru == a.lru[if q <= |a.free| then 0 else q - |a.free|..]
            && r[src].inUse == a.inUse && r[src].erased == a.erased
            && r[dst].lru == b.lru && r[dst].inUse == b.inUse && r[dst].erased == b.erased
            && forall u :: u in m && u != src && u != dst ==> r[u] == m[u]
  {
    RelocateIs(m, src, dst, n);
    hide Relocate, Relocated;
  }

  lemma MoveToSelf<T, S, K>(m: Tenants<T, S, K>, t: T)
    requires t in m && !Spec.Full(m[t])
    ensures var r := Move(m, t, t);
            && !Spec.Full(r[t]) && r[t].free != []
            && r[t].lru == (if m[t].free == [] then m[t].lru[1..] else m[t].lru)
            && r[t].inUse == m[t].inUse && r[t].erased == m[t].erased
            && Spec.Capacity(r[t]) == Spec.Capacity(m[t])
            && r == m[t := r[t]]
  {
    assert Spec.Preempt(m[t]).lru == if m[t].free == [] then m[t].lru[1..] else m[t].lru;
  }

  /**
   * Relocation from a tenant to itself: with neither a free slot nor an unpinned key nothing
   * happens.  Otherwise every attempt succeeds and no capacity changes, but the first one costs
   * the oldest unpinned key if there was no free slot.
   */
  lemma {:induction false} RelocateToSelf<T, S, K>(m: Tenants<T, S, K>, t: T, n: nat)
    requires t in m
    ensures var r := Relocate(m, t, t, n);
            if Spec.Full(m[t]) then r == m && Relocated(m, t, t, n) == 0
            else
              && Relocated(m, t, t, n) == n
              && r == m[t := r[t]] && !Spec.Full(r[t])
              && (if n > 0 then r[t].free != [] else r == m)
              && r[t].lru == (if n > 0 && m[t].free == [] then m[t].lru[1..] else m[t].lru)
              && r[t].inUse == m[t].inUse && r[t].erased == m[t].erased
              && Spec.Capacity(r[t]) == Spec.Capacity(m[t])
  {
    hide Relocate, Relocated, Move, Spec.Capacity, Spec.Full;
    RelocateNone(m, t, t);
    if Spec.Full(m[t]) {
      RelocateStuck(m, t, t, 0, n);
    } else if n > 0 {
      RelocateToSelf(m, t, n - 1);
      MoveToSelf(Relocate(m, t, t, n - 1), t);
      RelocateStep(m, t, t, n);
    }
  }

  // --- whole runs, in any interleaving ---

  datatype Op<T, S, K> =
    | DoInsert(tenant: T, key: K, pin: bool)
    | DoLookup(key: K, pin: bool)
    | DoPin(key: K)
    | DoRelease(key: K)
    | DoErase(key: K)
    | DoInstall(tenant: T, key: K, spare: S)
    | DoRelocate(src: T, dst: T, n: nat)

  /** No tenant owns the slot. */
  ghost predicate Unowned<T, S, K>(m: Tenants<T, S, K>, s: S) {
    forall t :: t in m ==> Lru.AllSlots(m[t])[s] == 0
  }

  /** What the library leaves to its callers. */
  ghost predicate Legal<T, S, K>(m: Tenants<T, S, K>, op: Op<T, S, K>) {
    match op
    case DoInsert(t, k, _) => t in m && (Held(m, k) || Spec.Capacity(m[t]) > 0)
    case DoLookup(_, _) => true
    case DoPin(k) => Held(m, k)
    case DoRelease(k) => Held(m, k) && Spec.Pinned(m[Home(m, k)], k)
    case DoErase(k) => Held(m, k)
    case DoInstall(t, k, spare) => t in m && !Held(m, k) && (m[t].erased == [] ==> Unowned(m, spare))
    case DoRelocate(src, dst, _) => src in m && dst in m
  }

  ghost function Step<T, S, K>(m: Tenants<T, S, K>, op: Op<T, S, K>): Tenants<T, S, K>
    requires Legal(m, op)
  {
    match op
    case DoInsert(t, k, pin) => Insert(m, t, k, pin)
    case DoLookup(k, pin) => Lookup(m, k, pin)
    case DoPin(k) => Pin(m, k)
    case DoRelease(k) => Release(m, k)
    case DoErase(k) => Erase(m, k)
    case DoInstall(t, k, spare) => Install(m, t, k, spare)
    case DoRelocate(src, dst, n) => Relocate(m, src, dst, n)
  }

  // What legality and one step come to, operation by operation.

  lemma LookupOp<T, S, K>(m: Tenants<T, S, K>, k: K, pin: bool)
    ensures Legal(m, DoLookup(k, pin)) && Step(m, DoLookup(k, pin)) == Lookup(m, k, pin)
  {
  }

  lemma InsertOp<T, S, K>(m: Tenants<T, S, K>, t: T, k: K, pin: bool)
    requires t in m && (Held(m, k) || Spec.Capacity(m[t]) > 0)
    ensures Legal(m, DoInsert(t, k, pin)) && Step(m, DoInsert(t, k, pin)) == Insert(m, t, k, pin)
  {
  }

  lemma PinOp<T, S, K>(m: Tenants<T, S, K>, k: K)
    requires Held(m, k)
    ensures Legal(m, DoPin(k)) && Step(m, DoPin(k)) == Pin(m, k)
  {
  }

  lemma ReleaseOp<T, S, K>(m: Tenants<T, S, K>, k: K)
    requires Held(m, k) && Spec.Pinned(m[Home(m, k)], k)
    ensures Legal(m, DoRelease(k)) && Step(m, DoRelease(k)) == Release(m, k)
  {
  }

  lemma EraseOp<T, S, K>(m: Tenants<T, S, K>, k: K)
    requires Held(m, k)
    ensures Legal(m, DoErase(k)) && Step(m, DoErase(k)) == Erase(m, k)
  {
  }

  lemma InstallOp<T, S, K>(m: Tenants<T, S, K>, t: T, k: K, spare: S)
    requires t in m && !Held(m, k) && (m[t].erased == [] ==> Unowned(m, spare))
    ensures Legal(m, DoInstall(t, k, spare)) && Step(m, DoInstall(t, k, spare)) == Install(m, t, k, spare)
  {
  }

  lemma RelocateOp<T, S, K>(m: Tenants<T, S, K>, src: T, dst: T, n: nat)
    requires src in m && dst in m
    ensures Legal(m, DoRelocate(src, dst, n)) && Step(m, DoRelocate(src, dst, n)) == Relocate(m, src, dst, n)
  {
  }

  /** An operation on a key is an operation of one tenant's own cache. */
  ghost function Local<T, S, K>(m: Tenants<T, S, K>, op: Op<T, S, K>): (r: (T, Lru.Op<S, K>))
    requires Legal(m, op) && !op.DoRelocate? && (op.DoLookup? ==> Held(m, op.key))
    ensures r.0 in m
  {
    match op
    case DoInsert(t, k, pin) => (if Held(m, k) then Home(m, k) else t, Lru.DoInsert(k, pin))
    case DoLookup(k, pin) => (Home(m, k), Lru.DoLookup(k, pin))
    case DoPin(k) => (Home(m, k), Lru.DoPin(k))
    case DoRelease(k) => (Home(m, k), Lru.DoRelease(k))
    case DoErase(k) => (Home(m, k), Lru.DoErase(k))
    case DoInstall(t, k, spare) => (t, Lru.DoInstall(k, spare))
  }

  lemma StepIsLocal<T, S, K(!new)>(m: Tenants<T, S, K>, op: Op<T, S, K>)
    requires Inv(m) && Legal(m, op) && !op.DoRelocate? && (op.DoLookup? ==> Held(m, op.key))
    ensures var (t, lop) := Local(m, op);
            && Step(m, op) == m[t := Lru.Step(m[t], lop)]
            && Lru.Legal(m[t], lop)
            && Lru.OnKey(lop) && lop.key == op.key
            && forall u :: u in m && u != t ==> !Spec.Present(m[u], op.key)
  {
    hide Spec.Inv, Spec.Present, Spec.Insert, Spec.Lookup, Spec.Pin, Spec.Release, Spec.Erase, Spec.Install,
         Lru.AllSlots, Spec.Capacity;
    if Held(m, op.key) {
      HomeIs(m, op.key, Home(m, op.key));
      if op.DoInsert? {
        InsertOfPresent(m[Home(m, op.key)], op.key, op.pin);
      }
    }
  }

  lemma InsertOfPresent<S, K>(st: Spec.State<S, K>, k: K, pin: bool)
    requires Spec.Present(st, k)
    ensures Spec.Insert(st, k, pin) == Spec.Lookup(st, k, pin) && Spec.Capacity(st) > 0
  {
  }

  /** A tenant may do whatever its own cache allows with a key no other tenant holds. */
  lemma LocalKeepsInv<T, S, K(!new)>(m: Tenants<T, S, K>, t: T, op: Lru.Op<S, K>)
    requires Inv(m) && t in m && Lru.Legal(m[t], op)
    requires Lru.OnKey(op) ==> forall u :: u in m && u != t ==> !Spec.Present(m[u], op.key)
    ensures Inv(m[t := Lru.Step(m[t], op)])
  {
    hide Spec.Inv, Spec.Present, Lru.Legal, Lru.Step;
    Lru.StepKeepsInv(m[t], op);
    forall k: K | Spec.Present(Lru.Step(m[t], op), k)
      ensures Spec.Present(m[t], k) || (Lru.OnKey(op) && k == op.key)
    {
      Lru.OnlyOwnKey(m[t], op, k);
    }
  }

  /** Every slot belongs to one place of one tenant. */
  ghost predicate SlotsApart<T, S, K>(m: Tenants<T, S, K>) {
    && (forall t :: t in m ==> Lru.SlotsDistinct(m[t]))
    && (forall t, u :: t in m && u in m && t != u ==> Lru.AllSlots(m[t]) !! Lru.AllSlots(m[u]))
  }

  /** A tenant may come to own slots that nobody owns, once each. */
  lemma SlotsStayApart<T, S, K>(m: Tenants<T, S, K>, t: T, st: Spec.State<S, K>, more: multiset<S>)
    requires SlotsApart(m) && t in m && Lru.SlotsDistinct(st)
    requires Lru.AllSlots(st) <= Lru.AllSlots(m[t]) + more
    requires forall u :: u in m ==> more !! Lru.AllSlots(m[u])
    ensures SlotsApart(m[t := st])
  {
    hide Lru.AllSlots, Lru.SlotsDistinct;
    forall u | u in m && u != t
      ensures Lru.AllSlots(st) !! Lru.AllSlots(m[u])
    {
      Apart(Lru.AllSlots(st), Lru.AllSlots(m[t]), more, Lru.AllSlots(m[u]));
    }
  }

  lemma Apart<S>(a: multiset<S>, b: multiset<S>, more: multiset<S>, c: multiset<S>)
    requires a <= b + more && b !! c && more !! c
    ensures a !! c
  {
  }

  lemma UnownedApart<T, S, K>(m: Tenants<T, S, K>, slot: S, more: multiset<S>)
    requires Unowned(m, slot) && (more == multiset{slot} || more == multiset{})
    ensures forall u :: u in m ==> more !! Lru.AllSlots(m[u])
  {
    hide Lru.AllSlots;
  }

  /** A tenant may change in any way that keeps it in order and brings in no key. */
  lemma NoNewKeyKeepsInv<T, S, K(!new)>(m: Tenants<T, S, K>, t: T, st: Spec.State<S, K>)
    requires Inv(m) && t in m && Spec.Inv(st)
    requires forall k :: Spec.Present(st, k) ==> Spec.Present(m[t], k)
    ensures Inv(m[t := st])
  {
    hide Spec.Inv, Spec.Present;
  }

  lemma OneLess<S>(a: multiset<S>, b: multiset<S>, slot: S)
    requires b == a + multiset{slot}
    ensures a <= b + multiset{} && b[slot] == a[slot] + 1 && (forall s :: a[s] <= b[s])
  {
  }

  /** A tenant that comes to own one slot less, and no new key. */
  lemma ShrinkKeeps<T, S, K(!new)>(m: Tenants<T, S, K>, t: T, st: Spec.State<S, K>, slot: S)
    requires Inv(m) && SlotsApart(m) && t in m && Spec.Inv(st)
    requires Lru.AllSlots(m[t]) == Lru.AllSlots(st) + multiset{slot}
    requires forall k :: Spec.Present(st, k) ==> Spec.Present(m[t], k)
    ensures Inv(m[t := st]) && SlotsApart(m[t := st]) && Unowned(m[t := st], slot)
  {
    hide Inv, Spec.Inv, Spec.Present, Lru.AllSlots;
    NoNewKeyKeepsInv(m, t, st);
    OneLess(Lru.AllSlots(st), Lru.AllSlots(m[t]), slot);
    assert Lru.AllSlots(m[t])[slot] <= 1;
    assert Lru.SlotsDistinct(st) by {
      assert forall s :: s in Lru.AllSlots(st) ==> Lru.AllSlots(st)[s] <= Lru.AllSlots(m[t])[s];
    }
    SlotsStayApart(m, t, st, multiset{});
  }

  /** A tenant that comes to own one slot more, and no new key. */
  lemma GrowKeeps<T, S, K(!new)>(m: Tenants<T, S, K>, t: T, st: Spec.State<S, K>, slot: S)
    requires Inv(m) && SlotsApart(m) && t in m && Spec.Inv(st) && Unowned(m, slot)
    requires Lru.AllSlots(st) == Lru.AllSlots(m[t]) + multiset{slot}
    requires forall k :: Spec.Present(st, k) ==> Spec.Present(m[t], k)
    ensures Inv(m[t := st]) && SlotsApart(m[t := st])
  {
    hide Inv, Spec.Inv, Spec.Present, Lru.AllSlots;
    NoNewKeyKeepsInv(m, t, st);
    DistinctPlusOne(m[t], st, slot);
    UnownedApart(m, slot, multiset{slot});
    SlotsStayApart(m, t, st, multiset{slot});
  }

  lemma DistinctPlusOne<S, K>(a: Spec.State<S, K>, b: Spec.State<S, K>, slot: S)
    requires Lru.SlotsDistinct(a) && Lru.AllSlots(a)[slot] == 0
    requires Lru.AllSlots(b) == Lru.AllSlots(a) + multiset{slot}
    ensures Lru.SlotsDistinct(b)
  {
    hide Lru.AllSlots;
    forall s | s in Lru.AllSlots(b)
      ensures Lru.AllSlots(b)[s] == 1
    {
      assert Lru.AllSlots(a)[s] <= 1;
    }
  }

  lemma MoveKeeps<T, S, K(!new)>(m: Tenants<T, S, K>, src: T, dst: T)
    requires Inv(m) && SlotsApart(m) && src in m && dst in m
    ensures Inv(Move(m, src, dst)) && SlotsApart(Move(m, src, dst))
  {
    hide Inv, SlotsApart, Unowned, Spec.Inv, Spec.Present, Spec.Preempt, Spec.Assign, Lru.AllSlots, Spec.Full;
    TenantInv(m, src);
    if !Spec.Full(m[src]) {
      Lru.PreemptKeepsInv(m[src]);
      Lru.PreemptKeys(m[src]);
      Lru.PreemptSlots(m[src]);
      ShrinkKeeps(m, src, Spec.Preempt(m[src]), Spec.NextSlot(m[src]));
      var given := m[src := Spec.Preempt(m[src])];
      TenantInv(given, dst);
      Spec.IdleSlotsIrrelevant(given[dst], {}, map[], given[dst].free + [Spec.NextSlot(m[src])], given[dst].erased);
      AssignIs(given[dst], Spec.NextSlot(m[src]));
      Lru.AssignKeys(given[dst], Spec.NextSlot(m[src]));
      Lru.AssignSlots(given[dst], Spec.NextSlot(m[src]));
      GrowKeeps(given, dst, Spec.Assign(given[dst], Spec.NextSlot(m[src])), Spec.NextSlot(m[src]));
    }
  }

  lemma AssignIs<S, K>(st: Spec.State<S, K>, slot: S)
    ensures Spec.Assign(st, slot) == st.(free := st.free + [slot], erased := st.erased)
  {
  }

  lemma TenantInv<T, S, K(!new)>(m: Tenants<T, S, K>, t: T)
    requires Inv(m) && t in m
    ensures Spec.Inv(m[t])
  {
  }

  lemma {:induction false} RelocateKeeps<T, S, K(!new)>(m: Tenants<T, S, K>, src: T, dst: T, n: nat)
    requires Inv(m) && SlotsApart(m) && src in m && dst in m
    ensures Inv(Relocate(m, src, dst, n)) && SlotsApart(Relocate(m, src, dst, n))
  {
    hide Inv, SlotsApart, Move;
    if n > 0 {
      RelocateKeeps(m, src, dst, n - 1);
      MoveKeeps(Relocate(m, src, dst, n - 1), src, dst);
    }
  }

  lemma LocalKeepsSlots<T, S, K(!new)>(m: Tenants<T, S, K>, t: T, op: Lru.Op<S, K>)
    requires SlotsApart(m) && t in m && Lru.Legal(m[t], op)
    requires op.DoAssign? || (op.DoInstall? && m[t].erased == []) ==> Unowned(m, op.spare)
    ensures SlotsApart(m[t := Lru.Step(m[t], op)])
  {
    hide Lru.AllSlots, Lru.Step, Lru.SlotsDistinct, Lru.Given, Lru.Legal;
    Lru.StepSlots(m[t], op);
    Lru.SlotsStayDistinct(m[t], op);
    if op.DoAssign? || (op.DoInstall? && m[t].erased == []) {
      UnownedApart(m, op.spare, Lru.Taken(m[t], op));
    }
    NoMore(Lru.AllSlots(Lru.Step(m[t], op)), Lru.Given(m[t], op), Lru.AllSlots(m[t]), Lru.Taken(m[t], op));
    SlotsStayApart(m, t, Lru.Step(m[t], op), Lru.Taken(m[t], op));
  }

  lemma NoMore<S>(a: multiset<S>, given: multiset<S>, b: multiset<S>, taken: multiset<S>)
    requires a + given == b + taken
    ensures a <= b + taken
  {
  }

  lemma StepKeeps<T, S, K(!new)>(m: Tenants<T, S, K>, op: Op<T, S, K>)
    requires Inv(m) && SlotsApart(m) && Legal(m, op)
    ensures Inv(Step(m, op)) && SlotsApart(Step(m, op))
  {
    hide Inv, SlotsApart, Held, Relocate, Lru.Step, Lru.Legal, Insert, Pin, Release, Erase, Install;
    if op.DoRelocate? {
      RelocateKeeps(m, op.src, op.dst, op.n);
    } else if op.DoLookup? && !Held(m, op.key) {
    } else {
      StepIsLocal(m, op);
      var (t, lop) := Local(m, op);
      LocalKeepsInv(m, t, lop);
      LocalKeepsSlots(m, t, lop);
    }
  }

  ghost predicate LegalRun<T, S, K>(m: Tenants<T, S, K>, ops: seq<Op<T, S, K>>) {
    ops == [] || (Legal(m, ops[0]) && LegalRun(Step(m, ops[0]), ops[1..]))
  }

  ghost function Run<T, S, K>(m: Tenants<T, S, K>, ops: seq<Op<T, S, K>>): Tenants<T, S, K>
    requires LegalRun(m, ops)
  {
    if ops == [] then m else Run(Step(m, ops[0]), ops[1..])
  }

  lemma {:induction false} RunConcat<T, S, K>(m: Tenants<T, S, K>, a: seq<Op<T, S, K>>, b: seq<Op<T, S, K>>)
    ensures LegalRun(m, a + b) <==> LegalRun(m, a) && LegalRun(Run(m, a), b)
    ensures LegalRun(m, a + b) ==> Run(m, a + b) == Run(Run(m, a), b)
    decreases |a|
  {
    hide Legal, Step;
    if a == [] {
      assert a + b == b;
    } else {
      assert (a + b)[1..] == a[1..] + b;
      if Legal(m, a[0]) {
        RunConcat(Step(m, a[0]), a[1..], b);
      }
    }
  }

  lemma RunOne<T, S, K>(m: Tenants<T, S, K>, op: Op<T, S, K>)
    requires Legal(m, op)
    ensures LegalRun(m, [op]) && Run(m, [op]) == Step(m, op)
  {
    hide Legal, Step;
    assert [op][1..] == [];
    assert LegalRun(Step(m, op), []);
  }

  /** Whatever the tenants do, and in whatever order: no key twice, no slot shared. */
  lemma {:induction false} RunKeeps<T, S, K(!new)>(m: Tenants<T, S, K>, ops: seq<Op<T, S, K>>)
    requires Inv(m) && SlotsApart(m) && LegalRun(m, ops)
    ensures Inv(Run(m, ops)) && SlotsApart(Run(m, ops))
    decreases |ops|
  {
    hide Inv, SlotsApart, Legal, Step;
    if ops != [] {
      StepKeeps(m, ops[0]);
      RunKeeps(Step(m, ops[0]), ops[1..]);
    }
  }

  // --- pins over runs ---

  /** What an operation does to the pins of a key that some tenant holds. */
  function PinChange<T, S, K(==)>(op: Op<T, S, K>, k: K): int {
    match op
    case DoInsert(_, x, pin) => if x == k && pin then 1 else 0
    case DoLookup(x, pin) => if x == k && pin then 1 else 0
    case DoPin(x) => if x == k then 1 else 0
    case DoRelease(x) => if x == k then -1 else 0
    case DoErase(_) => 0
    case DoInstall(_, _, _) => 0
    case DoRelocate(_, _, _) => 0
  }

  /** The pins of `k` left after `ops`, as its users count them from `pins` on. */
  function Ledger<T, S, K(==)>(ops: seq<Op<T, S, K>>, k: K, pins: int): int {
    if ops == [] then pins else Ledger(ops[1..], k, pins + PinChange(ops[0], k))
  }

  /** That count never drops to zero. */
  ghost predicate NeverReleased<T, S, K>(ops: seq<Op<T, S, K>>, k: K, pins: int) {
    pins > 0 && (ops == [] || NeverReleased(ops[1..], k, pins + PinChange(ops[0], k)))
  }

  lemma {:induction false} RelocateKeepsPins<T, S, K>(m: Tenants<T, S, K>, src: T, dst: T, n: nat, t: T)
    requires src in m && dst in m && t in m
    ensures Relocate(m, src, dst, n)[t].inUse == m[t].inUse
  {
    hide Move;
    if n > 0 {
      RelocateKeepsPins(m, src, dst, n - 1, t);
      MoveKeepsPins(Relocate(m, src, dst, n - 1), src, dst, t);
    }
  }

  lemma MoveKeepsPins<T, S, K>(m: Tenants<T, S, K>, src: T, dst: T, t: T)
    requires src in m && dst in m && t in m
    ensures Move(m, src, dst)[t].inUse == m[t].inUse
  {
  }

  /** One step changes the pins of a pinned key as its users see it, and moves it nowhere. */
  lemma StepPins<T, S, K(!new)>(m: Tenants<T, S, K>, op: Op<T, S, K>, t: T, k: K)
    requires Inv(m) && Legal(m, op) && t in m && Spec.Pinned(m[t], k)
    ensures var r := Step(m, op);
            && t in r
            && Lru.Pins(r[t], k) == Lru.Pins(m[t], k) + PinChange(op, k)
            && (Spec.Pinned(r[t], k) ==> Lru.HeldSlot(r[t], k) == Lru.HeldSlot(m[t], k))
  {
    hide Inv, Relocate, Lru.Step, Lru.Legal, Insert, Pin, Release, Erase, Install, Lookup, Spec.Inv, Held, Local,
         PinChange, Lru.PinChange, Lru.Pins, Lru.HeldSlot, Spec.Pinned, Spec.Full;
    HomeOfPinned(m, t, k);
    if op.DoRelocate? {
      RelocateKeepsPins(m, op.src, op.dst, op.n, t);
      SameInUse(m[t], Relocate(m, op.src, op.dst, op.n)[t], k);
      NoChange(op, k);
    } else if op.DoLookup? && !Held(m, op.key) {
      LookupNowhere(m, op.key, op.pin);
      NoChange(op, k);
    } else {
      StepIsLocal(m, op);
      LocalChange(m, op, t, k);
      var (u, lop) := Local(m, op);
      LocalPins(m, u, lop, t, k);
    }
  }

  lemma NoChange<T, S, K>(op: Op<T, S, K>, k: K)
    requires op.DoRelocate? || op.key != k
    ensures PinChange(op, k) == 0
  {
  }

  /** The tenant's own view of the change is the users' view. */
  lemma LocalChange<T, S, K(!new)>(m: Tenants<T, S, K>, op: Op<T, S, K>, t: T, k: K)
    requires Legal(m, op) && !op.DoRelocate? && (op.DoLookup? ==> Held(m, op.key))
    requires t in m && Held(m, k) && Home(m, k) == t
    ensures var (u, lop) := Local(m, op);
            (if u == t then Lru.PinChange(m[t], lop, k) else 0) == PinChange(op, k)
  {
    hide Spec.Present, Spec.Full, Spec.Capacity, Held, Unowned;
  }

  lemma LocalPins<T, S, K(!new)>(m: Tenants<T, S, K>, u: T, op: Lru.Op<S, K>, t: T, k: K)
    requires Inv(m) && u in m && t in m && Lru.Legal(m[u], op)
    ensures var r := m[u := Lru.Step(m[u], op)];
            && Lru.Pins(r[t], k) == Lru.Pins(m[t], k) + (if u == t then Lru.PinChange(m[t], op, k) else 0)
            && (Spec.Pinned(m[t], k) && Spec.Pinned(r[t], k) ==> Lru.HeldSlot(r[t], k) == Lru.HeldSlot(m[t], k))
  {
    hide Inv, Lru.Step, Lru.Legal, Lru.Pins, Lru.HeldSlot, Spec.Pinned, Spec.Inv, Lru.PinChange;
    TenantInv(m, t);
    if u == t {
      Lru.StepPins(m[t], op, k);
    }
  }

  lemma HomeOfPinned<T, S, K(!new)>(m: Tenants<T, S, K>, t: T, k: K)
    requires Inv(m) && t in m && Spec.Pinned(m[t], k)
    ensures Held(m, k) && Home(m, k) == t && Spec.Present(m[t], k)
  {
    hide Spec.Inv, Spec.Pinned;
    assert Spec.Present(m[t], k);
  }

  lemma SameInUse<S, K>(a: Spec.State<S, K>, b: Spec.State<S, K>, k: K)
    requires a.inUse == b.inUse
    ensures Lru.Pins(a, k) == Lru.Pins(b, k)
    ensures Spec.Pinned(a, k) <==> Spec.Pinned(b, k)
    ensures Spec.Pinned(a, k) ==> Lru.HeldSlot(a, k) == Lru.HeldSlot(b, k)
  {
  }

  lemma LookupNowhere<T, S, K>(m: Tenants<T, S, K>, k: K, pin: bool)
    requires !Held(m, k)
    ensures Lookup(m, k, pin) == m
  {
  }

  /**
   * Whatever the tenants do, relocations included: a key whose pins never balance to zero stays
   * with its tenant, in its slot, and has exactly the pins its users count.
   */
  lemma {:induction false} PinnedKeyStays<T, S, K(!new)>(m: Tenants<T, S, K>, ops: seq<Op<T, S, K>>, t: T, k: K)
    requires Inv(m) && SlotsApart(m) && LegalRun(m, ops)
    requires t in m && Spec.Pinned(m[t], k) && NeverReleased(ops, k, Lru.Pins(m[t], k))
    ensures var r := Run(m, ops);
            && t in r && Spec.Pinned(r[t], k)
            && Lru.HeldSlot(r[t], k) == Lru.HeldSlot(m[t], k)
            && Lru.Pins(r[t], k) == Ledger(ops, k, Lru.Pins(m[t], k))
    decreases |ops|
  {
    hide Inv, SlotsApart, Legal, Step, PinChange, Lru.HeldSlot, Spec.Pinned, Lru.Pins;
    if ops != [] {
      var s := Step(m, ops[0]);
      StepKeeps(m, ops[0]);
      StepPins(m, ops[0], t, k);
      TenantInv(s, t);
      StillPositive(ops, k, Lru.Pins(m[t], k));
      Lru.UnpinnedHasNone(s[t], k);
      PinnedKeyStays(s, ops[1..], t, k);
    }
  }

  lemma StillPositive<T, S, K>(ops: seq<Op<T, S, K>>, k: K, pins: int)
    requires ops != [] && NeverReleased(ops, k, pins)
    ensures pins + PinChange(ops[0], k) > 0
  {
  }

  // --- capacities ---

  ghost function Total<T, S, K>(m: Tenants<T, S, K>): nat {
    if m == map[] then 0
    else
      var t :| t in m;
      Spec.Capacity(m[t]) + Total(m - {t})
  }

  lemma {:induction false} TotalAt<T, S, K>(m: Tenants<T, S, K>, t: T)
    requires t in m
    ensures Total(m) == Spec.Capacity(m[t]) + Total(m - {t})
    decreases |m|
  {
    hide Spec.Capacity;
    var u :| u in m && Total(m) == Spec.Capacity(m[u]) + Total(m - {u});
    if u != t {
      TotalAt(m - {u}, t);
      TotalAt(m - {t}, u);
      assert m - {u} - {t} == m - {t} - {u};
    }
  }

  lemma TotalUpdate<T, S, K>(m: Tenants<T, S, K>, t: T, st: Spec.State<S, K>)
    requires t in m
    ensures Total(m[t := st]) == Total(m) - Spec.Capacity(m[t]) + Spec.Capacity(st)
  {
    hide Spec.Capacity, Total;
    TotalAt(m, t);
    TotalAt(m[t := st], t);
    assert m[t := st] - {t} == m - {t};
  }

  lemma MoveTotal<T, S, K>(m: Tenants<T, S, K>, src: T, dst: T)
    requires src in m && dst in m
    ensures Total(Move(m, src, dst)) == Total(m)
  {
    hide Total;
    if !Spec.Full(m[src]) {
      var given := m[src := Spec.Preempt(m[src])];
      TotalUpdate(m, src, given[src]);
      TotalUpdate(given, dst, Spec.Assign(given[dst], Spec.NextSlot(m[src])));
    }
  }

  lemma {:induction false} RelocateTotal<T, S, K>(m: Tenants<T, S, K>, src: T, dst: T, n: nat)
    requires src in m && dst in m
    ensures Total(Relocate(m, src, dst, n)) == Total(m)
  {
    hide Total, Move;
    if n > 0 {
      RelocateTotal(m, src, dst, n - 1);
      MoveTotal(Relocate(m, src, dst, n - 1), src, dst);
    }
  }

  /** The total capacity grows by one with each installation and shrinks by one with each key erased. */
  lemma {:induction false} StepTotal<T, S, K(!new)>(m: Tenants<T, S, K>, op: Op<T, S, K>)
    requires Inv(m) && Legal(m, op)
    ensures Total(Step(m, op)) == Total(m) + (
              if op.DoInstall? then 1
              else if op.DoErase? && Spec.Idle(m[Home(m, op.key)], op.key) then -1 else 0)
  {
    hide Total, Inv, Relocate, Held, Lru.Step, Lru.Legal, Insert, Pin, Release, Erase, Install, Spec.Capacity,
         Spec.Idle, Spec.Present;
    if op.DoRelocate? {
      RelocateTotal(m, op.src, op.dst, op.n);
    } else if op.DoLookup? && !Held(m, op.key) {
    } else {
      StepIsLocal(m, op);
      var (t, lop) := Local(m, op);
      Lru.StepCapacity(m[t], lop);
      TotalUpdate(m, t, Lru.Step(m[t], lop));
    }
  }

  // --- isolation ---

  /**
   * Inserting for one tenant takes no key, no slot and no capacity from any other.  A key that
   * lives with another tenant is found there, and nothing changes lists but the key itself
   * when it is pinned.
   */
  lemma {:induction false} InsertIsolates<T, S, K(!new)>(m: Tenants<T, S, K>, t: T, k: K, pin: bool, u: T)
    requires Inv(m) && t in m && u in m
    ensures var (a, b) := (m[u], Insert(m, t, k, pin)[u]);
            && Spec.Size(b) <= Spec.Capacity(b) == Spec.Capacity(a)
            && (u != t || Held(m, k) ==>
                 && b.free == a.free && b.erased == a.erased
                 && (forall x :: Spec.Present(b, x) <==> Spec.Present(a, x))
                 && (forall x :: !(pin && x == k) ==> (Spec.Pinned(b, x) <==> Spec.Pinned(a, x))))
            && (Held(m, k) ==> if u == Home(m, k) then b == Spec.Lookup(a, k, pin) else b == a)
  {
    hide Spec.Find, Spec.Has, Spec.Pin;
    var a := m[u];
    Lru.LookupKeys(a, k, pin);
    Lru.StepCapacity(a, Lru.DoLookup(k, pin));
    Lru.StepCapacity(a, Lru.DoInsert(k, pin));
    LookupIdle(a, k, pin);
  }

  lemma LookupIdle<S, K>(st: Spec.State<S, K>, k: K, pin: bool)
    ensures var t := Spec.Lookup(st, k, pin);
            t.free == st.free && t.erased == st.erased
  {
  }
}
