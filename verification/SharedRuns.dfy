/** A run of the shared cache as one tenant sees it: a run of its own cache. */
module SharedRuns {
  import Spec = LruSpec
  import Lru = LruTheorems
  import Order = LruOrder
  import opened SharedSpec

  /** What one relocated slot is to tenant `t`. */
  function MoveSeen<T, S, K>(m: Tenants<T, S, K>, src: T, dst: T, t: T): seq<Lru.Op<S, K>>
    requires src in m && dst in m
  {
    if Spec.Full(m[src]) then []
    else (if t == src then [Lru.DoPreempt] else [])
         + (if t == dst then [Lru.DoAssign(Spec.NextSlot(m[src]))] else [])
  }

  function RelocateSeen<T, S, K>(m: Tenants<T, S, K>, src: T, dst: T, n: nat, t: T): seq<Lru.Op<S, K>>
    requires src in m && dst in m
  {
    if n == 0 then []
    else RelocateSeen(m, src, dst, n - 1, t) + MoveSeen(Relocate(m, src, dst, n - 1), src, dst, t)
  }

  /** What one operation is to tenant `t`: relocations give its slots away or bring it new ones. */
  ghost function Seen<T, S, K>(m: Tenants<T, S, K>, op: Op<T, S, K>, t: T): seq<Lru.Op<S, K>>
    requires Legal(m, op)
  {
    if op.DoRelocate? then RelocateSeen(m, op.src, op.dst, op.n, t)
    else if op.DoLookup? && !Held(m, op.key) then []
    else
      var (u, lop) := Local(m, op);
      if u == t then [lop] else []
  }

  ghost function Projection<T, S, K>(m: Tenants<T, S, K>, ops: seq<Op<T, S, K>>, t: T): seq<Lru.Op<S, K>>
    requires LegalRun(m, ops)
  {
    if ops == [] then [] else Seen(m, ops[0], t) + Projection(Step(m, ops[0]), ops[1..], t)
  }

  /** From `a` the tenant reaches `b` by operations of its own cache, each legal there. */
  ghost predicate Leads<S, K>(a: Spec.State<S, K>, ops: seq<Lru.Op<S, K>>, b: Spec.State<S, K>) {
    Lru.LegalRun(a, ops) && Lru.Run(a, ops) == b
  }

  lemma {:induction false} LeadsOn<S, K>(
    a: Spec.State<S, K>, first: seq<Lru.Op<S, K>>, b: Spec.State<S, K>, second: seq<Lru.Op<S, K>>, c: Spec.State<S, K>)
    requires Leads(a, first, b) && Leads(b, second, c)
    ensures Leads(a, first + second, c)
    decreases |second|
  {
    hide Lru.Step, Lru.Legal;
    if second == [] {
      assert first + second == first;
    } else {
      var n := |second| - 1;
      LeadsOn(a, first, b, second[..n], Lru.Run(b, second[..n]));
      assert (first + second)[..|first + second| - 1] == first + second[..n];
    }
  }

  lemma LeadsOne<S, K>(a: Spec.State<S, K>, op: Lru.Op<S, K>)
    requires Lru.Legal(a, op)
    ensures Leads(a, [op], Lru.Step(a, op))
  {
    hide Lru.Step, Lru.Legal;
    assert Lru.Run(a, []) == a && Lru.LegalRun(a, []);
    assert [op][..|[op]| - 1] == [];
  }

  lemma LeadsNone<S, K>(a: Spec.State<S, K>)
    ensures Leads(a, [], a)
  {
  }

  lemma MoveProjects<T, S, K(!new)>(m: Tenants<T, S, K>, src: T, dst: T, t: T)
    requires Inv(m) && SlotsApart(m) && src in m && dst in m && t in m
    ensures Leads(m[t], MoveSeen(m, src, dst, t), Move(m, src, dst)[t])
  {
    hide Inv, SlotsApart, Unowned, Spec.Inv, Spec.Present, Spec.Preempt, Spec.Assign, Lru.AllSlots, Spec.Full, Leads;
    LeadsNone(m[t]);
    if !Spec.Full(m[src]) {
      var slot := Spec.NextSlot(m[src]);
      var given := m[src := Spec.Preempt(m[src])];
      Give(m, src);
      NobodyOwns(given, slot, dst);
      LeadsOne(m[src], Lru.DoPreempt);
      LeadsOne(given[dst], Lru.DoAssign(slot));
      assert Move(m, src, dst) == given[dst := Spec.Assign(given[dst], slot)];
      assert Lru.Step(m[src], Lru.DoPreempt) == given[src];
      if t == src && t == dst {
        LeadsOn(m[t], [Lru.DoPreempt], given[t], [Lru.DoAssign(slot)], Move(m, src, dst)[t]);
      } else if t == src {
        assert MoveSeen(m, src, dst, t) == [Lru.DoPreempt];
      } else if t == dst {
        assert MoveSeen(m, src, dst, t) == [Lru.DoAssign(slot)];
      } else {
        assert MoveSeen(m, src, dst, t) == [];
      }
    }
  }

  /** The slot given away is nobody's for a moment. */
  lemma Give<T, S, K(!new)>(m: Tenants<T, S, K>, src: T)
    requires Inv(m) && SlotsApart(m) && src in m && !Spec.Full(m[src])
    ensures Unowned(m[src := Spec.Preempt(m[src])], Spec.NextSlot(m[src]))
  {
    hide Inv, SlotsApart, Unowned, Spec.Inv, Spec.Present, Spec.Preempt, Lru.AllSlots, Spec.Full;
    TenantInv(m, src);
    Lru.PreemptKeepsInv(m[src]);
    Lru.PreemptKeys(m[src]);
    Lru.PreemptSlots(m[src]);
    ShrinkKeeps(m, src, Spec.Preempt(m[src]), Spec.NextSlot(m[src]));
  }

  lemma NobodyOwns<T, S, K>(m: Tenants<T, S, K>, slot: S, t: T)
    requires Unowned(m, slot) && t in m
    ensures Lru.AllSlots(m[t])[slot] == 0
  {
  }

  lemma {:induction false} RelocateProjects<T, S, K(!new)>(
    m: Tenants<T, S, K>, src: T, dst: T, n: nat, t: T)
    requires Inv(m) && SlotsApart(m) && src in m && dst in m && t in m
    ensures Leads(m[t], RelocateSeen(m, src, dst, n, t), Relocate(m, src, dst, n)[t])
  {
    hide Inv, SlotsApart, Move, MoveSeen, Leads;
    if n == 0 {
      LeadsNone(m[t]);
    } else {
      var r := Relocate(m, src, dst, n - 1);
      RelocateProjects(m, src, dst, n - 1, t);
      RelocateKeeps(m, src, dst, n - 1);
      MoveProjects(r, src, dst, t);
      LeadsOn(m[t], RelocateSeen(m, src, dst, n - 1, t), r[t], MoveSeen(r, src, dst, t), Relocate(m, src, dst, n)[t]);
    }
  }

  lemma StepProjects<T, S, K(!new)>(m: Tenants<T, S, K>, op: Op<T, S, K>, t: T)
    requires Inv(m) && SlotsApart(m) && Legal(m, op) && t in m
    ensures t in Step(m, op) && Leads(m[t], Seen(m, op, t), Step(m, op)[t])
  {
    hide Inv, SlotsApart, Held, Relocate, RelocateSeen, Lru.Step, Lru.Legal, Insert, Pin, Release, Erase, Install,
         Leads, Local;
    if op.DoRelocate? {
      RelocateProjects(m, op.src, op.dst, op.n, t);
    } else {
      LeadsNone(m[t]);
      if !op.DoLookup? || Held(m, op.key) {
        StepIsLocal(m, op);
        var (u, lop) := Local(m, op);
        LeadsOne(m[u], lop);
      }
    }
  }

  /**
   * However the tenants' operations interleave, each tenant ends in the state its own cache
   * reaches by the operations that concern it, all of them legal there: what its neighbours do
   * shows only in the slots it gives away and receives.
   */
  lemma {:induction false} TenantsAreIndependent<T, S, K(!new)>(
    m: Tenants<T, S, K>, ops: seq<Op<T, S, K>>, t: T)
    requires Inv(m) && SlotsApart(m) && LegalRun(m, ops) && t in m
    ensures t in Run(m, ops)
    ensures Lru.LegalRun(m[t], Projection(m, ops, t))
    ensures Run(m, ops)[t] == Lru.Run(m[t], Projection(m, ops, t))
    decreases |ops|
  {
    hide Inv, SlotsApart, Legal, Step, Seen, Lru.Run, Lru.LegalRun;
    if ops == [] {
      LeadsNone(m[t]);
    } else {
      var r := Step(m, ops[0]);
      StepKeeps(m, ops[0]);
      StepProjects(m, ops[0], t);
      TenantsAreIndependent(r, ops[1..], t);
      LeadsOn(m[t], Seen(m, ops[0], t), r[t], Projection(r, ops[1..], t), Run(r, ops[1..])[t]);
    }
  }

  /** So each tenant's unpinned keys stand in the order of their last use, whatever the others did in between. */
  lemma TenantsKeepOrder<T, S, K(!new)>(m: Tenants<T, S, K>, ops: seq<Op<T, S, K>>, t: T)
    requires Inv(m) && SlotsApart(m) && LegalRun(m, ops) && t in m
    ensures t in Run(m, ops) && Order.Ordered(m[t], Projection(m, ops, t), Run(m, ops)[t].lru)
  {
    hide SlotsApart, Legal, Step, Seen, Lru.Run, Lru.LegalRun, Spec.Inv, Order.Ordered;
    TenantsAreIndependent(m, ops, t);
    Order.RunOrder(m[t], Projection(m, ops, t));
  }

  /** The operation neither names the tenant nor a key it holds. */
  ghost predicate Elsewhere<T, S, K>(st: Spec.State<S, K>, op: Op<T, S, K>, t: T) {
    match op
    case DoInsert(u, k, _) => u != t && !Spec.Present(st, k)
    case DoInstall(u, _, _) => u != t
    case DoRelocate(src, dst, _) => src != t && dst != t
    case _ => !Spec.Present(st, op.key)
  }

  lemma {:induction false} RelocateElsewhere<T, S, K>(m: Tenants<T, S, K>, src: T, dst: T, n: nat, t: T)
    requires src in m && dst in m && src != t && dst != t
    ensures RelocateSeen(m, src, dst, n, t) == []
  {
    if n > 0 {
      RelocateElsewhere(m, src, dst, n - 1, t);
    }
  }

  lemma SeenNothing<T, S, K(!new)>(m: Tenants<T, S, K>, op: Op<T, S, K>, t: T)
    requires Inv(m) && Legal(m, op) && t in m && Elsewhere(m[t], op, t)
    ensures Seen(m, op, t) == []
  {
    hide Spec.Present, Inv;
    if op.DoRelocate? {
      RelocateElsewhere(m, op.src, op.dst, op.n, t);
    }
  }

  /**
   * Whatever the others do, in any order and for any length of time: a tenant that is not named,
   * and whose keys are not touched, is exactly as it was.
   */
  lemma {:induction false} Undisturbed<T, S, K(!new)>(m: Tenants<T, S, K>, ops: seq<Op<T, S, K>>, t: T)
    requires Inv(m) && SlotsApart(m) && LegalRun(m, ops) && t in m
    requires forall i :: 0 <= i < |ops| ==> Elsewhere(m[t], ops[i], t)
    ensures t in Run(m, ops) && Run(m, ops)[t] == m[t]
    decreases |ops|
  {
    hide Inv, SlotsApart, Legal, Step, Seen, Elsewhere;
    if ops != [] {
      StepKeeps(m, ops[0]);
      StepProjects(m, ops[0], t);
      SeenNothing(m, ops[0], t);
      assert Lru.Run(m[t], []) == m[t];
      Undisturbed(Step(m, ops[0]), ops[1..], t);
    }
  }
}
